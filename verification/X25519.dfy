/** The function X25519 of RFC 7748, section 5, on octet strings. */
module X25519 {
  import opened Arith
  import opened Field25519

  // ----- section 5: decoding and encoding -----

  function DecodeLittleEndian(b: seq<byte>): nat {
    if |b| == 0 then 0 else b[0] + 256 * DecodeLittleEndian(b[1..])
  }

  function ClampedFirst(x: byte): byte {
    x - x % 8
  }

  function ClampedLast(x: byte): byte {
    x % 64 + 64
  }

  /** Bits 0, 1, 2 and 255 are cleared, bit 254 is set. */
  function ClampOctets(k: seq<byte>): seq<byte>
    requires |k| == 32
  {
    k[31 := ClampedLast(k[31])][0 := ClampedFirst(k[0])]
  }

  function DecodeScalar(k: seq<byte>): nat
    requires |k| == 32
  {
    DecodeLittleEndian(ClampOctets(k))
  }

  /** The most significant bit of the last octet is masked. */
  function DecodeUCoordinate(u: seq<byte>): nat
    requires |u| == 32
  {
    DecodeLittleEndian(u[31 := u[31] % 128])
  }

  function LittleEndian(n: int, length: nat): seq<byte>
    decreases length
  {
    if length == 0 then [] else [n % 256] + LittleEndian(n / 256, length - 1)
  }

  const OCTETS: nat := 32

  function EncodeUCoordinate(u: int): seq<byte> {
    LittleEndian(u % P, OCTETS)
  }

  // ----- section 5: the Montgomery ladder, with the swap deferred to the next step -----

  const A24: int := 121665

  datatype LadderState = LadderState(x2: int, z2: int, x3: int, z3: int, swap: bool)

  function CSwap(swap: bool, x: int, y: int): (int, int) {
    if swap then (y, x) else (x, y)
  }

  /** The formulas of one step, from (x_2, z_2, x_3, z_3) to their new values. */
  function LadderFormulas(x1: int, x2: int, z2: int, x3: int, z3: int): (int, int, int, int) {
    var A := FAdd(x2, z2);
    var AA := FMul(A, A);
    var B := FSub(x2, z2);
    var BB := FMul(B, B);
    var E := FSub(AA, BB);
    var C := FAdd(x3, z3);
    var D := FSub(x3, z3);
    var DA := FMul(D, A);
    var CB := FMul(C, B);
    (FMul(AA, BB),
     FMul(E, FAdd(AA, FMul(A24, E))),
     FMul(FAdd(DA, CB), FAdd(DA, CB)),
     FMul(x1, FMul(FSub(DA, CB), FSub(DA, CB))))
  }

  function LadderStep(x1: int, st: LadderState, kt: bool): LadderState {
    var swap := st.swap != kt;
    var (x2, x3) := CSwap(swap, st.x2, st.x3);
    var (z2, z3) := CSwap(swap, st.z2, st.z3);
    var (x2', z2', x3', z3') := LadderFormulas(x1, x2, z2, x3, z3);
    LadderState(x2', z2', x3', z3', kt)
  }

  predicate ScalarBit(k: nat, t: nat) {
    (k / Pow2(t)) % 2 == 1
  }

  /** The ladder's state before the step for bit t - 1: bits 254 down to t are done. */
  function Ladder(k: nat, x1: int, t: nat): LadderState
    requires t <= BITS
    decreases BITS - t
  {
    if t == BITS then LadderState(1, 0, x1, 1, false)
    else LadderStep(x1, Ladder(k, x1, t + 1), ScalarBit(k, t))
  }

  function X25519(k: seq<byte>, u: seq<byte>): seq<byte>
    requires |k| == |u| == 32
  {
    var st := Ladder(DecodeScalar(k), DecodeUCoordinate(u), 0);
    var (x2, x3) := CSwap(st.swap, st.x2, st.x3);
    var (z2, z3) := CSwap(st.swap, st.z2, st.z3);
    EncodeUCoordinate(FMul(x2, FPow(z2, P - 2)))
  }

  function Zeros(n: nat): (z: seq<byte>)
    ensures |z| == n
  {
    if n == 0 then [] else [0] + Zeros(n - 1)
  }

  /** Section 4.1: the base point's u-coordinate is 9. */
  function BasePoint(): (u: seq<byte>)
    ensures |u| == 32
  {
    [9] + Zeros(31)
  }

  lemma {:induction false} DecodeZeros(n: nat)
    ensures DecodeLittleEndian(Zeros(n)) == 0
  {
    if n == 0 {
    } else {
      DecodeZeros(n - 1);
      assert Zeros(n)[1..] == Zeros(n - 1);
    }
  }

  lemma BasePointIsNine()
    ensures DecodeUCoordinate(BasePoint()) == 9
  {
    ZerosAt(31, 30);
    assert BasePoint()[31] == 0;
    assert BasePoint()[31 := 0] == BasePoint();
    assert BasePoint()[1..] == Zeros(31);
    DecodeZeros(31);
  }

  lemma {:induction false} ZerosAt(n: nat, i: nat)
    requires i < n
    ensures Zeros(n)[i] == 0
  {
    if i == 0 {
    } else {
      ZerosAt(n - 1, i - 1);
    }
  }

  // ----- octets, bits and encodings -----

  /** Bit t of the little-endian integer is bit t mod 8 of octet t div 8. */
  lemma {:induction false} BitOfOctets(b: seq<byte>, t: nat)
    requires t < 8 * |b|
    ensures ScalarBit(DecodeLittleEndian(b), t) == ScalarBit(b[t / 8], t % 8)
  {
    Pow2Values();
    if t < 8 {
      BitOfLowOctet(b[0], DecodeLittleEndian(b[1..]), t);
    } else {
      var k := DecodeLittleEndian(b);
      Pow2Add(8, t - 8);
      DivDiv(k, 256, Pow2(t - 8));
      assert k / 256 == DecodeLittleEndian(b[1..]);
      BitOfOctets(b[1..], t - 8);
      assert b[1..][(t - 8) / 8] == b[t / 8];
    }
  }

  lemma BitOfLowOctet(low: byte, rest: nat, t: nat)
    requires t < 8
    ensures ScalarBit(low + 256 * rest, t) == ScalarBit(low, t)
  {
    var m, f := Pow2(t), Pow2(7 - t);
    Pow2Values();
    Pow2Add(t, 8 - t);
    assert m * (2 * f) == 256;
    var e := f * rest;
    assert 256 * rest == (2 * e) * m by {
      assert (m * (2 * f)) * rest == (2 * (f * rest)) * m;
    }
    ModShift(low, 2 * e, m);
  }

  /** LittleEndian writes a number's octets: decoding them gives it back. */
  lemma {:induction false} DecodeEncode(n: nat, length: nat)
    requires n < Pow2(8 * length)
    ensures |LittleEndian(n, length)| == length
    ensures DecodeLittleEndian(LittleEndian(n, length)) == n
    decreases length
  {
    if length == 0 {
    } else {
      Pow2Values();
      Pow2Add(8, 8 * (length - 1));
      DecodeEncode(n / 256, length - 1);
      assert LittleEndian(n, length)[1..] == LittleEndian(n / 256, length - 1);
    }
  }

  /** An encoded coordinate is its representative below p: congruent coordinates, and only those, give the same octets. */
  lemma EncodingIsCanonical(u: int, v: int)
    ensures |EncodeUCoordinate(u)| == 32
    ensures DecodeLittleEndian(EncodeUCoordinate(u)) == u % P
    ensures EncodeUCoordinate(u) == EncodeUCoordinate(v) <==> u % P == v % P
  {
    Pow2OfBits();
    Pow2Monotone(BITS, 8 * OCTETS);
    DecodeEncode(u % P, OCTETS);
    DecodeEncode(v % P, OCTETS);
  }
}
