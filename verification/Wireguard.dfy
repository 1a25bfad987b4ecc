/** `Wireguard.generatePublicKey`: the X25519 public key, by the Montgomery ladder on limbs. */
module Wireguard {
  import opened Arith
  import opened Field25519
  import opened JsNumber
  import opened Limbs
  import opened WireguardField
  import opened WireguardPack
  import opened X25519

  method Clamp(z: array<byte>)
    requires z.Length == 32
    modifies z
    ensures z[..] == ClampOctets(old(z[..]))
  {
    ghost var s := z[..];
    ClampLast(s[31]);
    ClampFirst(s[0]);
    z[31] := ToUint8(BitOr(BitAnd(z[31], 127), 64));
    z[0] := ToUint8(BitAnd(z[0], 248));
    assert z[..] == s[31 := ClampedLast(s[31])][0 := ClampedFirst(s[0])];
  }

  lemma ClampLast(x: byte)
    ensures ToUint8(BitOr(BitAnd(x, 127), 64)) == ClampedLast(x)
  {
    Pow2Low();
    BitAndMask(x, 7);
    SetBit6(x % 128);
    LastBits(x);
  }

  lemma LastBits(x: byte)
    ensures ToUint8(x % 128 % 64 + 64) == ClampedLast(x)
  {
    assert x % 128 == (if x < 128 then x else x - 128);
  }

  lemma Pow2Low()
    ensures Pow2(1) == 2 && Pow2(5) == 32 && Pow2(6) == 64 && Pow2(7) == 128
  {
    assert Pow2(5) == 32;
  }

  lemma SetBit6(y: int)
    requires 0 <= y < 128
    ensures BitOr(y, 64) == y % 64 + 64
  {
    Pow2Low();
    OrTopBit(y, 6);
  }

  lemma ClampFirst(x: byte)
    ensures ToUint8(BitAnd(x, 248)) == ClampedFirst(x)
  {
    AndHighFive(x);
    FirstBits(x);
  }

  lemma AndHighFive(x: byte)
    ensures BitAnd(x, 248) == 8 * (x / 8 % 32)
  {
    AndEven(x, 124);
    AndEven(x / 2, 62);
    AndEven(x / 2 / 2, 31);
    AndFive(x / 8);
    assert x / 2 / 2 / 2 == x / 8;
  }

  lemma AndFive(y: int)
    ensures And(y, 31) == y % 32
  {
    Pow2Low();
    AndMask(y, 5);
  }

  lemma FirstBits(x: byte)
    ensures ToUint8(8 * (x / 8 % 32)) == ClampedFirst(x)
  {
    assert x == 8 * (x / 8) + x % 8;
  }

  method Gf(init: seq<int>) returns (r: array<int>)
    requires |init| <= 16
    ensures fresh(r) && r.Length == 16
    ensures r[..|init|] == init && forall k :: |init| <= k < 16 ==> r[k] == 0
    ensures Fe(r[..]) == Fe(init)
    ensures Digits(init) ==> Carried(r[..])
  {
    r := new int[16](_ => 0);
    for i := 0 to |init|
      invariant r[..i] == init[..i] && forall k :: i <= k < 16 ==> r[k] == 0
    {
      r[i] := init[i];
    }
    PaddedValue(init, r[..]);
  }

  lemma PaddedValue(init: seq<int>, r: seq<int>)
    requires |init| <= |r| && r[..|init|] == init
    requires forall k :: |init| <= k < |r| ==> r[k] == 0
    ensures Value(r) == Value(init)
  {
    assert r == init + r[|init|..];
    ValueConcat(init, r[|init|..]);
    ValueOfZeros(r[|init|..]);
  }

  /** The six work arrays of the ladder: sixteen limbs each, and no two the same array. */
  ghost predicate WorkArrays(a: array<int>, b: array<int>, c: array<int>, d: array<int>, e: array<int>, f: array<int>) {
    && a.Length == b.Length == c.Length == d.Length == e.Length == f.Length == 16
    && a != b && a != c && a != d && a != e && a != f
    && b != c && b != d && b != e && b != f
    && c != d && c != e && c != f
    && d != e && d != f && e != f
  }

  ghost predicate FourCarried(a: array<int>, b: array<int>, c: array<int>, d: array<int>)
    reads a, b, c, d
  {
    Carried(a[..]) && Carried(b[..]) && Carried(c[..]) && Carried(d[..])
  }

  /** The first half of a ladder step leaves d = AA, f = BB, a = CB and c = DA. */
  method LadderProducts(a: array<int>, b: array<int>, c: array<int>, d: array<int>, e: array<int>, f: array<int>)
    requires WorkArrays(a, b, c, d, e, f) && FourCarried(a, b, c, d)
    modifies a, b, c, d, e, f
    ensures FourCarried(a, c, d, f)
    ensures var A := FAdd(old(Fe(a[..])), old(Fe(c[..])));
            var B := FSub(old(Fe(a[..])), old(Fe(c[..])));
            var C := FAdd(old(Fe(b[..])), old(Fe(d[..])));
            var D := FSub(old(Fe(b[..])), old(Fe(d[..])));
            Fe(d[..]) == FMul(A, A) && Fe(f[..]) == FMul(B, B) &&
            Fe(a[..]) == FMul(C, B) && Fe(c[..]) == FMul(D, A)
  {
    Add(e, a, c);
    Subtract(a, a, c);
    Add(c, b, d);
    Subtract(b, b, d);
    MultMod(d, e, e);
    MultMod(f, a, a);
    MultMod(a, c, a);
    MultMod(c, b, e);
  }

  ghost predicate Constants(k121665: array<int>, k9: array<int>)
    reads k121665, k9
  {
    && k121665.Length == k9.Length == 16
    && Small(k121665[..], MAX_FACTOR) && Small(k9[..], MAX_FACTOR)
    && Fe(k121665[..]) == A24 && Fe(k9[..]) == 9
  }

  /** The second half of a ladder step: a, c, b, d become the new x_2, z_2, x_3, z_3. */
  method LadderCombine(a: array<int>, b: array<int>, c: array<int>, d: array<int>, e: array<int>, f: array<int>,
                       k121665: array<int>, k9: array<int>)
    requires WorkArrays(a, b, c, d, e, f) && FourCarried(a, c, d, f)
    requires Constants(k121665, k9) && {k121665, k9} !! {a, b, c, d, e, f}
    modifies a, b, c, d, e, f
    ensures FourCarried(a, b, c, d)
    ensures var CB, DA := old(Fe(a[..])), old(Fe(c[..]));
            var AA, BB := old(Fe(d[..])), old(Fe(f[..]));
            var E := FSub(AA, BB);
            Fe(a[..]) == FMul(AA, BB) &&
            Fe(c[..]) == FMul(E, FAdd(FMul(E, A24), AA)) &&
            Fe(b[..]) == FMul(FAdd(CB, DA), FAdd(CB, DA)) &&
            Fe(d[..]) == FMul(FMul(FSub(CB, DA), FSub(CB, DA)), 9)
  {
    Add(e, a, c);
    Subtract(a, a, c);
    MultMod(b, a, a);
    Subtract(c, d, f);
    MultMod(a, c, k121665);
    Add(a, a, d);
    MultMod(c, c, a);
    MultMod(a, d, f);
    MultMod(d, b, k9);
    MultMod(b, e, e);
  }

  /** The body of the ladder's loop, between the two pairs of swaps, computes the formulas of RFC 7748. */
  method LadderBody(a: array<int>, b: array<int>, c: array<int>, d: array<int>, e: array<int>, f: array<int>,
                    k121665: array<int>, k9: array<int>)
    requires WorkArrays(a, b, c, d, e, f) && FourCarried(a, b, c, d)
    requires Constants(k121665, k9) && {k121665, k9} !! {a, b, c, d, e, f}
    modifies a, b, c, d, e, f
    ensures FourCarried(a, b, c, d)
    ensures (Fe(a[..]), Fe(c[..]), Fe(b[..]), Fe(d[..]))
         == LadderFormulas(9, old(Fe(a[..])), old(Fe(c[..])), old(Fe(b[..])), old(Fe(d[..])))
  {
    ghost var x2, x3, z2, z3 := Fe(a[..]), Fe(b[..]), Fe(c[..]), Fe(d[..]);
    LadderProducts(a, b, c, d, e, f);
    ghost var CB, DA, AA, BB := Fe(a[..]), Fe(c[..]), Fe(d[..]), Fe(f[..]);
    LadderCombine(a, b, c, d, e, f, k121665, k9);
    FormulasCommute(CB, DA, AA, BB);
  }

  /** The program adds and multiplies in another order than the RFC, and takes the difference the other way round. */
  lemma FormulasCommute(CB: int, DA: int, AA: int, BB: int)
    ensures var E := FSub(AA, BB); FMul(E, FAdd(FMul(E, A24), AA)) == FMul(E, FAdd(AA, FMul(A24, E)))
    ensures FAdd(CB, DA) == FAdd(DA, CB)
    ensures FMul(FMul(FSub(CB, DA), FSub(CB, DA)), 9) == FMul(9, FMul(FSub(DA, CB), FSub(DA, CB)))
  {
    var E := FSub(AA, BB);
    FMulComm(E, A24);
    FAddComm(FMul(E, A24), AA);
    FAddComm(CB, DA);
    FSquareOfDifference(CB, DA);
    FMulComm(FMul(FSub(DA, CB), FSub(DA, CB)), 9);
  }

  /** The program's arrays hold the RFC's ladder state with its pending swap carried out. */
  ghost predicate Holds(a: int, b: int, c: int, d: int, st: LadderState) {
    (a, b) == CSwap(st.swap, st.x2, st.x3) && (c, d) == CSwap(st.swap, st.z2, st.z3)
  }

  /** Swapping before and after a step, by the same bit, refines the RFC's deferred swap. */
  lemma SwapBeforeAndAfter(a: int, b: int, c: int, d: int, st: LadderState, kt: bool)
    requires Holds(a, b, c, d, st)
    ensures var (x2, x3) := CSwap(kt, a, b);
            var (z2, z3) := CSwap(kt, c, d);
            var (x2', z2', x3', z3') := LadderFormulas(9, x2, z2, x3, z3);
            var (a', b') := CSwap(kt, x2', x3');
            var (c', d') := CSwap(kt, z2', z3');
            Holds(a', b', c', d', LadderStep(9, st, kt))
  {
  }

  /** `(z[i >>> 3] >>> (i & 7)) & 1` is bit i of the scalar. */
  lemma KeyBit(z: seq<byte>, i: nat)
    requires |z| == 32 && i < 255
    ensures Shr(i, 3) == i / 8 && BitAnd(i, 7) == i % 8
    ensures BitAnd(Shr(z[i / 8], i % 8), 1) == (if ScalarBit(DecodeLittleEndian(z), i) then 1 else 0)
  {
    BitOfOctets(z, i);
    BitIndex(i);
    OctetBit(z[i / 8], i % 8);
  }

  lemma BitIndex(i: nat)
    requires i < 255
    ensures Shr(i, 3) == i / 8 && BitAnd(i, 7) == i % 8
  {
    assert Pow2(3) == 8;
    BitAndMask(i, 3);
    assert i % 0x1_0000_0000 == i;
  }

  lemma OctetBit(x: byte, k: nat)
    requires k < 8
    ensures BitAnd(Shr(x, k), 1) == (if ScalarBit(x, k) then 1 else 0)
  {
    var y := Shr(x, k);
    assert y == x / Pow2(k) by {
      assert x % 0x1_0000_0000 == x;
    }
    assert Pow2(1) == 2;
    BitAndMask(y, 1);
  }

  /** One round of the loop: swap, compute, swap back. */
  method LadderRung(a: array<int>, b: array<int>, c: array<int>, d: array<int>, e: array<int>, f: array<int>,
                    k121665: array<int>, k9: array<int>, r: int, ghost st: LadderState)
    requires WorkArrays(a, b, c, d, e, f) && FourCarried(a, b, c, d)
    requires Constants(k121665, k9) && {k121665, k9} !! {a, b, c, d, e, f}
    requires r == 0 || r == 1
    requires Holds(Fe(a[..]), Fe(b[..]), Fe(c[..]), Fe(d[..]), st)
    modifies a, b, c, d, e, f
    ensures FourCarried(a, b, c, d)
    ensures Holds(Fe(a[..]), Fe(b[..]), Fe(c[..]), Fe(d[..]), LadderStep(9, st, r == 1))
  {
    SwapBeforeAndAfter(Fe(a[..]), Fe(b[..]), Fe(c[..]), Fe(d[..]), st, r == 1);
    CSwapLimbs(a, b, r);
    CSwapLimbs(c, d, r);
    LadderBody(a, b, c, d, e, f, k121665, k9);
    CSwapLimbs(a, b, r);
    CSwapLimbs(c, d, r);
  }

  /** Bit i of the clamped key. */
  method ReadBit(z: array<byte>, i: nat) returns (r: int)
    requires z.Length == 32 && i < 255
    ensures r == if ScalarBit(DecodeLittleEndian(z[..]), i) then 1 else 0
  {
    KeyBit(z[..], i);
    r := BitAnd(Shr(z[Shr(i, 3)], BitAnd(i, 7)), 1);
  }

  /** The loop over the bits of the scalar. */
  method RunLadder(a: array<int>, b: array<int>, c: array<int>, d: array<int>, e: array<int>, f: array<int>,
                   k121665: array<int>, k9: array<int>, z: array<byte>, ghost k: nat)
    requires WorkArrays(a, b, c, d, e, f) && FourCarried(a, b, c, d)
    requires Constants(k121665, k9) && {k121665, k9} !! {a, b, c, d, e, f}
    requires z.Length == 32 && k == DecodeLittleEndian(z[..])
    requires Fe(a[..]) == 1 && Fe(b[..]) == 9 && Fe(c[..]) == 0 && Fe(d[..]) == 1
    modifies a, b, c, d, e, f
    ensures FourCarried(a, b, c, d)
    ensures Holds(Fe(a[..]), Fe(b[..]), Fe(c[..]), Fe(d[..]), Ladder(k, 9, 0))
  {
    for i := BITS downto 0
      invariant FourCarried(a, b, c, d)
      invariant Holds(Fe(a[..]), Fe(b[..]), Fe(c[..]), Fe(d[..]), Ladder(k, 9, i))
      invariant Constants(k121665, k9)
      invariant z[..] == old(z[..])
    {
      var r := ReadBit(z, i);
      LadderRung(a, b, c, d, e, f, k121665, k9, r, Ladder(k, 9, i + 1));
    }
  }

  /** The ladder with its work arrays and constants, started at u = 9. */
  method LadderFromNine(z: array<byte>) returns (a: array<int>, c: array<int>)
    requires z.Length == 32
    ensures fresh(a) && fresh(c) && a != c && a.Length == c.Length == 16
    ensures Carried(a[..]) && Carried(c[..])
    ensures var st := Ladder(DecodeLittleEndian(z[..]), 9, 0);
            Fe(a[..]) == CSwap(st.swap, st.x2, st.x3).0 && Fe(c[..]) == CSwap(st.swap, st.z2, st.z3).0
  {
    ConstantElements();
    a := Gf([1]);
    var b := Gf([9]);
    c := Gf([]);
    var d := Gf([1]);
    var e := Gf([]);
    var f := Gf([]);
    var k121665 := Gf([0xdb41, 1]);
    var k9 := Gf([9]);
    RunLadder(a, b, c, d, e, f, k121665, k9, z, DecodeLittleEndian(z[..]));
  }

  /** The end of the key generation: x_2 / z_2, in octets. */
  method DivideAndPack(z: array<byte>, a: array<int>, c: array<int>)
    requires z.Length == 32 && a.Length == c.Length == 16 && a != c
    requires Carried(a[..]) && Carried(c[..])
    modifies z, a, c
    ensures z[..] == EncodeUCoordinate(FMul(old(Fe(a[..])), FPow(old(Fe(c[..])), P - 2)))
  {
    Invert(c, c);
    MultMod(a, a, c);
    EncodeReduced(Value(a[..]), Fe(a[..]));
    Pack(z, a);
  }

  method CopyOctets(z: array<byte>, privateKey: array<byte>)
    requires z.Length == 32 && z != privateKey
    modifies z
    ensures z[..] == Octets32(privateKey[..])
  {
    ghost var key := Octets32(privateKey[..]);
    for i := 0 to 32
      invariant z[..i] == key[..i]
    {
      z[i] := if i < privateKey.Length then privateKey[i] else 0;
    }
  }

  method GeneratePublicKey(privateKey: array<byte>) returns (z: array<byte>)
    ensures fresh(z) && z.Length == 32
    ensures z[..] == X25519.X25519(Octets32(privateKey[..]), BasePoint())
  {
    z := new byte[32](_ => 0);
    CopyOctets(z, privateKey);
    Clamp(z);
    var a, c := LadderFromNine(z);
    BasePointIsNine();
    DivideAndPack(z, a, c);
  }

  lemma EncodeReduced(x: int, y: int)
    requires y == x % P
    ensures EncodeUCoordinate(x) == EncodeUCoordinate(y)
  {
    InRange(y);
  }

  lemma ConstantElements()
    ensures Fe([1]) == 1 && Fe([9]) == 9 && Fe([]) == 0 && Fe([0xdb41, 1]) == A24
  {
    assert Value([1]) == 1 && Value([9]) == 9 && Value([]) == 0;
    assert [0xdb41, 1][1..] == [1];
  }
}
