/**
 What the formulas of RFC 7748 compute, in plain integers: the scalar that clamping leaves, and the
 doubling and the differential addition of Montgomery's ladder on the curve with A = 486662.
 */
module Montgomery {
  import opened Arith
  import opened Field25519
  import opened X25519

  // ----- the prime -----

  lemma PrimeIs()
    ensures P == Pow2(BITS) - 19
  {
    Pow2OfBits();
  }

  // ----- the scalar -----

  const LAST_OCTET: nat := 248

  const TOP: nat := 254

  lemma TopPowers()
    ensures Pow2(TOP) == Pow2(LAST_OCTET) * 64
  {
    assert Pow2(6) == 64;
    Pow2Add(LAST_OCTET, 6);
  }

  lemma EightDivides(n: nat)
    requires n >= 3
    ensures Pow2(n) % 8 == 0
  {
    assert Pow2(n) == 2 * Pow2(n - 1) && Pow2(n - 1) == 2 * Pow2(n - 2) && Pow2(n - 2) == 2 * Pow2(n - 3);
  }

  lemma OneMoreOctet(x: int, a: int, m: int, d: int)
    ensures x + 256 * (a + m * d) == (x + 256 * a) + (256 * m) * d
  {
    assert 256 * (m * d) == (256 * m) * d;
  }

  lemma {:induction false} DecodeConcat(a: seq<byte>, b: seq<byte>)
    ensures DecodeLittleEndian(a + b) == DecodeLittleEndian(a) + Pow2(8 * |a|) * DecodeLittleEndian(b)
  {
    if |a| == 0 {
      assert a + b == b;
    } else {
      var rest := a[1..];
      assert (a + b)[1..] == rest + b && (a + b)[0] == a[0];
      DecodeConcat(rest, b);
      Pow2Values();
      Pow2Add(8, 8 * |rest|);
      OneMoreOctet(a[0], DecodeLittleEndian(rest), Pow2(8 * |rest|), DecodeLittleEndian(b));
    }
  }

  lemma {:induction false} DecodeBound(b: seq<byte>)
    ensures DecodeLittleEndian(b) < Pow2(8 * |b|)
  {
    if |b| == 0 {
    } else {
      DecodeBound(b[1..]);
      Pow2Values();
      Pow2Add(8, 8 * (|b| - 1));
    }
  }

  /** First, middle and last octets of a little-endian number. */
  lemma ThreeParts(k: seq<byte>)
    requires |k| == 32
    ensures var middle := DecodeLittleEndian(k[1..31]);
            && DecodeLittleEndian(k) == k[0] + 256 * middle + Pow2(LAST_OCTET) * k[31]
            && 0 <= k[0] + 256 * middle < Pow2(LAST_OCTET)
  {
    var h := k[..31];
    assert k == h + [k[31]] && h[1..] == k[1..31] && h[0] == k[0];
    DecodeConcat(h, [k[31]]);
    assert DecodeLittleEndian([k[31]]) == k[31];
    DecodeBound(h);
  }

  lemma ClampNumbers(low: nat, first: nat, rest: nat, last: nat, f: nat)
    requires f >= 1 && f % 8 == 0 && low == first + 256 * rest && low < f
    ensures (low + f * last) % (f * 64) == low + f * (last % 64)
    ensures (low + f * (last % 64)) / 8 * 8 == (first - first % 8) + 256 * rest + f * (last % 64)
  {
    TopSixBits(low, last, f);
    assert f * (last % 64) == 8 * (f / 8 * (last % 64)) by {
      assert f == 8 * (f / 8);
    }
    LowThreeBits(first, rest, f * (last % 64), f / 8 * (last % 64));
  }

  lemma TopSixBits(low: nat, last: nat, f: nat)
    requires f >= 1 && low < f
    ensures (low + f * last) % (f * 64) == low + f * (last % 64)
  {
    var q, r := last / 64, last % 64;
    assert f * last == q * (f * 64) + f * r;
    MulLe(f, r, 63);
    assert f * 63 == f * 64 - f;
    DivModUnique(low + f * last, f * 64, q, low + f * r);
  }

  lemma LowThreeBits(first: nat, rest: nat, high: int, eighth: int)
    requires high == 8 * eighth
    ensures (first + 256 * rest + high) / 8 * 8 == (first - first % 8) + 256 * rest + high
  {
  }

  lemma TopBit(low: nat, last: nat, f: nat)
    requires f >= 1 && low < f
    ensures (low + f * last) % (f * 128) == low + f * (last % 128)
  {
    var q, r := last / 128, last % 128;
    assert f * last == q * (f * 128) + f * r;
    MulLe(f, r, 127);
    assert f * 127 == f * 128 - f;
    DivModUnique(low + f * last, f * 128, q, low + f * r);
  }

  lemma MaskedParts(u: seq<byte>)
    requires |u| == 32
    ensures var m := u[31 := u[31] % 128];
            m[0] == u[0] && m[31] == u[31] % 128 && m[1..31] == u[1..31]
  {
  }

  lemma MaskedDecodes(u: seq<byte>)
    requires |u| == 32
    ensures DecodeUCoordinate(u) == u[0] + 256 * DecodeLittleEndian(u[1..31]) + Pow2(LAST_OCTET) * (u[31] % 128)
  {
    MaskedParts(u);
    ThreeParts(u[31 := u[31] % 128]);
  }

  lemma LastPower()
    ensures Pow2(LAST_OCTET) * 128 == Pow2(BITS) && Pow2(LAST_OCTET) >= 1
  {
    assert Pow2(7) == 128;
    Pow2Add(LAST_OCTET, 7);
  }

  /** The top bit of a coordinate is masked. */
  lemma CoordinateIs(u: seq<byte>)
    requires |u| == 32
    ensures DecodeUCoordinate(u) == DecodeLittleEndian(u) % Pow2(BITS)
  {
    MaskedDecodes(u);
    ThreeParts(u);
    LastPower();
    TopBit(u[0] + 256 * DecodeLittleEndian(u[1..31]), u[31], Pow2(LAST_OCTET));
  }

  lemma ClampedParts(k: seq<byte>)
    requires |k| == 32
    ensures var c := ClampOctets(k);
            c[0] == k[0] - k[0] % 8 && c[31] == k[31] % 64 + 64 && c[1..31] == k[1..31]
  {
  }

  lemma ClampedNumber(f: nat, first: nat, middle: nat, last: nat, n: nat)
    requires f >= 1 && f % 8 == 0 && first + 256 * middle < f
    requires n == first + 256 * middle + f * last
    ensures (first - first % 8) + 256 * middle + f * (last % 64 + 64) == f * 64 + n % (f * 64) / 8 * 8
  {
    ClampNumbers(first + 256 * middle, first, middle, last, f);
    assert f * (last % 64 + 64) == f * (last % 64) + f * 64;
  }

  /** Clamping: bit 254 is set, the bits above are cleared, and the scalar is a multiple of 8. */
  lemma ScalarIsClamped(k: seq<byte>)
    requires |k| == 32
    ensures DecodeScalar(k) == Pow2(TOP) + DecodeLittleEndian(k) % Pow2(TOP) / 8 * 8
  {
    ClampedDecodes(k);
    ThreeParts(k);
    TopPowers();
    EightDivides(LAST_OCTET);
    ClampedNumber(Pow2(LAST_OCTET), k[0], DecodeLittleEndian(k[1..31]), k[31], DecodeLittleEndian(k));
  }

  lemma ClampedDecodes(k: seq<byte>)
    requires |k| == 32
    ensures DecodeScalar(k) ==
            (k[0] - k[0] % 8) + 256 * DecodeLittleEndian(k[1..31]) + Pow2(LAST_OCTET) * (k[31] % 64 + 64)
  {
    ClampedParts(k);
    ThreeParts(ClampOctets(k));
  }

  /** It is 2^254 plus eight times a number below 2^251. */
  lemma ScalarRange(k: seq<byte>)
    requires |k| == 32
    ensures exists m: nat :: m < Pow2(TOP - 3) && DecodeScalar(k) == Pow2(TOP) + 8 * m
  {
    ScalarIsClamped(k);
    Pow2Add(TOP - 3, 3);
    assert Pow2(3) == 8;
    var m: nat := DecodeLittleEndian(k) % Pow2(TOP) / 8;
    assert m < Pow2(TOP - 3) && DecodeScalar(k) == Pow2(TOP) + 8 * m;
  }

  // ----- doubling and differential addition -----

  /** Twice the point (x : z), by the curve's coefficient. */
  function Double(r: (int, int)): (int, int) {
    var (x, z) := r;
    ((x * x - z * z) * (x * x - z * z) % P, 4 * (x * z) * (x * x + 486662 * (x * z) + z * z) % P)
  }

  /** The sum of two points whose difference has the coordinate x1. */
  function Sum(x1: int, r: (int, int), s: (int, int)): (int, int) {
    var c := r.0 * s.0 - r.1 * s.1;
    var d := r.0 * s.1 - r.1 * s.0;
    (4 * (c * c) % P, x1 * (4 * (d * d)) % P)
  }

  lemma MulOfMods(a: int, b: int, x: int, y: int)
    requires a == x % P && b == y % P
    ensures FMul(a, b) == (x * y) % P
  {
    ModMul(x, y, P);
  }

  lemma AddOfMods(a: int, b: int, x: int, y: int)
    requires a == x % P && b == y % P
    ensures FAdd(a, b) == (x + y) % P && FSub(a, b) == (x - y) % P
  {
    ModAddSub(x, y, P);
  }

  lemma SquaresOf(x: int, z: int)
    ensures (x + z) * (x + z) - (x - z) * (x - z) == 4 * (x * z)
    ensures (x + z) * (x + z) + 121665 * (4 * (x * z)) == x * x + 486662 * (x * z) + z * z
  {
    assert (x + z) * (x + z) == x * x + 2 * (x * z) + z * z;
    assert (x - z) * (x - z) == x * x - 2 * (x * z) + z * z;
  }

  lemma ProductOfSquares(x: int, z: int)
    ensures ((x + z) * (x + z)) * ((x - z) * (x - z)) == (x * x - z * z) * (x * x - z * z)
  {
    var p, m := x + z, x - z;
    assert p * m == x * x - z * z;
    assert (p * p) * (m * m) == (p * m) * (p * m);
  }

  lemma CrossProducts(x2: int, z2: int, x3: int, z3: int)
    ensures (x3 - z3) * (x2 + z2) + (x3 + z3) * (x2 - z2) == 2 * (x2 * x3 - z2 * z3)
    ensures (x3 - z3) * (x2 + z2) - (x3 + z3) * (x2 - z2) == -2 * (x2 * z3 - z2 * x3)
  {
    Expand(x3, -z3, x2, z2);
    Expand(x3, z3, x2, -z2);
  }

  lemma Expand(a: int, b: int, c: int, d: int)
    ensures (a + b) * (c + d) == a * c + a * d + b * c + b * d
  {
  }

  lemma SquareOfTwice(y: int)
    ensures (2 * y) * (2 * y) == 4 * (y * y) && (-2 * y) * (-2 * y) == 4 * (y * y)
  {
  }

  /** The formulas of a step double the first point and add the two. */
  lemma FormulasDoubleAndAdd(x1: int, x2: int, z2: int, x3: int, z3: int)
    ensures var (x2', z2', x3', z3') := LadderFormulas(x1, x2, z2, x3, z3);
            (x2', z2') == Double((x2, z2)) && (x3', z3') == Sum(x1, (x2, z2), (x3, z3))
  {
    assert var (x2', z2', _, _) := LadderFormulas(x1, x2, z2, x3, z3); (x2', z2') == Double((x2, z2)) by {
      var p, m, e := (x2 + z2) * (x2 + z2), (x2 - z2) * (x2 - z2), 4 * (x2 * z2);
      var A, B := FAdd(x2, z2), FSub(x2, z2);
      var AA, BB := FMul(A, A), FMul(B, B);
      MulOfMods(A, A, x2 + z2, x2 + z2);
      MulOfMods(B, B, x2 - z2, x2 - z2);
      MulOfMods(AA, BB, p, m);
      ProductOfSquares(x2, z2);
      SquaresOf(x2, z2);
      AddOfMods(AA, BB, p, m);
      var E := FSub(AA, BB);
      ModMul(A24, e, P);
      AddOfMods(AA, FMul(A24, E), p, A24 * e);
      MulOfMods(E, FAdd(AA, FMul(A24, E)), e, p + A24 * e);
    }
    assert var (_, _, x3', z3') := LadderFormulas(x1, x2, z2, x3, z3); (x3', z3') == Sum(x1, (x2, z2), (x3, z3)) by {
      var da, cb := (x3 - z3) * (x2 + z2), (x3 + z3) * (x2 - z2);
      var c, d := x2 * x3 - z2 * z3, x2 * z3 - z2 * x3;
      var DA, CB := FMul(FSub(x3, z3), FAdd(x2, z2)), FMul(FAdd(x3, z3), FSub(x2, z2));
      MulOfMods(FSub(x3, z3), FAdd(x2, z2), x3 - z3, x2 + z2);
      MulOfMods(FAdd(x3, z3), FSub(x2, z2), x3 + z3, x2 - z2);
      AddOfMods(DA, CB, da, cb);
      CrossProducts(x2, z2, x3, z3);
      MulOfMods(FAdd(DA, CB), FAdd(DA, CB), 2 * c, 2 * c);
      MulOfMods(FSub(DA, CB), FSub(DA, CB), -2 * d, -2 * d);
      SquareOfTwice(c);
      SquareOfTwice(d);
      ModMul(x1, 4 * (d * d), P);
    }
  }

  // ----- the ladder -----

  /** Montgomery's ladder: bit by bit from the top, one point is doubled and the other replaced by the sum. */
  function Rungs(k: nat, x1: int, t: nat): ((int, int), (int, int))
    requires t <= BITS
    decreases BITS - t
  {
    if t == BITS then ((1, 0), (x1, 1))
    else
      var (r, s) := Rungs(k, x1, t + 1);
      if k / Pow2(t) % 2 == 1 then (Sum(x1, r, s), Double(s)) else (Double(r), Sum(x1, r, s))
  }

  lemma SumCommutes(x1: int, r: (int, int), s: (int, int))
    ensures Sum(x1, r, s) == Sum(x1, s, r)
  {
    var d := r.0 * s.1 - r.1 * s.0;
    assert s.0 * r.1 - s.1 * r.0 == -d;
    assert (-d) * (-d) == d * d;
    assert s.0 * r.0 - s.1 * r.1 == r.0 * s.0 - r.1 * s.1;
  }

  /** The RFC's state, its pending swap carried out, is the pair of points of the ladder. */
  lemma {:induction false} LadderClimbs(k: nat, x1: int, t: nat)
    requires t <= BITS
    ensures var st := Ladder(k, x1, t);
            Rungs(k, x1, t) == if st.swap then ((st.x3, st.z3), (st.x2, st.z2)) else ((st.x2, st.z2), (st.x3, st.z3))
    decreases BITS - t
  {
    if t == BITS {
    } else {
      LadderClimbs(k, x1, t + 1);
      var (r, s) := Rungs(k, x1, t + 1);
      if ScalarBit(k, t) {
        FormulasDoubleAndAdd(x1, s.0, s.1, r.0, r.1);
        SumCommutes(x1, r, s);
      } else {
        FormulasDoubleAndAdd(x1, r.0, r.1, s.0, s.1);
      }
    }
  }

  // ----- the public key -----

  function Power(x: int, n: nat): int {
    if n == 0 then 1 else x * Power(x, n - 1)
  }

  lemma {:induction false} FPowIsPower(x: int, n: nat)
    ensures FPow(x, n) == Power(x, n) % P
  {
    if n == 0 {
    } else {
      FPowIsPower(x, n - 1);
      ModMul(x, Power(x, n - 1), P);
    }
  }

  lemma TimesPower(x: int, z: int, n: nat)
    ensures FMul(x, FPow(z, n)) == (x * Power(z, n)) % P
  {
    FPowIsPower(z, n);
    ModMul(x, Power(z, n), P);
  }

  const INVERSE: nat := P - 2

  lemma OutputIs(k: seq<byte>, u: seq<byte>, x: int, z: int)
    requires |k| == |u| == 32 && (x, z) == Rungs(DecodeScalar(k), DecodeUCoordinate(u), 0).0
    ensures X25519.X25519(k, u) == EncodeUCoordinate(FMul(x, FPow(z, INVERSE)))
  {
    LadderClimbs(DecodeScalar(k), DecodeUCoordinate(u), 0);
  }

  /**
   The public key in plain integers: the ladder's first point for the clamped scalar and the coordinate 9,
   x times z to the power p - 2, as the 32 octets of its representative below p.
   */
  lemma PublicKeyIs(k: seq<byte>)
    requires |k| == 32
    ensures var scalar := Pow2(TOP) + DecodeLittleEndian(k) % Pow2(TOP) / 8 * 8;
            var (x, z) := Rungs(scalar, 9, 0).0;
            var key := X25519.X25519(k, BasePoint());
            |key| == 32 && DecodeLittleEndian(key) == (x * Power(z, INVERSE)) % P
  {
    ScalarIsClamped(k);
    BasePointIsNine();
    var (x, z) := Rungs(DecodeScalar(k), 9, 0).0;
    OutputIs(k, BasePoint(), x, z);
    TimesPower(x, z, INVERSE);
    EncodingIsCanonical(FMul(x, FPow(z, INVERSE)), 0);
    RepresentativeOf(x * Power(z, INVERSE));
  }

  lemma RepresentativeOf(x: int)
    ensures x % P % P == x % P
  {
  }
}
