/** Powers of two, bytes, and the few facts about division that need a proof. */
module Arith {
  /** What a `Uint8Array` element, or a byte of a key, can hold. */
  type byte = x: int | 0 <= x < 256

  function Pow2(k: nat): (r: int)
    ensures r >= 1
  {
    if k == 0 then 1 else 2 * Pow2(k - 1)
  }

  lemma {:induction false} Pow2Monotone(j: nat, k: nat)
    requires j <= k
    ensures Pow2(j) <= Pow2(k)
    decreases k
  {
    if j == k {
    } else {
      Pow2Monotone(j, k - 1);
    }
  }

  lemma Pow2Values()
    ensures Pow2(4) == 16 && Pow2(8) == 256 && Pow2(16) == 65536
    ensures Pow2(31) == 0x8000_0000 && Pow2(32) == 0x1_0000_0000
  {
    assert Pow2(4) == 16;
    Pow2Add(4, 4);
    Pow2Add(8, 8);
    Pow2Add(16, 16);
    assert Pow2(32) == 2 * Pow2(31);
  }

  /** The number of bits of a scalar. */
  const BITS: nat := 255

  lemma Pow2OfBits()
    ensures Pow2(BITS) == 0x80000000_00000000_00000000_00000000_00000000_00000000_00000000_00000000
  {
    Pow2Values();
    Pow2Double(32, 64);
    Pow2Double(64, 128);
    Pow2Double(128, 256);
  }

  lemma Pow2Double(k: nat, n: nat)
    requires n == 2 * k
    ensures Pow2(n) == Pow2(k) * Pow2(k)
    ensures n > 0 ==> Pow2(n) == 2 * Pow2(n - 1)
  {
    Pow2Add(k, k);
  }

  lemma {:induction false} Pow2Add(j: nat, k: nat)
    ensures Pow2(j + k) == Pow2(j) * Pow2(k)
    decreases j
  {
    if j == 0 {
    } else {
      Pow2Add(j - 1, k);
      assert Pow2(j + k) == 2 * Pow2(j + k - 1);
    }
  }

  /** The remainder modulo 2m, one bit at a time. */
  lemma ModDouble(x: int, m: int)
    requires m >= 1
    ensures x % (2 * m) == 2 * ((x / 2) % m) + x % 2
  {
    var q, r := x / 2 / m, x / 2 % m;
    assert x == 2 * (q * m + r) + x % 2;
    assert x == q * (2 * m) + (2 * r + x % 2);
    DivModUnique(x, 2 * m, q, 2 * r + x % 2);
  }

  lemma DivModUnique(x: int, m: int, q: int, r: int)
    requires m >= 1 && 0 <= r < m && x == q * m + r
    ensures x / m == q && x % m == r
  {
    var d, r' := q - x / m, x % m;
    assert d * m == r' - r;
    assert d >= 1 ==> d * m >= m;
    assert d <= -1 ==> d * m <= -m;
  }

  lemma ModFactor(x: int, y: int, f: int, m: int)
    requires f >= 1 && m >= 1 && f * m >= 1
    requires x % (f * m) == y % (f * m)
    ensures x % m == y % m
  {
    var n := f * m;
    var d := x / n - y / n;
    assert x == y + d * n;
    assert d * (f * m) == (d * f) * m;
    ModShift(y, d * f, m);
  }

  lemma ModShift(y: int, e: int, m: int)
    requires m >= 1
    ensures (y + e * m) % m == y % m
    ensures (y + e * m) / m == y / m + e
  {
    assert y + e * m == (y / m + e) * m + y % m;
    DivModUnique(y + e * m, m, y / m + e, y % m);
  }

  lemma DivDiv(x: int, a: int, b: int)
    requires a >= 1 && b >= 1 && a * b >= 1
    ensures x / (a * b) == x / a / b
  {
    var y, s := x / a, x % a;
    var q, r := y / b, y % b;
    Distribute(a, b, q, r);
    MulLe(a, r, b - 1);
    assert a * (b - 1) == a * b - a;
    DivModUnique(x, a * b, q, a * r + s);
  }

  lemma Distribute(a: int, b: int, q: int, r: int)
    ensures a * (b * q + r) == q * (a * b) + a * r
  {
    assert a * (b * q + r) == a * (b * q) + a * r;
    assert a * (b * q) == (a * b) * q;
  }

  lemma MulLe(a: int, x: int, y: int)
    requires a >= 0 && x <= y
    ensures a * x <= a * y
  {
  }
}
