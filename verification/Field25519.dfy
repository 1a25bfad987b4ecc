/** Arithmetic in the integers modulo p = 2^255 - 19, on the representatives 0 .. p-1. */
module Field25519 {
  import opened Arith

  const P: int := 0x7fffffff_ffffffff_ffffffff_ffffffff_ffffffff_ffffffff_ffffffff_ffffffed

  function FAdd(x: int, y: int): int {
    (x + y) % P
  }

  function FSub(x: int, y: int): int {
    (x - y) % P
  }

  function FMul(x: int, y: int): int {
    (x * y) % P
  }

  /** x^n modulo p, by n multiplications. */
  function FPow(x: int, n: nat): int {
    if n == 0 then 1 else FMul(x, FPow(x, n - 1))
  }

  lemma ModMul(x: int, y: int, m: int)
    requires m >= 1
    ensures ((x % m) * y) % m == (x * y) % m
    ensures (x * (y % m)) % m == (x * y) % m
    ensures ((x % m) * (y % m)) % m == (x * y) % m
  {
    ModMulLeft(x, y, m);
    ModMulLeft(y, x, m);
    ModMulLeft(y, x % m, m);
    MulComm(x, y);
    MulComm(x, y % m);
    MulComm(x % m, y);
    MulComm(x % m, y % m);
  }

  lemma MulComm(x: int, y: int)
    ensures x * y == y * x
  {
  }

  lemma ModMulLeft(x: int, y: int, m: int)
    requires m >= 1
    ensures ((x % m) * y) % m == (x * y) % m
  {
    var q, r := x / m, x % m;
    assert x * y == r * y + (q * y) * m by {
      assert x == q * m + r;
      assert (q * m + r) * y == (q * m) * y + r * y;
      assert (q * m) * y == (q * y) * m;
    }
    ModShift(r * y, q * y, m);
  }

  lemma ModAddSubMod(x: int, y: int)
    ensures FAdd(x % P, y % P) == FAdd(x, y)
    ensures FSub(x % P, y % P) == FSub(x, y)
  {
    ModAddSub(x, y, P);
  }

  lemma ModAddSub(x: int, y: int, m: int)
    requires m >= 1
    ensures (x % m + y % m) % m == (x + y) % m
    ensures (x % m - y % m) % m == (x - y) % m
  {
    ModAdd(x, x / m, x % m, y, y / m, y % m, m);
    ModAdd(x, x / m, x % m, -y, -(y / m), -(y % m), m);
  }

  lemma ModAdd(x: int, qx: int, rx: int, y: int, qy: int, ry: int, m: int)
    requires m >= 1
    requires x == m * qx + rx && y == m * qy + ry
    ensures (rx + ry) % m == (x + y) % m
  {
    TwoShifts(rx + ry, qx, qy, m);
  }

  lemma TwoShifts(r: int, a: int, b: int, m: int)
    requires m >= 1
    ensures (r + a * m + b * m) % m == r % m
  {
    assert a * m + b * m == (a + b) * m;
    ModShift(r, a + b, m);
  }

  lemma FMulAssoc(x: int, y: int, z: int)
    ensures FMul(FMul(x, y), z) == FMul(x, FMul(y, z))
  {
    ModMul(x * y, z, P);
    ModMul(x, y * z, P);
    assert (x * y) * z == x * (y * z);
  }

  lemma FMulComm(x: int, y: int)
    ensures FMul(x, y) == FMul(y, x)
  {
  }

  lemma FAddComm(x: int, y: int)
    ensures FAdd(x, y) == FAdd(y, x)
  {
  }

  lemma {:induction false} FPowRange(x: int, n: nat)
    ensures 0 <= FPow(x, n) < P
  {
  }

  lemma {:induction false} FPowAdd(x: int, j: nat, k: nat)
    ensures FPow(x, j + k) == FMul(FPow(x, j), FPow(x, k))
    decreases j
  {
    if j == 0 {
      FPowRange(x, k);
    } else {
      FPowAdd(x, j - 1, k);
      FMulAssoc(x, FPow(x, j - 1), FPow(x, k));
      assert j + k - 1 == j - 1 + k;
    }
  }

  /** Squaring the square of the difference does not see its sign. */
  lemma FSquareOfDifference(x: int, y: int)
    ensures FMul(FSub(x, y), FSub(x, y)) == FMul(FSub(y, x), FSub(y, x))
  {
    var d := x - y;
    ModMul(d, d, P);
    ModMul(-d, -d, P);
    assert d * d == (-d) * (-d);
  }
}
