/**
 JavaScript's number operators, as far as the panel's key generator uses them.

 A `Float64Array` element holds a double. The model represents it by the integer it
 holds; `Float` marks every place where the program forms a double, and its
 precondition is the proof obligation that the integer is represented exactly.
 The bitwise operators first convert both operands with `ToInt32`; on integers in
 two's complement they are then plain recursive functions.
 */
module JsNumber {
  import opened Arith

  const MAX_EXACT: int := 0x20_0000_0000_0000 // 2^53

  predicate IsExact(x: int) {
    -MAX_EXACT <= x <= MAX_EXACT
  }

  /** The double that holds x. */
  function Float(x: int): (r: int)
    requires IsExact(x)
  {
    x
  }

  /** The value a `Uint8Array` element has after x is stored in it. */
  function ToUint8(x: int): byte {
    x % 256
  }

  /** What index i of a typed array yields as an operand, also beyond its end, where it is undefined. */
  function ReadOctet(s: seq<byte>, i: nat): byte {
    if i < |s| then s[i] else 0
  }

  /** The 32 octets that the program reads of a key of any length. */
  function Octets32(key: seq<byte>): (k: seq<byte>)
    ensures |k| == 32
    ensures |key| == 32 ==> k == key
  {
    seq(32, i requires 0 <= i => ReadOctet(key, i))
  }

  // ----- int32 conversion, and the operators on int32 bit by bit in two's complement -----

  predicate IsInt32(x: int) {
    -0x8000_0000 <= x < 0x8000_0000
  }

  function ToInt32(x: int): (r: int)
    ensures IsInt32(r)
    ensures IsInt32(x) ==> r == x
  {
    (x + 0x8000_0000) % 0x1_0000_0000 - 0x8000_0000
  }

  lemma ToInt32Mod(x: int)
    ensures ToInt32(x) % 0x1_0000_0000 == x % 0x1_0000_0000
  {
  }

  ghost function Size(x: int): nat {
    if x < 0 then -x else x
  }

  function And(x: int, y: int): int
    decreases Size(x)
  {
    if x == 0 then 0
    else if x == -1 then y
    else 2 * And(x / 2, y / 2) + (if x % 2 == 1 && y % 2 == 1 then 1 else 0)
  }

  function BitAnd(x: int, y: int): int {
    And(ToInt32(x), ToInt32(y))
  }

  function Or(x: int, y: int): int
    decreases Size(x)
  {
    if x == 0 then y
    else if x == -1 then -1
    else 2 * Or(x / 2, y / 2) + (if x % 2 == 1 || y % 2 == 1 then 1 else 0)
  }

  function BitOr(x: int, y: int): int {
    Or(ToInt32(x), ToInt32(y))
  }

  function Xor(x: int, y: int): int
    decreases Size(x)
  {
    if x == 0 then y
    else if x == -1 then -1 - y
    else 2 * Xor(x / 2, y / 2) + (if x % 2 != y % 2 then 1 else 0)
  }

  function BitXor(x: int, y: int): int {
    Xor(ToInt32(x), ToInt32(y))
  }

  function BitNot(x: int): int {
    -1 - ToInt32(x)
  }

  /** `x << k` */
  function Shl(x: int, k: nat): int
    requires k < 32
  {
    ToInt32(ToInt32(x) * Pow2(k))
  }

  /** `x >> k` */
  function Sar(x: int, k: nat): int
    requires k < 32
  {
    ToInt32(x) / Pow2(k)
  }

  /** `x >>> k` */
  function Shr(x: int, k: nat): int
    requires k < 32
  {
    (x % 0x1_0000_0000) / Pow2(k)
  }

  // ----- masks -----

  lemma {:induction false} AndZero(x: int)
    ensures And(x, 0) == 0
    decreases Size(x)
  {
    if x == 0 || x == -1 {
    } else {
      AndZero(x / 2);
    }
  }

  /** `x & (2^k - 1)` is the remainder modulo 2^k, also for negative x. */
  lemma {:induction false} AndMask(x: int, k: nat)
    ensures And(x, Pow2(k) - 1) == x % Pow2(k)
    decreases k
  {
    if k == 0 {
      AndZero(x);
    } else {
      var m := Pow2(k - 1);
      AndMask(x / 2, k - 1);
      ModDouble(x, m);
      assert (2 * m - 1) / 2 == m - 1;
      if x == 0 {
      } else if x == -1 {
        assert (-1) / 2 == -1;
      } else {
        assert And(x, 2 * m - 1) == 2 * And(x / 2, m - 1) + x % 2;
      }
    }
  }

  /** `x & (2^k - 1)` as the program runs it: no truncation is visible. */
  lemma BitAndMask(x: int, k: nat)
    requires k <= 16
    ensures BitAnd(x, Pow2(k) - 1) == x % Pow2(k)
  {
    Pow2Monotone(k, 16);
    Pow2Values();
    AndMask(ToInt32(x), k);
    ToInt32Mod(x);
    ModMod32(x, ToInt32(x), k);
  }

  /** Numbers that agree modulo 2^32 agree modulo 2^k. */
  lemma ModMod32(x: int, y: int, k: nat)
    requires k <= 32
    requires x % 0x1_0000_0000 == y % 0x1_0000_0000
    ensures x % Pow2(k) == y % Pow2(k)
  {
    Pow2Values();
    Pow2Add(32 - k, k);
    ModFactor(x, y, Pow2(32 - k), Pow2(k));
  }

  // ----- exclusive or -----

  lemma {:induction false} XorZero(x: int)
    ensures Xor(x, 0) == x
    decreases Size(x)
  {
    if x == 0 || x == -1 {
    } else {
      XorZero(x / 2);
    }
  }

  lemma {:induction false} XorMinusOne(x: int)
    ensures Xor(x, -1) == -1 - x
    decreases Size(x)
  {
    if x == 0 || x == -1 {
    } else {
      XorMinusOne(x / 2);
      assert (-1) / 2 == -1;
    }
  }

  lemma {:induction false} XorComm(x: int, y: int)
    ensures Xor(x, y) == Xor(y, x)
    decreases Size(x)
  {
    XorZero(y);
    XorMinusOne(y);
    XorZero(x);
    XorMinusOne(x);
    if x == 0 || x == -1 || y == 0 || y == -1 {
    } else {
      XorComm(x / 2, y / 2);
    }
  }

  /** `x ^ (x ^ y)` is y. */
  lemma {:induction false} XorCancel(x: int, y: int)
    ensures Xor(x, Xor(x, y)) == y
    decreases Size(x)
  {
    if x == 0 || x == -1 {
    } else {
      XorCancel(x / 2, y / 2);
      var h := Xor(x / 2, y / 2);
      assert Xor(x, y) / 2 == h;
    }
  }

  lemma {:induction false} XorRange(x: int, y: int, k: nat)
    requires -Pow2(k) <= x < Pow2(k) && -Pow2(k) <= y < Pow2(k)
    ensures -Pow2(k) <= Xor(x, y) < Pow2(k)
    decreases k
  {
    if k == 0 || x == 0 || x == -1 {
    } else {
      XorRange(x / 2, y / 2, k - 1);
    }
  }

  /** One step of the constant-time swap, for mask 0 (keep) and mask -1 (swap). */
  lemma MaskedXor(p: int, q: int, swap: bool)
    requires IsInt32(p) && IsInt32(q)
    ensures var t := BitAnd(if swap then -1 else 0, BitXor(p, q));
            BitXor(p, t) == (if swap then q else p) &&
            BitXor(q, t) == (if swap then p else q)
  {
    Pow2Values();
    XorRange(p, q, 31);
    XorZero(p);
    XorZero(q);
    XorCancel(p, q);
    XorCancel(q, p);
    XorComm(p, q);
  }

  // ----- or of disjoint bits -----

  lemma {:induction false} OrZero(x: int)
    ensures Or(x, 0) == x
    decreases Size(x)
  {
    if x == 0 || x == -1 {
    } else {
      OrZero(x / 2);
    }
  }

  /** Or of a multiple of 2^k and a number below 2^k is their sum. */
  lemma {:induction false} OrDisjoint(x: int, y: int, k: nat)
    requires 0 <= y < Pow2(k)
    ensures Or(x * Pow2(k), y) == x * Pow2(k) + y
    decreases k
  {
    if k == 0 {
      OrZero(x);
    } else {
      var z := x * Pow2(k - 1);
      assert x * Pow2(k) == 2 * z;
      OrDisjoint(x, y / 2, k - 1);
      assert (2 * z) / 2 == z && (2 * z) % 2 == 0;
    }
  }

  /** Or with 2^k of a number below 2^(k+1) sets its top bit. */
  lemma {:induction false} OrTopBit(y: int, k: nat)
    requires 0 <= y < 2 * Pow2(k)
    ensures Or(y, Pow2(k)) == y % Pow2(k) + Pow2(k)
    decreases k
  {
    if k == 0 || y == 0 {
    } else {
      var m := Pow2(k - 1);
      OrTopBit(y / 2, k - 1);
      ModDouble(y, m);
      assert (2 * m) / 2 == m && (2 * m) % 2 == 0;
    }
  }

  lemma AndEven(x: int, y: int)
    ensures And(x, 2 * y) == 2 * And(x / 2, y)
  {
    assert (2 * y) / 2 == y && (2 * y) % 2 == 0;
  }

  // ----- bit by bit -----

  /** Bit k of an integer in two's complement. */
  /** Doubles are exact up to 2^53; the operators' operands wrap to 32 bits in two's complement, stored octets to 8. */
  lemma Ranges(x: int) returns (q: int, r: int)
    ensures IsExact(x) <==> -9007199254740992 <= x <= 9007199254740992
    ensures -2147483648 <= ToInt32(x) <= 2147483647 && x == ToInt32(x) + 4294967296 * q
    ensures x == ToUint8(x) as int + 256 * r
  {
    q, r := (x + 0x8000_0000) / 0x1_0000_0000, x / 256;
  }

  predicate Bit(x: int, k: nat) {
    x / Pow2(k) % 2 == 1
  }

  lemma BitOfHalf(x: int, k: nat)
    requires k > 0
    ensures Bit(x, k) <==> Bit(x / 2, k - 1)
  {
    DivDiv(x, 2, Pow2(k - 1));
  }

  lemma Halves(x: int, y: int)
    ensures And(x, y) / 2 == And(x / 2, y / 2) && (And(x, y) % 2 == 1 <==> x % 2 == 1 && y % 2 == 1)
    ensures Or(x, y) / 2 == Or(x / 2, y / 2) && (Or(x, y) % 2 == 1 <==> x % 2 == 1 || y % 2 == 1)
    ensures Xor(x, y) / 2 == Xor(x / 2, y / 2) && (Xor(x, y) % 2 == 1 <==> x % 2 != y % 2)
  {
    assert (-1) / 2 == -1;
  }

  /** The operators work bit by bit. */
  lemma {:induction false} OperatorsBitByBit(x: int, y: int, k: nat)
    ensures Bit(And(x, y), k) <==> Bit(x, k) && Bit(y, k)
    ensures Bit(Or(x, y), k) <==> Bit(x, k) || Bit(y, k)
    ensures Bit(Xor(x, y), k) <==> Bit(x, k) != Bit(y, k)
    decreases k
  {
    Halves(x, y);
    if k == 0 {
    } else {
      OperatorsBitByBit(x / 2, y / 2, k - 1);
      BitOfHalf(x, k);
      BitOfHalf(y, k);
      BitOfHalf(And(x, y), k);
      BitOfHalf(Or(x, y), k);
      BitOfHalf(Xor(x, y), k);
    }
  }
}
