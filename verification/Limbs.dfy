/** Numbers in signed limbs of radix 2^16, least significant first. */
module Limbs {
  import opened Arith
  import opened Field25519

  function Value(s: seq<int>): int {
    if |s| == 0 then 0 else s[0] + 65536 * Value(s[1..])
  }

  /** 2^(16 n) */
  function Radix(n: nat): (r: int)
    ensures r >= 1
  {
    if n == 0 then 1 else 65536 * Radix(n - 1)
  }

  /** The field element that a limb vector stands for. */
  function Fe(s: seq<int>): int {
    Value(s) % P
  }

  // ----- sizes of limbs -----

  ghost predicate Small(s: seq<int>, bound: int) {
    forall k :: 0 <= k < |s| ==> -bound <= s[k] <= bound
  }

  ghost predicate Digits(s: seq<int>) {
    forall k :: 0 <= k < |s| ==> 0 <= s[k] < 65536
  }

  /** What two carries leave behind: every limb a digit, except limb 0, which may be off by 38. */
  ghost predicate Carried(s: seq<int>) {
    && |s| == 16
    && -38 <= s[0] <= 65573
    && forall k :: 1 <= k < 16 ==> 0 <= s[k] < 65536
  }

  // ----- Value -----

  lemma {:induction false} RadixAdd(j: nat, k: nat)
    ensures Radix(j + k) == Radix(j) * Radix(k)
    decreases j
  {
    if j == 0 {
    } else {
      RadixAdd(j - 1, k);
      assert Radix(j + k) == 65536 * Radix(j + k - 1);
    }
  }

  /** 2^256 */
  const R256: int := 2 * P + 38

  /** 2^240 */
  const R240: int := 0x1_0000_0000_0000_0000_0000_0000_0000_0000_0000_0000_0000_0000_0000_0000_0000

  lemma RadixValues()
    ensures Radix(15) == R240 && Radix(16) == R256 == 65536 * R240
  {
    assert Radix(4) == 0x1_0000_0000_0000_0000;
    RadixAdd(4, 4);
    RadixAdd(8, 8);
    assert Radix(16) == 65536 * Radix(15);
  }

  lemma {:induction false} ValueConcat(s: seq<int>, t: seq<int>)
    ensures Value(s + t) == Value(s) + Radix(|s|) * Value(t)
  {
    if |s| == 0 {
      assert s + t == t;
    } else {
      ValueConcat(s[1..], t);
      assert (s + t)[1..] == s[1..] + t;
      MulAssoc(65536, Radix(|s| - 1), Value(t));
    }
  }

  lemma MulAssoc(a: int, b: int, c: int)
    ensures a * (b * c) == (a * b) * c
  {
  }

  lemma ValueSnoc(s: seq<int>, k: nat)
    requires k < |s|
    ensures Value(s[..k + 1]) == Value(s[..k]) + Radix(k) * s[k]
  {
    assert s[..k + 1] == s[..k] + [s[k]];
    ValueConcat(s[..k], [s[k]]);
    assert Value([s[k]]) == s[k];
  }

  lemma ValueSplit(s: seq<int>, k: nat)
    requires k <= |s|
    ensures Value(s) == Value(s[..k]) + Radix(k) * Value(s[k..])
  {
    assert s == s[..k] + s[k..];
    ValueConcat(s[..k], s[k..]);
  }

  lemma {:induction false} ValueUpdate(s: seq<int>, k: nat, x: int)
    requires k < |s|
    ensures Value(s[k := x]) == Value(s) + Radix(k) * (x - s[k])
  {
    if k != 0 {
      ValueUpdate(s[1..], k - 1, x);
      assert s[k := x][1..] == s[1..][k - 1 := x];
      MulAssoc(65536, Radix(k - 1), x - s[k]);
    } else {
      assert s[0 := x][1..] == s[1..];
    }
  }

  lemma {:induction false} ValueOfDigits(s: seq<int>)
    requires Digits(s)
    ensures 0 <= Value(s) < Radix(|s|)
  {
    if |s| == 0 {
    } else {
      ValueOfDigits(s[1..]);
    }
  }

  lemma {:induction false} ValuePointwise(s: seq<int>, t: seq<int>, r: seq<int>, sign: int)
    requires |s| == |t| == |r|
    requires sign == 1 || sign == -1
    requires forall k :: 0 <= k < |s| ==> r[k] == s[k] + sign * t[k]
    ensures Value(r) == Value(s) + sign * Value(t)
  {
    if |s| == 0 {
    } else {
      ValuePointwise(s[1..], t[1..], r[1..], sign);
    }
  }
}
