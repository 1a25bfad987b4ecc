/** `Wireguard.pack`: sixteen limbs become the 32 octets of the canonical encoding. */
module WireguardPack {
  import opened Arith
  import opened Field25519
  import opened JsNumber
  import opened Limbs
  import opened WireguardField
  import opened X25519

  /** The limbs of p. */
  ghost function PrimeLimbs(): (s: seq<int>)
    ensures |s| == 16
    ensures s[0] == 0xffed && s[15] == 0x7fff && forall k :: 1 <= k < 15 ==> s[k] == 0xffff
  {
    [0xffed, 0xffff, 0xffff, 0xffff, 0xffff, 0xffff, 0xffff, 0xffff,
     0xffff, 0xffff, 0xffff, 0xffff, 0xffff, 0xffff, 0xffff, 0x7fff]
  }

  /** Bit 16 of a difference of digits is its borrow. */
  lemma Borrow(x: int)
    requires -65536 <= x < 65536
    ensures BitAnd(Sar(x, 16), 1) == (if x < 0 then 1 else 0)
    ensures BitAnd(x, 0xffff) == (if x < 0 then x + 65536 else x)
  {
    Pow2Values();
    BitAndMask(x, 16);
    assert Sar(x, 16) == (if x < 0 then -1 else 0);
    assert Pow2(1) == 2;
    BitAndMask(Sar(x, 16), 1);
  }

  /** Limb i of the difference, with the borrow that limb i-1 owes it. */
  ghost function BorrowInto(s: seq<int>, w: seq<int>, i: nat): seq<int>
    requires |s| == |w| == 16 && 1 <= i < 16
  {
    var borrow := if w[i - 1] < 0 then 1 else 0;
    w[i := s[i] - PrimeLimbs()[i] - borrow][i - 1 := w[i - 1] + 65536 * borrow]
  }

  /** One limb of the subtraction; the limb below, whose borrow it takes, becomes a digit. */
  method SubtractLimb(m: array<int>, t: array<int>, i: nat, limb: int)
    requires m != t && m.Length == t.Length == 16 && 1 <= i < 16
    requires 0 <= t[i] < 65536 && -65536 <= m[i - 1] < 65536
    requires limb == PrimeLimbs()[i]
    modifies m
    ensures m[..] == BorrowInto(t[..], old(m[..]), i)
  {
    Borrow(m[i - 1]);
    m[i] := Float(t[i] - limb - BitAnd(Sar(m[i - 1], 16), 1));
    m[i - 1] := BitAnd(m[i - 1], 0xffff);
  }

  /** Limbs 0 .. i-1 of m hold the difference so far; only limb i-1 may be negative. */
  ghost predicate DifferenceInv(s: seq<int>, m: seq<int>, i: nat) {
    && |s| == |m| == 16 && 1 <= i <= 16
    && Digits(s)
    && Digits(m[..i - 1]) && -65536 <= m[i - 1] < 65536
    && Value(m[..i]) == Value(s[..i]) - Value(PrimeLimbs()[..i])
  }

  /** One round of `pack`'s conditional subtraction: m gets t - p, and b its borrow. */
  method SubtractPrime(m: array<int>, t: array<int>) returns (b: int)
    requires m != t && m.Length == t.Length == 16
    requires Digits(t[..])
    modifies m
    ensures b == (if Value(t[..]) < P then 1 else 0)
    ensures Small(m[..], 0x1_0000)
    ensures b == 0 ==> Digits(m[..]) && Value(m[..]) == Value(t[..]) - P
  {
    ghost var s := t[..];
    m[0] := Float(t[0] - 0xffed);
    DifferenceStart(s, m[..]);
    for i := 1 to 15
      invariant t[..] == s
      invariant DifferenceInv(s, m[..], i)
    {
      ghost var w := m[..];
      SubtractLimb(m, t, i, 0xffff);
      DifferenceStep(s, w, m[..], i);
    }
    ghost var w := m[..];
    SubtractLimb(m, t, 15, 0x7fff);
    DifferenceStep(s, w, m[..], 15);
    Borrow(m[15]);
    b := BitAnd(Sar(m[15], 16), 1);
    DifferenceEnd(s, m[..]);
  }

  /** The middle loop of `pack`: p is subtracted twice, unless that borrows. */
  method Reduce(t: array<int>, m: array<int>)
    requires t.Length == m.Length == 16 && t != m
    requires Digits(t[..])
    modifies t, m
    ensures Digits(t[..]) && Value(t[..]) == old(Fe(t[..]))
  {
    ghost var x := Fe(t[..]);
    ValueOfDigits(t[..]);
    RadixValues();
    for j := 0 to 2
      invariant Digits(t[..]) && Fe(t[..]) == x
      invariant 0 <= Value(t[..]) < (if j == 0 then R256 else if j == 1 then P + 38 else P)
    {
      ghost var s := t[..];
      var b := SubtractPrime(m, t);
      assert t[..] == s;
      SubtractedFe(Value(s));
      CSwapLimbs(t, m, 1 - b);
    }
    InRange(Value(t[..]));
  }

  ghost predicate TwoOctets(limb: int, low: int, high: int) {
    low == limb % 256 && high == limb / 256
  }

  /** The last loop of `pack`. */
  method WriteOctets(o: array<byte>, t: array<int>)
    requires o.Length == 32 && t.Length == 16
    requires Digits(t[..])
    modifies o
    ensures o[..] == LittleEndian(old(Value(t[..])), OCTETS)
  {
    ghost var s := t[..];
    for i := 0 to 16
      invariant t[..] == s
      invariant forall k :: 0 <= k < i ==> TwoOctets(s[k], o[2 * k], o[2 * k + 1])
    {
      ghost var w := o[..];
      LowAndHighOctet(s[i]);
      assert t[i] == s[i];
      o[2 * i] := ToUint8(BitAnd(t[i], 0xff));
      o[2 * i + 1] := ToUint8(Sar(t[i], 8));
      assert forall k :: 0 <= k < 2 * i ==> o[k] == w[k];
    }
    OctetsOfDigits(s, o[..]);
  }

  /** The three carries at the head of `pack`. */
  method CarryThrice(t: array<int>)
    requires t.Length == 16 && Small(t[..], MAX_CARRY_LIMB)
    modifies t
    ensures Digits(t[..])
    ensures Fe(t[..]) == old(Fe(t[..]))
  {
    ghost var t0 := t[..];
    Carry(t);
    ghost var t1 := t[..];
    OnceCarriedIsSmall(t0, t1, Value(t0) / R256);
    Carry(t);
    ghost var t2 := t[..];
    OnceCarriedIsSmall(t1, t2, Value(t1) / R256);
    Carry(t);
    ThirdCarryIsExact(t0, t1, t2, t[..]);
  }

  method Pack(o: array<byte>, n: array<int>)
    requires o.Length == 32 && n.Length == 16
    requires Small(n[..], MAX_CARRY_LIMB)
    modifies o
    ensures o[..] == EncodeUCoordinate(old(Value(n[..])))
  {
    ghost var v := Value(n[..]);
    var m, t := new int[16](_ => 0), new int[16](_ => 0);
    for i := 0 to 16
      invariant t[..i] == n[..i]
    {
      t[i] := n[i];
    }
    assert t[..] == n[..];
    CarryThrice(t);
    Reduce(t, m);
    WriteOctets(o, t);
  }

  lemma InRange(x: int)
    requires 0 <= x < P
    ensures x % P == x
  {
  }

  lemma SubtractedFe(x: int)
    ensures (x - P) % P == x % P
  {
  }

  lemma LowAndHighOctet(x: int)
    requires 0 <= x < 65536
    ensures TwoOctets(x, ToUint8(BitAnd(x, 0xff)), ToUint8(Sar(x, 8)))
  {
    Pow2Values();
    BitAndMask(x, 8);
    OctetsOfLimb(x);
  }

  lemma OctetsOfLimb(x: int)
    requires 0 <= x < 65536
    ensures ToUint8(x % 256) == x % 256 && ToUint8(x / 256) == x / 256
  {
  }

  /** Two carries bring the value into 0 .. 2^256 - 1, so that the third has nothing to wrap. */
  lemma ThirdCarryIsExact(t0: seq<int>, t1: seq<int>, t2: seq<int>, t3: seq<int>)
    requires CarryResult(t0, t1) && CarryResult(t1, t2) && CarryResult(t2, t3)
    ensures Digits(t3) && Fe(t3) == Fe(t0)
  {
    var q0, q1, q2 := Value(t0) / R256, Value(t1) / R256, Value(t2) / R256;
    RadixValues();
    CarriedRange(t0, t1, q0);
    QuotientRange(Value(t1), R256);
    SecondIsInRange(Value(t1), Value(t2), q0, q1);
    QuotientRange(Value(t2), R256);
    CarryKeepsFe(t0, t1, q0);
    CarryKeepsFe(t1, t2, q1);
    CarryKeepsFe(t2, t3, q2);
  }

  lemma SecondIsInRange(v1: int, v2: int, q0: int, q1: int)
    requires -MAX_QUOTIENT <= q0 <= MAX_QUOTIENT
    requires 38 * q0 <= v1 < 38 * q0 + 2 * P + 38
    requires q1 == (if v1 < 0 then -1 else if v1 < 2 * P + 38 then 0 else 1)
    requires v2 == v1 + q1 * (-2 * P)
    ensures 0 <= v2 < 2 * P + 38
  {
  }

  lemma DifferenceStart(s: seq<int>, m: seq<int>)
    requires |s| == |m| == 16 && Digits(s)
    requires m[0] == s[0] - 0xffed
    ensures DifferenceInv(s, m, 1)
  {
    assert m[..1] == [m[0]] && s[..1] == [s[0]] && PrimeLimbs()[..1] == [0xffed];
  }

  lemma DifferenceStep(s: seq<int>, w: seq<int>, m: seq<int>, i: nat)
    requires i < 16 && DifferenceInv(s, w, i)
    requires m == BorrowInto(s, w, i)
    ensures DifferenceInv(s, m, i + 1)
  {
    var borrow := if w[i - 1] < 0 then 1 else 0;
    assert w[..i][..i - 1] == w[..i - 1];
    assert m[..i + 1] == w[..i][i - 1 := w[i - 1] + 65536 * borrow] + [s[i] - PrimeLimbs()[i] - borrow];
    BorrowStep(w[..i], m[..i + 1], s, PrimeLimbs(), i);
    assert m[..i + 1][..i] == m[..i];
  }

  lemma DifferenceEnd(s: seq<int>, m: seq<int>)
    requires DifferenceInv(s, m, 16)
    ensures m[15] < 0 <==> Value(s) < P
    ensures Small(m, 0x1_0000)
    ensures m[15] >= 0 ==> Digits(m) && Value(m) == Value(s) - P
  {
    FullSlice(m);
    FullSlice(s);
    FullSlice(PrimeLimbs());
    ValueOfPrimeLimbs();
    SignOfTopLimb(m);
    BorrowedIsSmall(m);
  }

  lemma FullSlice(s: seq<int>)
    requires |s| == 16
    ensures s[..16] == s
  {
  }

  lemma BorrowedIsSmall(m: seq<int>)
    requires |m| == 16 && Digits(m[..15]) && -65536 <= m[15] < 65536
    ensures Small(m, 0x1_0000)
    ensures m[15] >= 0 ==> Digits(m)
  {
    assert forall k :: 0 <= k < 15 ==> m[k] == m[..15][k];
  }

  /** Passing a borrow from limb i - 1 to limb i keeps the difference of the values. */
  lemma BorrowStep(w: seq<int>, w': seq<int>, s: seq<int>, p: seq<int>, i: nat)
    requires 1 <= i < 16 && |w| == i && |w'| == i + 1 && |s| == |p| == 16
    requires Digits(w[..i - 1]) && -65536 <= w[i - 1] < 65536
    requires Value(w) == Value(s[..i]) - Value(p[..i])
    requires var borrow := if w[i - 1] < 0 then 1 else 0;
             w' == w[i - 1 := w[i - 1] + 65536 * borrow] + [s[i] - p[i] - borrow]
    ensures Digits(w'[..i])
    ensures Value(w') == Value(s[..i + 1]) - Value(p[..i + 1])
  {
    var borrow := if w[i - 1] < 0 then 1 else 0;
    var h := w[i - 1 := w[i - 1] + 65536 * borrow];
    assert w'[..i] == h;
    BorrowedDigits(w, h);
    BorrowValue(w, i - 1, borrow, s[i] - p[i] - borrow);
    ValueSnoc(s, i);
    ValueSnoc(p, i);
    BorrowCancels(Radix(i - 1), s[i], p[i], borrow);
  }

  /** The value once limb k has lent to a new top limb. */
  lemma BorrowValue(w: seq<int>, k: nat, borrow: int, top: int)
    requires |w| == k + 1
    ensures Value(w[k := w[k] + 65536 * borrow] + [top]) == Value(w) + Radix(k) * (65536 * borrow) + Radix(k + 1) * top
  {
    var h := w[k := w[k] + 65536 * borrow];
    ValueUpdate(w, k, w[k] + 65536 * borrow);
    ValueConcat(h, [top]);
    assert Value([top]) == top;
  }

  lemma BorrowCancels(r: int, x: int, y: int, borrow: int)
    ensures r * (65536 * borrow) + (65536 * r) * (x - y - borrow) == (65536 * r) * x - (65536 * r) * y
  {
    var f := 65536 * r;
    assert r * (65536 * borrow) == f * borrow;
    Spread3(f, x, y, borrow);
  }

  lemma BorrowedDigits(w: seq<int>, h: seq<int>)
    requires |w| >= 1 && Digits(w[..|w| - 1])
    requires |h| == |w| && 0 <= h[|w| - 1] < 65536 && h[..|w| - 1] == w[..|w| - 1]
    ensures Digits(h)
  {
    assert forall k :: 0 <= k < |w| - 1 ==> h[k] == h[..|w| - 1][k];
  }

  lemma Spread3(r: int, x: int, y: int, z: int)
    ensures r * (x - y - z) == r * x - r * y - r * z
  {
  }

  lemma ValueOfPrimeLimbs()
    ensures Value(PrimeLimbs()) == P
  {
    var p := PrimeLimbs();
    var ones := seq(16, _ => 0xffff);
    RadixValues();
    AllOnes(ones);
    ValueUpdate(ones, 0, 0xffed);
    ValueUpdate(ones[0 := 0xffed], 15, 0x7fff);
    assert ones[0 := 0xffed][15 := 0x7fff] == p;
  }

  lemma {:induction false} AllOnes(s: seq<int>)
    requires forall k :: 0 <= k < |s| ==> s[k] == 0xffff
    ensures Value(s) == Radix(|s|) - 1
  {
    if |s| == 0 {
    } else {
      AllOnes(s[1..]);
    }
  }

  lemma SignOfTopLimb(s: seq<int>)
    requires |s| == 16 && Digits(s[..15])
    ensures Value(s) < 0 <==> s[15] < 0
  {
    ValueSnoc(s, 15);
    ValueOfDigits(s[..15]);
    FullSlice(s);
    RadixValues();
    TopDecides(Value(s[..15]), R240, s[15]);
  }

  lemma TopDecides(low: int, r: int, top: int)
    requires 0 <= low < r
    ensures low + r * top < 0 <==> top < 0
  {
    if top < 0 {
      MulLe(r, top, -1);
    } else {
      MulLe(r, 0, top);
    }
  }

  /** Two octets for every limb: together the little-endian octets of the value. */
  lemma {:induction false} OctetsOfDigits(s: seq<int>, o: seq<byte>)
    requires Digits(s) && |o| == 2 * |s|
    requires forall k :: 0 <= k < |s| ==> TwoOctets(s[k], o[2 * k], o[2 * k + 1])
    ensures o == LittleEndian(Value(s), 2 * |s|)
  {
    if |s| == 0 {
    } else {
      var rest := s[1..];
      forall k | 0 <= k < |rest|
        ensures TwoOctets(rest[k], o[2..][2 * k], o[2..][2 * k + 1])
      {
        assert TwoOctets(s[k + 1], o[2 * (k + 1)], o[2 * (k + 1) + 1]);
      }
      OctetsOfDigits(rest, o[2..]);
      var v := Value(s);
      assert TwoOctets(s[0], o[2 * 0], o[2 * 0 + 1]);
      LowOctets(s[0], Value(rest));
      assert LittleEndian(v, 2 * |s|) == [v % 256] + LittleEndian(v / 256, 2 * |s| - 1);
      assert LittleEndian(v / 256, 2 * |s| - 1) == [v / 256 % 256] + LittleEndian(v / 256 / 256, 2 * |rest|);
      assert o == [o[0]] + ([o[1]] + o[2..]);
    }
  }

  lemma LowOctets(low: int, rest: int)
    requires 0 <= low < 65536
    ensures var v := low + 65536 * rest;
            v % 256 == low % 256 && v / 256 % 256 == low / 256 && v / 256 / 256 == rest
  {
    var v := low + 65536 * rest;
    assert v / 256 == low / 256 + 256 * rest;
  }
}
