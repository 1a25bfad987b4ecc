/**
 The field arithmetic of the class `Wireguard` in the panel's JavaScript: numbers modulo 2^255 - 19
 in arrays of sixteen limbs, changed in place, the output often being one of the inputs.
 */
module WireguardField {
  import opened Arith
  import opened Field25519
  import opened JsNumber
  import opened Limbs

  const MAX_CARRY_LIMB: int := 0x10_0000_0000_0000 // 2^52: what one carry accepts
  const MAX_QUOTIENT: int := 0x20_0000_0000 // 2^37
  const MAX_TERM: int := 0x3fff_ffff // below 2^30: what an addition or a swap accepts
  const MAX_FACTOR: int := 0x4_0000 // 2^18: what a multiplication accepts

  // ----- carry -----

  /** q comes out of the top limb, and back into limb 0 as 38 q, for 2^256 = 38 modulo p. */
  ghost predicate CarryBy(before: seq<int>, after: seq<int>, q: int) {
    && |after| == 16
    && -MAX_QUOTIENT <= q <= MAX_QUOTIENT
    && Value(after) == Value(before) + q * (-2 * P)
    && 0 <= after[0] - 38 * q < 65536
    && forall k :: 1 <= k < 16 ==> 0 <= after[k] < 65536
  }

  /** One carry pass: what comes out of the top limb is the quotient by 2^256. */
  ghost predicate CarryResult(before: seq<int>, after: seq<int>) {
    CarryBy(before, after, Value(before) / R256)
  }

  ghost function CarryLimb(s: seq<int>, i: nat): seq<int>
    requires |s| == 16 && i < 16
  {
    var j := (i + 1) % 16;
    s[j := s[j] + (if i < 15 then 1 else 38) * (s[i] / 65536)][i := BitAnd(s[i], 0xffff)]
  }

  ghost predicate CarryInv(was: seq<int>, s: seq<int>, i: nat) {
    && |was| == |s| == 16
    && Small(was, MAX_CARRY_LIMB)
    && (i < 16 ==>
          && Digits(s[..i])
          && Value(s) == Value(was)
          && -MAX_CARRY_LIMB - MAX_QUOTIENT <= s[i] <= MAX_CARRY_LIMB + MAX_QUOTIENT
          && forall k :: i < k < 16 ==> s[k] == was[k])
    && (i >= 16 ==> CarryResult(was, s))
  }

  method Carry(o: array<int>)
    requires o.Length == 16 && Small(o[..], MAX_CARRY_LIMB)
    modifies o
    ensures CarryResult(old(o[..]), o[..])
  {
    ghost var was := o[..];
    for i := 0 to 16
      invariant CarryInv(was, o[..], i)
    {
      ghost var s := o[..];
      CarryInvStep(was, s, i);
      assert s[i] == o[i] && s[(i + 1) % 16] == o[(i + 1) % 16];
      o[(i + 1) % 16] := Float(o[(i + 1) % 16] + Float((if i < 15 then 1 else 38) * (o[i] / 65536)));
      o[i] := BitAnd(o[i], 0xffff);
      assert o[..] == CarryLimb(s, i);
    }
  }

  lemma CarryInvStep(was: seq<int>, s: seq<int>, i: nat)
    requires i < 16 && CarryInv(was, s, i)
    ensures IsExact((if i < 15 then 1 else 38) * (s[i] / 65536))
    ensures IsExact(s[(i + 1) % 16] + (if i < 15 then 1 else 38) * (s[i] / 65536))
    ensures CarryInv(was, CarryLimb(s, i), i + 1)
  {
    LowLimb(s[i]);
    QuotientBound(s[i]);
    if i < 15 {
      CarryStep(s, i);
      assert s[i + 1] == was[i + 1];
      CarryDigits(s, CarryLimb(s, i), i);
    } else {
      CarryWrap(s);
      assert s[..15][0] == s[0];
      TopCarried(s, CarryLimb(s, 15));
    }
  }

  lemma LowLimb(x: int)
    ensures BitAnd(x, 0xffff) == x % 65536
  {
    Pow2Values();
    BitAndMask(x, 16);
  }

  lemma QuotientBound(x: int)
    requires -MAX_CARRY_LIMB - MAX_QUOTIENT <= x <= MAX_CARRY_LIMB + MAX_QUOTIENT
    ensures -MAX_QUOTIENT <= x / 65536 <= MAX_QUOTIENT
  {
  }

  lemma CarryDigits(s: seq<int>, t: seq<int>, i: nat)
    requires i < 15 && |s| == |t| == 16 && Digits(s[..i])
    requires t[..i] == s[..i] && 0 <= t[i] < 65536
    ensures Digits(t[..i + 1])
  {
    assert forall k :: 0 <= k < i ==> t[..i + 1][k] == t[..i][k];
  }

  lemma TopCarried(s: seq<int>, t: seq<int>)
    requires |s| == |t| == 16 && Digits(s[..15])
    requires t[1..15] == s[1..15] && 0 <= t[15] < 65536
    ensures forall k :: 1 <= k < 16 ==> 0 <= t[k] < 65536
  {
    assert forall k :: 1 <= k < 15 ==> t[k] == t[1..15][k - 1] == s[..15][k];
  }

  lemma CarryStep(s: seq<int>, i: nat)
    requires i + 1 < |s|
    ensures Value(s[i + 1 := s[i + 1] + s[i] / 65536][i := s[i] % 65536]) == Value(s)
  {
    var c := s[i] / 65536;
    var t := s[i + 1 := s[i + 1] + c];
    ValueUpdate(s, i + 1, s[i + 1] + c);
    ValueUpdate(t, i, s[i] % 65536);
    assert s[i] % 65536 - t[i] == -65536 * c;
    MulAssoc(Radix(i), -65536, c);
  }

  lemma CarryWrap(s: seq<int>)
    requires |s| == 16 && Digits(s[..15])
    ensures var c := s[15] / 65536;
            var t := s[0 := s[0] + 38 * c][15 := s[15] % 65536];
            Value(s) / R256 == c && Value(t) == Value(s) + c * (-2 * P)
  {
    var c := s[15] / 65536;
    var d := s[15 := s[15] % 65536];
    ValueUpdate(s, 15, s[15] % 65536);
    ValueUpdate(d, 0, s[0] + 38 * c);
    assert s[0 := s[0] + 38 * c][15 := s[15] % 65536] == d[0 := s[0] + 38 * c];
    RadixValues();
    TopIsDigit(s, d);
    ValueOfDigits(d);
    QuotientIsTop(Value(s), Value(d), s[15]);
    assert Radix(0) == 1;
  }

  lemma TopIsDigit(s: seq<int>, d: seq<int>)
    requires |s| == 16 && Digits(s[..15]) && d == s[15 := s[15] % 65536]
    ensures Digits(d)
  {
    assert forall k :: 0 <= k < 15 ==> d[k] == s[..15][k];
  }

  lemma QuotientIsTop(v: int, d: int, top: int)
    requires d == v + R240 * (top % 65536 - top) && 0 <= d < R256
    ensures v / R256 == top / 65536
    ensures d + 38 * (top / 65536) == v + (top / 65536) * (-2 * P)
  {
    var c := top / 65536;
    assert R256 == 65536 * R240 by {
      RadixValues();
    }
    assert top % 65536 - top == -65536 * c;
    DivModUnique(v, R256, c, d);
  }

  lemma OnceCarriedIsSmall(s: seq<int>, t: seq<int>, q: int)
    requires CarryBy(s, t, q)
    ensures Small(t, MAX_CARRY_LIMB)
  {
  }

  /** After a carry by q the value lies between 38 q and 38 q + 2^256 - 1. */
  lemma CarriedRange(s: seq<int>, t: seq<int>, q: int)
    requires CarryBy(s, t, q)
    ensures 38 * q <= Value(t) < 38 * q + 2 * P + 38
  {
    RadixValues();
    var d := t[0 := t[0] - 38 * q];
    ValueUpdate(t, 0, t[0] - 38 * q);
    ValueOfDigits(d);
  }

  /** The second of two carries restores the carried form. */
  lemma CarryTwice(s: seq<int>, t: seq<int>, r: seq<int>)
    requires CarryResult(s, t) && CarryResult(t, r)
    ensures Carried(r) && Fe(r) == Fe(s)
  {
    SecondQuotient(s, t);
    CarryKeepsFe(s, t, Value(s) / R256);
    CarryKeepsFe(t, r, Value(t) / R256);
  }

  lemma SecondQuotient(s: seq<int>, t: seq<int>)
    requires CarryResult(s, t)
    ensures -1 <= Value(t) / R256 <= 1
  {
    RadixValues();
    CarriedRange(s, t, Value(s) / R256);
    QuotientRange(Value(t), R256);
  }

  lemma QuotientRange(v: int, m: int)
    requires m >= 1 && -m <= v < 2 * m
    ensures v / m == (if v < 0 then -1 else if v < m then 0 else 1)
  {
    if v < 0 {
      DivModUnique(v, m, -1, v + m);
    } else if v < m {
      DivModUnique(v, m, 0, v);
    } else {
      DivModUnique(v, m, 1, v - m);
    }
  }

  lemma CarryKeepsFe(s: seq<int>, t: seq<int>, q: int)
    requires CarryBy(s, t, q)
    ensures Fe(t) == Fe(s)
  {
    assert q * (-2 * P) == (-2 * q) * P;
    ModShift(Value(s), -2 * q, P);
  }

  lemma CarriedIsSmall(s: seq<int>)
    requires Carried(s)
    ensures Small(s, 65573)
  {
  }

  // ----- constant-time swap, addition, subtraction -----

  method CSwapLimbs(p: array<int>, q: array<int>, b: int)
    requires p.Length == q.Length == 16
    requires b == 0 || b == 1
    requires Small(p[..], MAX_TERM) && Small(q[..], MAX_TERM)
    modifies p, q
    ensures p[..] == old(if b == 1 then q[..] else p[..])
    ensures q[..] == old(if b == 1 then p[..] else q[..])
  {
    var c := BitNot(b - 1);
    for i := 0 to 16
      invariant forall k :: 0 <= k < i ==> p[k] == old(if b == 1 then q[k] else p[k])
      invariant forall k :: 0 <= k < i ==> q[k] == old(if b == 1 then p[k] else q[k])
      invariant forall k :: i <= k < 16 ==> p[k] == old(p[k]) && q[k] == old(q[k])
    {
      assert old(p[..])[i] == p[i] && old(q[..])[i] == q[i];
      MaskedXor(p[i], q[i], b == 1);
      MaskedXor(p[i], p[i], false);
      var t := BitAnd(c, BitXor(p[i], q[i]));
      p[i] := BitXor(p[i], t);
      q[i] := BitXor(q[i], t);
    }
  }

  method Add(o: array<int>, a: array<int>, b: array<int>)
    requires o.Length == a.Length == b.Length == 16
    requires Small(a[..], MAX_TERM) && Small(b[..], MAX_TERM)
    modifies o
    ensures forall k :: 0 <= k < 16 ==> o[k] == old(a[k]) + old(b[k])
    ensures old(Carried(a[..]) && Carried(b[..])) ==> Small(o[..], MAX_FACTOR)
    ensures Value(o[..]) == old(Value(a[..])) + old(Value(b[..]))
    ensures Fe(o[..]) == FAdd(old(Fe(a[..])), old(Fe(b[..])))
  {
    ghost var u, v := a[..], b[..];
    for i := 0 to 16
      invariant forall k :: 0 <= k < i ==> o[k] == u[k] + v[k]
      invariant forall k :: i <= k < 16 ==> a[k] == u[k] && b[k] == v[k]
    {
      assert -MAX_TERM <= u[i] <= MAX_TERM && -MAX_TERM <= v[i] <= MAX_TERM;
      o[i] := ToInt32(Float(a[i] + b[i]));
    }
    ValuePointwise(u, v, o[..], 1);
    ModAddSubMod(Value(u), Value(v));
  }

  method Subtract(o: array<int>, a: array<int>, b: array<int>)
    requires o.Length == a.Length == b.Length == 16
    requires Small(a[..], MAX_TERM) && Small(b[..], MAX_TERM)
    modifies o
    ensures forall k :: 0 <= k < 16 ==> o[k] == old(a[k]) - old(b[k])
    ensures old(Carried(a[..]) && Carried(b[..])) ==> Small(o[..], MAX_FACTOR)
    ensures Value(o[..]) == old(Value(a[..])) - old(Value(b[..]))
    ensures Fe(o[..]) == FSub(old(Fe(a[..])), old(Fe(b[..])))
  {
    ghost var u, v := a[..], b[..];
    for i := 0 to 16
      invariant forall k :: 0 <= k < i ==> o[k] == u[k] - v[k]
      invariant forall k :: i <= k < 16 ==> a[k] == u[k] && b[k] == v[k]
    {
      assert -MAX_TERM <= u[i] <= MAX_TERM && -MAX_TERM <= v[i] <= MAX_TERM;
      o[i] := ToInt32(Float(a[i] - b[i]));
    }
    ValuePointwise(u, v, o[..], -1);
    ModAddSubMod(Value(u), Value(v));
  }

  // ----- multiplication -----

  const MAX_PRODUCT: int := 0x10_0000_0000 // 2^36

  /** x is a sum of at most n products of factors. */
  ghost predicate SumOfProducts(x: int, n: int) {
    -n * MAX_PRODUCT <= x <= n * MAX_PRODUCT
  }

  /** The first loop of `multmod`: all 256 products, in 31 limbs. */
  method Schoolbook(a: array<int>, b: array<int>) returns (t: array<int>)
    requires a.Length == b.Length == 16
    requires Small(a[..], MAX_FACTOR) && Small(b[..], MAX_FACTOR)
    ensures fresh(t) && t.Length == 31
    ensures Value(t[..]) == Value(a[..]) * Value(b[..])
    ensures forall k :: 0 <= k < 31 ==> SumOfProducts(t[k], 16)
  {
    ghost var u, v := a[..], b[..];
    t := new int[31](_ => 0);
    ValueOfZeros(t[..]);
    for i := 0 to 16
      invariant Value(t[..]) == Value(u[..i]) * Value(v)
      invariant forall k :: 0 <= k < 31 ==> SumOfProducts(t[k], i)
    {
      for j := 0 to 16
        invariant Value(t[..]) == Value(u[..i]) * Value(v) + Radix(i) * (u[i] * Value(v[..j]))
        invariant forall k :: 0 <= k < 31 ==> SumOfProducts(t[k], if k < i + j then i + 1 else i)
      {
        ghost var s := t[..];
        ProductBound(u[i], v[j]);
        assert SumOfProducts(t[i + j], i);
        t[i + j] := Float(t[i + j] + Float(a[i] * b[j]));
        assert t[..] == s[i + j := s[i + j] + u[i] * v[j]];
        AddProduct(s, u, v, i, j);
      }
      AddRow(u, v, i);
    }
    assert u[..16] == u;
  }

  /** The second loop of `multmod`: the upper fifteen limbs come back times 38. */
  method Fold(t: array<int>)
    requires t.Length == 31
    requires forall k :: 0 <= k < 31 ==> SumOfProducts(t[k], 16)
    modifies t
    ensures Small(t[..16], 39 * 16 * MAX_PRODUCT)
    ensures Fe(t[..16]) == old(Fe(t[..]))
  {
    ghost var product := t[..];
    for i := 0 to 15
      invariant forall k :: i <= k < 16 ==> t[k] == product[k]
      invariant forall k :: 0 <= k < 16 ==> SumOfProducts(t[k], 39 * 16)
      invariant forall k :: 16 <= k < 31 ==> t[k] == product[k]
      invariant Value(t[..16]) == Value(product[..16]) + 38 * Value(product[16..16 + i])
    {
      ghost var s := t[..16];
      assert SumOfProducts(product[i + 16], 16) && SumOfProducts(product[i], 16);
      t[i] := Float(t[i] + Float(38 * t[i + 16]));
      FoldLimb(s, product, i);
      assert t[..16] == s[i := s[i] + 38 * product[i + 16]];
    }
    assert product[16..31] == product[16..];
    Folded(product, t[..16]);
    assert forall k :: 0 <= k < 16 ==> SumOfProducts(t[k], 39 * 16);
  }

  method MultMod(o: array<int>, a: array<int>, b: array<int>)
    requires o.Length == a.Length == b.Length == 16
    requires Small(a[..], MAX_FACTOR) && Small(b[..], MAX_FACTOR)
    modifies o
    ensures Carried(o[..])
    ensures Fe(o[..]) == FMul(old(Fe(a[..])), old(Fe(b[..])))
  {
    var t := Schoolbook(a, b);
    ModMul(Value(a[..]), Value(b[..]), P);
    Fold(t);
    ghost var folded := t[..16];
    for i := 0 to 16
      invariant t[..16] == folded && o[..i] == folded[..i]
    {
      assert folded[i] == t[i];
      o[i] := t[i];
    }
    assert o[..] == folded;
    Carry(o);
    ghost var once := o[..];
    OnceCarriedIsSmall(folded, once, Value(folded) / R256);
    Carry(o);
    CarryTwice(folded, once, o[..]);
  }

  lemma {:induction false} ValueOfZeros(s: seq<int>)
    requires forall k :: 0 <= k < |s| ==> s[k] == 0
    ensures Value(s) == 0
  {
    if |s| == 0 {
    } else {
      ValueOfZeros(s[1..]);
    }
  }

  lemma ProductBound(x: int, y: int)
    requires -MAX_FACTOR <= x <= MAX_FACTOR && -MAX_FACTOR <= y <= MAX_FACTOR
    ensures SumOfProducts(x * y, 1)
  {
    var ax, ay := if x < 0 then -x else x, if y < 0 then -y else y;
    MulLe(ax, ay, MAX_FACTOR);
    AbsMul(x, y, ax, ay);
  }

  lemma AbsMul(x: int, y: int, ax: int, ay: int)
    requires (ax == x || ax == -x) && (ay == y || ay == -y)
    ensures x * y == ax * ay || x * y == -(ax * ay)
  {
  }

  lemma AddProduct(s: seq<int>, u: seq<int>, v: seq<int>, i: nat, j: nat)
    requires |s| == 31 && |u| == |v| == 16 && i < 16 && j < 16
    requires Value(s) == Value(u[..i]) * Value(v) + Radix(i) * (u[i] * Value(v[..j]))
    ensures Value(s[i + j := s[i + j] + u[i] * v[j]])
         == Value(u[..i]) * Value(v) + Radix(i) * (u[i] * Value(v[..j + 1]))
  {
    var p := u[i] * v[j];
    ValueRaise(s, i + j, p);
    RadixAdd(i, j);
    ValueSnoc(v, j);
    Spread(Radix(i), u[i], Value(v[..j]), Radix(j), v[j]);
  }

  lemma ValueRaise(s: seq<int>, k: nat, d: int)
    requires k < |s|
    ensures Value(s[k := s[k] + d]) == Value(s) + Radix(k) * d
  {
    ValueUpdate(s, k, s[k] + d);
  }

  lemma Spread(r: int, x: int, h: int, r': int, y: int)
    ensures r * (x * (h + r' * y)) == r * (x * h) + (r * r') * (x * y)
  {
    assert x * (h + r' * y) == x * h + x * (r' * y);
    assert r * (x * h + x * (r' * y)) == r * (x * h) + r * (x * (r' * y));
    assert x * (r' * y) == r' * (x * y);
    MulAssoc(r, r', x * y);
  }

  lemma AddRow(u: seq<int>, v: seq<int>, i: nat)
    requires |u| == |v| == 16 && i < 16
    ensures v[..16] == v && v[..0] == []
    ensures Value(u[..i]) * Value(v) + Radix(i) * (u[i] * Value(v)) == Value(u[..i + 1]) * Value(v)
  {
    ValueSnoc(u, i);
    MulAssoc(Radix(i), u[i], Value(v));
  }

  lemma FoldLimb(s: seq<int>, product: seq<int>, i: nat)
    requires |s| == 16 && |product| == 31 && i < 15
    ensures Value(s[i := s[i] + 38 * product[i + 16]])
         == Value(s) - 38 * Value(product[16..16 + i]) + 38 * Value(product[16..16 + i + 1])
  {
    ValueUpdate(s, i, s[i] + 38 * product[i + 16]);
    var h := product[16..];
    assert product[16..16 + i] == h[..i] && product[16..16 + i + 1] == h[..i + 1];
    ValueSnoc(h, i);
    MulAssoc(Radix(i), 38, h[i]);
  }

  /** 2^256 and 38 are congruent modulo p, so folding keeps the field element. */
  lemma Folded(product: seq<int>, folded: seq<int>)
    requires |product| == 31
    requires Value(folded) == Value(product[..16]) + 38 * Value(product[16..])
    ensures Fe(folded) == Fe(product)
  {
    var h := Value(product[16..]);
    ValueSplit(product, 16);
    RadixValues();
    assert Value(product) == Value(folded) + (2 * h) * P;
    ModShift(Value(folded), 2 * h, P);
  }

  // ----- inversion -----

  /** The top bit of p - 2. */
  const TOP_BIT: nat := 254

  /** The leading bits of p - 2, from bit 254 down to bit a. */
  ghost function Exponent(a: nat): nat {
    (P - 2) / Pow2(a)
  }

  /** The main loop of `invert`: square and multiply, from bit 253 down. */
  method RaiseToInverse(c: array<int>, i: array<int>)
    requires c.Length == i.Length == 16 && c != i && c[..] == i[..]
    requires Small(i[..], MAX_FACTOR)
    modifies c
    ensures Carried(c[..])
    ensures Fe(c[..]) == FPow(Fe(i[..]), P - 2)
  {
    ghost var x := Fe(i[..]);
    ExponentBits(TOP_BIT);
    FPowOne(x);
    for a := TOP_BIT downto 0
      invariant Small(c[..], MAX_FACTOR) && (a < TOP_BIT ==> Carried(c[..]))
      invariant Fe(c[..]) == FPow(x, Exponent(a))
    {
      ghost var before := c[..];
      MultMod(c, c, c);
      ghost var square := c[..];
      CarriedIsSmall(square);
      if a != 2 && a != 4 {
        MultMod(c, c, i);
        CarriedIsSmall(c[..]);
      }
      SquareAndMultiply(x, a, Fe(before), Fe(square), Fe(c[..]));
    }
    ExponentBits(0);
  }

  method Invert(o: array<int>, i: array<int>)
    requires o.Length == i.Length == 16
    requires Small(i[..], MAX_FACTOR)
    modifies o
    ensures Carried(o[..])
    ensures Fe(o[..]) == FPow(old(Fe(i[..])), P - 2)
  {
    ghost var u := i[..];
    var c := new int[16](_ => 0);
    for a := 0 to 16
      invariant i[..] == u && c[..a] == u[..a]
    {
      c[a] := i[a];
    }
    assert c[..] == u;
    RaiseToInverse(c, i);
    ghost var r := c[..];
    for a := 0 to 16
      invariant c[..] == r && o[..a] == r[..a]
    {
      assert c[a] == r[a];
      o[a] := c[a];
    }
    assert o[..] == r;
  }

  lemma SquareAndMultiply(x: int, a: nat, before: int, square: int, after: int)
    requires a < TOP_BIT
    requires before == FPow(x, Exponent(a + 1))
    requires square == FMul(before, before)
    requires after == if a == 2 || a == 4 then square else FMul(square, x)
    ensures after == FPow(x, Exponent(a))
  {
    var e := Exponent(a + 1);
    ExponentBits(a);
    FPowAdd(x, e, e);
    FMulComm(square, x);
  }

  lemma FPowOne(x: int)
    requires 0 <= x < P
    ensures FPow(x, 1) == x
  {
    assert FPow(x, 0) == 1;
  }

  /** The bits of p - 2: 255 of them, all ones except bits 2 and 4. */
  lemma ExponentBits(a: nat)
    requires a <= TOP_BIT
    ensures a == TOP_BIT ==> Exponent(a) == 1
    ensures a == 0 ==> Exponent(a) == P - 2
    ensures a < TOP_BIT ==> Exponent(a) == 2 * Exponent(a + 1) + (if a == 2 || a == 4 then 0 else 1)
  {
    assert Pow2(1) == 2;
    if a >= 5 {
      HighExponentBits(a);
      if a < TOP_BIT {
        HighExponentBits(a + 1);
      }
    } else {
      LowExponentBits(P - 2);
    }
  }

  lemma LowExponentBits(x: int)
    requires x == P - 2
    ensures x / 2 == 2 * (x / 4) + 1 && x / 4 == 2 * (x / 8)
    ensures x / 8 == 2 * (x / 16) + 1 && x / 16 == 2 * (x / 32)
    ensures x == 2 * (x / 2) + 1
    ensures Pow2(0) == 1 && Pow2(1) == 2 && Pow2(2) == 4
    ensures Pow2(3) == 8 && Pow2(4) == 16 && Pow2(5) == 32
  {
  }

  lemma HighExponentBits(a: nat)
    requires 5 <= a <= TOP_BIT
    ensures (P - 2) / Pow2(a) == Pow2(BITS - a) - 1
  {
    Pow2OfBits();
    Pow2Monotone(5, a);
    assert Pow2(5) == 32;
    Pow2Add(BITS - a, a);
    OnesOver(Pow2(BITS - a), Pow2(a), P - 2);
  }

  lemma OnesOver(f: int, m: int, x: int)
    requires f >= 1 && m >= 32 && x == f * m - 21
    ensures x / m == f - 1
  {
    assert x == (f - 1) * m + (m - 21);
    DivModUnique(x, m, f - 1, m - 21);
  }
}
