/** `RandomUtil.randomBase32String`: octets to Base32 text through a 32-bit shift register. */
module RandomUtil {
  import opened Arith
  import opened JsNumber
  import opened Rfc4648

  ghost predicate IsText(g: seq<nat>, text: string) {
    |text| == |g| && forall i :: 0 <= i < |g| ==> g[i] < 32 && text[i] == Char32(g[i])
  }

  /** All but the last `bits` bits of the stream are written; those are the low bits of the register. */
  ghost predicate Taken(s: seq<bool>, bits: int, buffer: int, result: string) {
    && 0 <= bits <= |s| && bits <= 12
    && (|s| - bits) % 5 == 0
    && IsInt32(buffer)
    && Number(s[|s| - bits..]) == buffer % Pow2(bits)
    && IsText(Groups(s[..|s| - bits], 5), result)
  }

  /**
   The octets come from the random source; the text is their unpadded Base32. The register is
   never cleared, so its upper bits overflow; only the pending low bits matter.
   */
  method RandomBase32String(octets: array<byte>) returns (result: string)
    ensures result == Base32Unpadded(octets[..])
  {
    ghost var b := octets[..];
    var bits, buffer: int := 0, 0;
    result := "";
    assert b[..0] == [];
    for i := 0 to octets.Length
      invariant 0 <= bits < 5
      invariant Taken(Stream(b[..i]), bits, buffer, result)
    {
      ghost var before := buffer;
      Register(buffer, octets[i], bits);
      buffer := BitOr(Shl(buffer, 8), octets[i]);
      ShiftIn(b, i, bits, before, buffer, result);
      bits := bits + 8;
      while bits >= 5
        invariant 0 <= bits <= 12
        invariant Taken(Stream(b[..i + 1]), bits, buffer, result)
      {
        TakeGroup(Stream(b[..i + 1]), bits, buffer, result);
        bits := bits - 5;
        result := result + [Char32(BitAnd(Shr(buffer, bits), 0x1f))];
      }
    }
    assert b[..octets.Length] == b;
    LastGroup(b, bits, buffer, result);
    if bits > 0 {
      result := result + [Char32(BitAnd(Shl(buffer, 5 - bits), 0x1f))];
    }
  }

  // ----- a new octet enters the register -----

  lemma ShiftIn(b: seq<byte>, i: nat, bits: int, buffer: int, next: int, result: string)
    requires i < |b| && bits < 5
    requires Taken(Stream(b[..i]), bits, buffer, result)
    requires IsInt32(next) && next % Pow2(bits + 8) == buffer % Pow2(bits) * 256 + b[i]
    ensures Taken(Stream(b[..i + 1]), bits + 8, next, result)
  {
    var s := Stream(b[..i]);
    PendingAndOctet(s[|s| - bits..], b[i]);
    EightMore(s, Bits(b[i], 8), bits, buffer, next, result);
    NextOctet(b, i);
  }

  lemma NextOctet(b: seq<byte>, i: nat)
    requires i < |b|
    ensures Stream(b[..i + 1]) == Stream(b[..i]) + Bits(b[i], 8)
  {
    assert b[..i + 1] == b[..i] + [b[i]];
    StreamConcat(b[..i], [b[i]]);
    assert Stream([b[i]]) == Bits(b[i], 8) + [] == Bits(b[i], 8);
  }

  lemma EightMore(s: seq<bool>, t: seq<bool>, bits: int, buffer: int, next: int, result: string)
    requires bits < 5 && |t| == 8 && Taken(s, bits, buffer, result)
    requires IsInt32(next) && Number(s[|s| - bits..] + t) == next % Pow2(bits + 8)
    ensures Taken(s + t, bits + 8, next, result)
  {
    assert (s + t)[..|s| - bits] == s[..|s| - bits] && (s + t)[|s| - bits..] == s[|s| - bits..] + t;
  }

  lemma PendingAndOctet(pending: seq<bool>, x: byte)
    ensures Number(pending + Bits(x, 8)) == Number(pending) * 256 + x
  {
    NumberConcat(pending, Bits(x, 8));
    Pow2Values();
    NumberBits(x, 8);
  }

  lemma Register(buffer: int, x: byte, bits: nat)
    requires IsInt32(buffer) && bits < 5
    ensures var next := BitOr(Shl(buffer, 8), x);
            IsInt32(next) && next % Pow2(bits + 8) == buffer % Pow2(bits) * 256 + x
  {
    RegisterSum(buffer, x);
    RegisterMod(buffer, x, bits);
  }

  lemma RegisterSum(buffer: int, x: byte)
    requires IsInt32(buffer)
    ensures BitOr(Shl(buffer, 8), x) == ToInt32(buffer * 256) + x
    ensures ToInt32(buffer * 256) <= 0x7fff_ff00
  {
    Pow2Values();
    var w := ToInt32(buffer * 256);
    HighOctets(buffer, w);
    OrDisjoint(w / 256, x, 8);
  }

  lemma RegisterMod(buffer: int, x: byte, bits: nat)
    requires bits < 5
    ensures (ToInt32(buffer * 256) + x) % Pow2(bits + 8) == buffer % Pow2(bits) * 256 + x
  {
    Pow2Values();
    ToInt32Mod(buffer * 256);
    ShiftedMod(ToInt32(buffer * 256) + x, buffer * 256 + x, bits + 8);
    Pow2Add(bits, 8);
    AppendMod(buffer, Pow2(bits), x);
  }

  lemma HighOctets(buffer: int, w: int)
    requires w == ToInt32(buffer * 256)
    ensures w / 256 * 256 == w && w <= 0x7fff_ff00
  {
    ToInt32Mod(buffer * 256);
    var d := w / 0x1_0000_0000 - buffer * 256 / 0x1_0000_0000;
    assert w == 256 * (buffer + d * 0x100_0000);
  }

  lemma ShiftedMod(x: int, y: int, k: nat)
    requires k <= 32
    requires (x - y) % 0x1_0000_0000 == 0
    ensures x % Pow2(k) == y % Pow2(k)
  {
    var e := (x - y) / 0x1_0000_0000;
    assert x == y + e * 0x1_0000_0000;
    ModShift(y, e, 0x1_0000_0000);
    ModMod32(x, y, k);
  }

  lemma AppendMod(buffer: int, m: int, x: byte)
    requires m >= 1
    ensures (buffer * 256 + x) % (m * 256) == buffer % m * 256 + x
  {
    var q, r := buffer / m, buffer % m;
    assert buffer == q * m + r;
    assert (q * m + r) * 256 + x == q * (m * 256) + (r * 256 + x);
    DivModUnique(buffer * 256 + x, m * 256, q, r * 256 + x);
  }

  // ----- a group leaves it -----

  lemma TakeGroup(s: seq<bool>, bits: int, buffer: int, result: string)
    requires 5 <= bits && Taken(s, bits, buffer, result)
    ensures 0 <= BitAnd(Shr(buffer, bits - 5), 0x1f) < 32
    ensures Taken(s, bits - 5, buffer, result + [Char32(BitAnd(Shr(buffer, bits - 5), 0x1f))])
  {
    var n := |s| - bits;
    var group, rest := s[n..n + 5], s[n + 5..];
    assert s[n..] == group + rest;
    NumberConcat(group, rest);
    NumberBelow(rest);
    TakeBits(buffer, bits, Number(group), Number(rest));
    OneGroup(s, n);
    ModShift(n, 1, 5);
  }

  /** The groups up to a whole group further on. */
  lemma OneGroup(s: seq<bool>, n: nat)
    requires n + 5 <= |s| && n % 5 == 0
    ensures Groups(s[..n + 5], 5) == Groups(s[..n], 5) + [Number(s[n..n + 5])]
  {
    var group := s[n..n + 5];
    assert s[..n + 5] == s[..n] + group;
    GroupsConcat(s[..n], group, 5);
    assert group[..5] == group && group[5..] == [];
    assert Groups([], 5) == [];
  }

  lemma TakeBits(buffer: int, bits: int, high: nat, low: nat)
    requires 5 <= bits <= 12 && IsInt32(buffer)
    requires low < Pow2(bits - 5)
    requires high * Pow2(bits - 5) + low == buffer % Pow2(bits)
    ensures BitAnd(Shr(buffer, bits - 5), 0x1f) == high < 32
    ensures low == buffer % Pow2(bits - 5)
  {
    var m := Pow2(bits - 5);
    var y := buffer % 0x1_0000_0000;
    ModMod32(buffer, y, bits);
    Pow2Add(bits - 5, 5);
    assert Pow2(5) == 32;
    BitAndMask(Shr(buffer, bits - 5), 5);
    MiddleBits(y, m, high, low);
    ModMod32(buffer, y, bits - 5);
  }

  lemma MiddleBits(y: int, m: int, high: nat, low: nat)
    requires m >= 1 && low < m && y % (m * 32) == high * m + low
    ensures y / m % 32 == high < 32 && y % m == low
  {
    var q := y / (m * 32);
    assert y == (m * 32) * q + (high * m + low);
    assert (m * 32) * q + high * m == (32 * q + high) * m;
    DivModUnique(y, m, 32 * q + high, low);
    assert high * m < 32 * m;
    assert high < 32 by {
      if high >= 32 {
        MulLe(m, 32, high);
      }
    }
  }

  // ----- the end -----

  lemma LastGroup(b: seq<byte>, bits: int, buffer: int, result: string)
    requires bits < 5 && Taken(Stream(b), bits, buffer, result)
    ensures bits == 0 ==> result == Base32Unpadded(b)
    ensures bits > 0 ==>
              && 0 <= BitAnd(Shl(buffer, 5 - bits), 0x1f) < 32
              && result + [Char32(BitAnd(Shl(buffer, 5 - bits), 0x1f))] == Base32Unpadded(b)
  {
    var s := Stream(b);
    var n := |s| - bits;
    assert s == s[..n] + s[n..];
    GroupsConcat(s[..n], s[n..], 5);
    if bits > 0 {
      NumberConcat(s[n..], Zeros(5 - bits));
      NumberOfZeros(5 - bits);
      FillBits(buffer, bits);
    }
  }

  lemma FillBits(buffer: int, bits: int)
    requires 0 < bits < 5 && IsInt32(buffer)
    ensures BitAnd(Shl(buffer, 5 - bits), 0x1f) == buffer % Pow2(bits) * Pow2(5 - bits) < 32
  {
    var f, m := Pow2(5 - bits), Pow2(bits);
    Pow2Add(bits, 5 - bits);
    MaskFive(Shl(buffer, 5 - bits));
    ToInt32Mod(buffer * f);
    assert Pow2(5) == 32;
    ModMod32(ToInt32(buffer * f), buffer * f, 5);
    TopMod(buffer, f, m);
  }

  lemma MaskFive(x: int)
    ensures BitAnd(x, 0x1f) == x % 32
  {
    assert Pow2(5) == 32;
    BitAndMask(x, 5);
  }

  lemma TopMod(buffer: int, f: int, m: int)
    requires f >= 1 && m >= 1 && m * f == 32
    ensures buffer * f % 32 == buffer % m * f < 32
  {
    var q, r := buffer / m, buffer % m;
    Scale(q, m, r, f);
    MulLe(f, r, m - 1);
    assert f * (m - 1) == m * f - f;
    DivModUnique(buffer * f, 32, q, r * f);
  }

  lemma Scale(q: int, m: int, r: int, f: int)
    ensures (q * m + r) * f == q * (m * f) + r * f
  {
    assert (q * m) * f == q * (m * f);
  }
}
