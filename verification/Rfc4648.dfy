/**
 Base 64 and Base 32 as sections 4 and 6 of RFC 4648 define them: the octets form one stream of
 bits, taken from left to right in groups of 6 or 5, the last group filled up with zero bits.
 */
module Rfc4648 {
  import opened Arith
  import opened Options

  // ----- bits -----

  /** The w low bits of v, most significant first. */
  function Bits(v: nat, w: nat): (s: seq<bool>)
    ensures |s| == w
  {
    if w == 0 then [] else Bits(v / 2, w - 1) + [v % 2 == 1]
  }

  function Number(s: seq<bool>): nat {
    if |s| == 0 then 0 else 2 * Number(s[..|s| - 1]) + (if s[|s| - 1] then 1 else 0)
  }

  function Zeros(n: nat): (s: seq<bool>)
    ensures |s| == n
  {
    seq(n, _ => false)
  }

  function Stream(b: seq<byte>): (s: seq<bool>)
    ensures |s| == 8 * |b|
  {
    if |b| == 0 then [] else Bits(b[0], 8) + Stream(b[1..])
  }

  function Groups(s: seq<bool>, w: nat): seq<nat>
    requires w > 0
  {
    if |s| == 0 then []
    else if |s| < w then [Number(s + Zeros(w - |s|))]
    else [Number(s[..w])] + Groups(s[w..], w)
  }

  // ----- the two alphabets -----

  function Char64(v: nat): char
    requires v < 64
  {
    if v < 26 then 'A' + v as char
    else if v < 52 then 'a' + (v - 26) as char
    else if v < 62 then '0' + (v - 52) as char
    else if v == 62 then '+' else '/'
  }

  function Char32(v: nat): char
    requires v < 32
  {
    if v < 26 then 'A' + v as char else '2' + (v - 26) as char
  }

  function Chars64(g: seq<nat>): (s: string)
    requires forall v :: v in g ==> v < 64
    ensures |s| == |g|
  {
    seq(|g|, i requires 0 <= i < |g| => assert g[i] in g; Char64(g[i]))
  }

  function Chars32(g: seq<nat>): (s: string)
    requires forall v :: v in g ==> v < 32
    ensures |s| == |g|
  {
    seq(|g|, i requires 0 <= i < |g| => assert g[i] in g; Char32(g[i]))
  }

  // ----- the encodings -----

  function Sextets(b: seq<byte>): (g: seq<nat>)
    ensures forall v :: v in g ==> v < 64
  {
    GroupsBelow(Stream(b), 6);
    assert Pow2(6) == 64;
    Groups(Stream(b), 6)
  }

  function Quintets(b: seq<byte>): (g: seq<nat>)
    ensures forall v :: v in g ==> v < 32
  {
    GroupsBelow(Stream(b), 5);
    assert Pow2(5) == 32;
    Groups(Stream(b), 5)
  }

  /** Section 4: the last quantum is padded to four characters. */
  function Base64(b: seq<byte>): string {
    Chars64(Sextets(b)) + seq((3 - |b| % 3) % 3, _ => '=')
  }

  /** Section 6, without the padding (section 3.2). */
  function Base32Unpadded(b: seq<byte>): string {
    Chars32(Quintets(b))
  }

  // ----- decoding -----

  function Value64(c: char): Option<nat> {
    if 'A' <= c <= 'Z' then Some(c as int - 'A' as int)
    else if 'a' <= c <= 'z' then Some(26 + (c as int - 'a' as int))
    else if '0' <= c <= '9' then Some(52 + (c as int - '0' as int))
    else if c == '+' then Some(62)
    else if c == '/' then Some(63)
    else None
  }

  function Value32(c: char): Option<nat> {
    if 'A' <= c <= 'Z' then Some(c as int - 'A' as int)
    else if '2' <= c <= '7' then Some(26 + (c as int - '2' as int))
    else None
  }

  /** The bits that a text of w-bit characters stands for. */
  function TextBits(text: string, w: nat, valueOf: char -> Option<nat>): Option<seq<bool>> {
    if |text| == 0 then Some([])
    else match (valueOf(text[0]), TextBits(text[1..], w, valueOf))
      case (Some(v), Some(rest)) => Some(Bits(v, w) + rest)
      case _ => None
  }

  /** The whole octets of a stream of bits; fewer than eight bits at the end are dropped. */
  function Octets(s: seq<bool>): seq<byte> {
    if |s| < 8 then []
    else
      NumberBelow(s[..8]);
      assert Pow2(8) == 256;
      [Number(s[..8])] + Octets(s[8..])
  }

  /** At most two padding characters, at the end of a text whose length is a multiple of four. */
  function StripPadding(text: string): string {
    var n := |text|;
    if n >= 2 && text[n - 2] == '=' && text[n - 1] == '=' then text[..n - 2]
    else if n >= 1 && text[n - 1] == '=' then text[..n - 1]
    else text
  }

  function Decode64(text: string): Option<seq<byte>> {
    if |text| % 4 != 0 then None
    else match TextBits(StripPadding(text), 6, Value64)
      case Some(s) => Some(Octets(s))
      case None => None
  }

  function Decode32(text: string): Option<seq<byte>> {
    match TextBits(text, 5, Value32)
    case Some(s) => Some(Octets(s))
    case None => None
  }

  // ----- numbers and bits -----

  lemma {:induction false} NumberBelow(s: seq<bool>)
    ensures Number(s) < Pow2(|s|)
  {
    if |s| == 0 {
    } else {
      NumberBelow(s[..|s| - 1]);
    }
  }

  lemma {:induction false} BitsNumber(s: seq<bool>)
    ensures Bits(Number(s), |s|) == s
  {
    if |s| == 0 {
    } else {
      BitsNumber(s[..|s| - 1]);
      assert s == s[..|s| - 1] + [s[|s| - 1]];
    }
  }

  lemma {:induction false} NumberBits(v: nat, w: nat)
    requires v < Pow2(w)
    ensures Number(Bits(v, w)) == v
    decreases w
  {
    if w == 0 {
    } else {
      NumberBits(v / 2, w - 1);
      assert Bits(v, w)[..w - 1] == Bits(v / 2, w - 1);
    }
  }

  lemma {:induction false} NumberConcat(s: seq<bool>, t: seq<bool>)
    ensures Number(s + t) == Number(s) * Pow2(|t|) + Number(t)
    decreases |t|
  {
    if |t| == 0 {
      assert s + t == s;
    } else {
      var h := t[..|t| - 1];
      NumberConcat(s, h);
      assert (s + t)[..|s + t| - 1] == s + h && (s + t)[|s + t| - 1] == t[|h|];
      assert Number(s + t) == 2 * Number(s + h) + (if t[|h|] then 1 else 0);
      TwiceProduct(Number(s), Pow2(|h|));
    }
  }

  lemma {:induction false} NumberOfZeros(n: nat)
    ensures Number(Zeros(n)) == 0
  {
    if n == 0 {
    } else {
      NumberOfZeros(n - 1);
      assert Zeros(n)[..n - 1] == Zeros(n - 1);
    }
  }

  lemma TwiceProduct(a: int, b: int)
    ensures 2 * (a * b) == a * (2 * b)
  {
  }

  lemma {:induction false} GroupsBelow(s: seq<bool>, w: nat)
    requires w > 0
    ensures forall v :: v in Groups(s, w) ==> v < Pow2(w)
  {
    if |s| == 0 {
    } else if |s| < w {
      NumberBelow(s + Zeros(w - |s|));
    } else {
      NumberBelow(s[..w]);
      GroupsBelow(s[w..], w);
    }
  }

  /** Whole groups may be cut off at the front. */
  lemma {:induction false} GroupsConcat(s: seq<bool>, t: seq<bool>, w: nat)
    requires w > 0 && |s| % w == 0
    ensures Groups(s + t, w) == Groups(s, w) + Groups(t, w)
  {
    if |s| == 0 {
      assert s + t == t;
    } else {
      WholeGroup(|s|, w);
      var rest := s[w..];
      assert |rest| == |s| - w;
      assert (s + t)[..w] == s[..w] && (s + t)[w..] == rest + t;
      GroupsConcat(rest, t, w);
      assert Groups(s, w) == [Number(s[..w])] + Groups(rest, w);
    }
  }

  lemma WholeGroup(n: nat, w: nat)
    requires w > 0 && n > 0 && n % w == 0
    ensures n >= w && (n - w) % w == 0
  {
    ModShift(n, -1, w);
  }

  lemma {:induction false} StreamConcat(a: seq<byte>, b: seq<byte>)
    ensures Stream(a + b) == Stream(a) + Stream(b)
  {
    if |a| == 0 {
      assert a + b == b;
    } else {
      assert (a + b)[1..] == a[1..] + b;
      StreamConcat(a[1..], b);
    }
  }

  // ----- decoding undoes encoding -----

  /** The groups of s hold the bits of s and then fewer than w zero bits. */
  lemma {:induction false} GroupsLength(s: seq<bool>, w: nat)
    requires w > 0
    ensures |Groups(s, w)| == (|s| + w - 1) / w
  {
    if |s| == 0 {
      DivModUnique(w - 1, w, 0, w - 1);
    } else if |s| < w {
      DivModUnique(|s| + w - 1, w, 1, |s| - 1);
    } else {
      GroupsLength(s[w..], w);
      ModShift(|s| - w + w - 1, 1, w);
    }
  }

  /** What the characters of the groups of s decode to: s, filled up with zeros. */
  ghost predicate Filled(s: seq<bool>, w: nat, text: Option<seq<bool>>) {
    text.Some? && |s| <= |text.value| < |s| + w && text.value[..|s|] == s
  }

  lemma {:induction false} TextBitsOfGroups(s: seq<bool>, w: nat, text: string, valueOf: char -> Option<nat>)
    requires w > 0
    requires |text| == |Groups(s, w)|
    requires forall i :: 0 <= i < |text| ==> valueOf(text[i]) == Some(Groups(s, w)[i])
    ensures Filled(s, w, TextBits(text, w, valueOf))
    decreases |text|
  {
    if |s| == 0 {
    } else if |s| < w {
      var first := s + Zeros(w - |s|);
      BitsNumber(first);
      assert text[1..] == [] && first + [] == first;
      assert TextBits(text, w, valueOf) == Some(first);
    } else {
      BitsNumber(s[..w]);
      TextBitsOfGroups(s[w..], w, text[1..], valueOf);
      var r := TextBits(text[1..], w, valueOf);
      assert TextBits(text, w, valueOf) == Some(s[..w] + r.value);
      assert s == s[..w] + s[w..];
      FilledStep(s, w, r.value);
    }
  }

  lemma FilledStep(s: seq<bool>, w: nat, r: seq<bool>)
    requires w <= |s| && Filled(s[w..], w, Some(r))
    ensures Filled(s, w, Some(s[..w] + r))
  {
    assert (s[..w] + r)[..|s|] == s[..w] + r[..|s| - w];
  }

  lemma {:induction false} OctetsOfStream(b: seq<byte>, s: seq<bool>)
    requires 8 * |b| <= |s| < 8 * |b| + 8
    requires s[..8 * |b|] == Stream(b)
    ensures Octets(s) == b
  {
    if |b| == 0 {
    } else {
      assert Pow2(8) == 256;
      assert s[..8] == s[..8 * |b|][..8] == Bits(b[0], 8);
      NumberBits(b[0], 8);
      assert s[8..][..8 * (|b| - 1)] == s[..8 * |b|][8..] == Stream(b[1..]);
      OctetsOfStream(b[1..], s[8..]);
    }
  }

  lemma Base64RoundTrip(b: seq<byte>)
    ensures Decode64(Base64(b)) == Some(b)
  {
    var core := Chars64(Sextets(b));
    CharsDecode(b);
    StripBase64(b);
    GroupsLength(Stream(b), 6);
    PaddedLength(|b|);
    TextBitsOfGroups(Stream(b), 6, core, Value64);
    OctetsOfStream(b, TextBits(core, 6, Value64).value);
  }

  lemma CharsDecode(b: seq<byte>)
    ensures forall i :: 0 <= i < |Sextets(b)| ==> Value64(Chars64(Sextets(b))[i]) == Some(Sextets(b)[i])
  {
    forall i | 0 <= i < |Sextets(b)|
      ensures Value64(Chars64(Sextets(b))[i]) == Some(Sextets(b)[i])
    {
      assert Sextets(b)[i] in Sextets(b);
      Value64OfChar64(Sextets(b)[i]);
    }
  }

  lemma StripBase64(b: seq<byte>)
    ensures StripPadding(Base64(b)) == Chars64(Sextets(b))
  {
    CharsDecode(b);
    var core := Chars64(Sextets(b));
    PaddingStrips(core, (3 - |b| % 3) % 3);
  }

  lemma PaddingStrips(core: string, n: nat)
    requires n <= 2
    requires forall i :: 0 <= i < |core| ==> Value64(core[i]).Some?
    ensures StripPadding(core + seq(n, _ => '=')) == core
  {
    var text := core + seq(n, _ => '=');
    assert text[..|core|] == core;
    if |core| > 0 {
      assert Value64(core[|core| - 1]).Some?;
      assert text[|core| - 1] == core[|core| - 1];
    }
  }

  lemma PaddedLength(n: nat)
    ensures ((8 * n + 5) / 6 + (3 - n % 3) % 3) % 4 == 0
  {
    assert n == 3 * (n / 3) + n % 3;
    var q := n / 3;
    if n % 3 == 0 {
      assert (8 * n + 5) / 6 == 4 * q;
    } else if n % 3 == 1 {
      assert (8 * n + 5) / 6 == 4 * q + 2;
    } else {
      assert (8 * n + 5) / 6 == 4 * q + 3;
    }
  }

  lemma Value64OfChar64(v: nat)
    requires v < 64
    ensures Value64(Char64(v)) == Some(v)
  {
  }

  lemma Base32RoundTrip(b: seq<byte>)
    ensures |Base32Unpadded(b)| == (8 * |b| + 4) / 5
    ensures Decode32(Base32Unpadded(b)) == Some(b)
  {
    var text := Base32Unpadded(b);
    GroupsLength(Stream(b), 5);
    forall i | 0 <= i < |text|
      ensures Value32(text[i]) == Some(Quintets(b)[i])
    {
      assert Quintets(b)[i] in Quintets(b);
    }
    TextBitsOfGroups(Stream(b), 5, text, Value32);
    OctetsOfStream(b, TextBits(text, 5, Value32).value);
  }

  // ----- the encodings as numbers -----

  const UPPER: string := "ABCDEFGHIJKLMNOPQRSTUVWXYZ"

  const LOWER: string := "abcdefghijklmnopqrstuvwxyz"

  /** Table 1 of RFC 4648. */
  const ALPHABET64: string := UPPER + LOWER + "0123456789+/"

  /** Table 3 of RFC 4648. */
  const ALPHABET32: string := UPPER + "234567"

  lemma LettersAre()
    ensures |UPPER| == 26 && forall v :: 0 <= v < 26 ==> UPPER[v] == 'A' + v as char
  {
  }

  lemma SmallLettersAre()
    ensures |LOWER| == 26 && forall v :: 0 <= v < 26 ==> LOWER[v] == 'a' + v as char
  {
  }

  lemma Alphabet64Is()
    ensures |ALPHABET64| == 64 && forall v :: 0 <= v < 64 ==> Char64(v) == ALPHABET64[v]
  {
    LettersAre();
    SmallLettersAre();
    forall v | 0 <= v < 64
      ensures Char64(v) == ALPHABET64[v]
    {
      if v < 26 {
        assert ALPHABET64[v] == UPPER[v];
      } else if v < 52 {
        assert ALPHABET64[v] == LOWER[v - 26];
      } else {
        assert ALPHABET64[v] == "0123456789+/"[v - 52];
      }
    }
  }

  lemma Alphabet32Is()
    ensures |ALPHABET32| == 32 && forall v :: 0 <= v < 32 ==> Char32(v) == ALPHABET32[v]
  {
    LettersAre();
    forall v | 0 <= v < 32
      ensures Char32(v) == ALPHABET32[v]
    {
      if v < 26 {
        assert ALPHABET32[v] == UPPER[v];
      } else {
        assert ALPHABET32[v] == "234567"[v - 26];
      }
    }
  }

  /** Octets as the digits of a number, most significant first. */
  function BigEndian(b: seq<byte>): nat {
    if |b| == 0 then 0 else BigEndian(b[..|b| - 1]) * 256 + b[|b| - 1]
  }

  function FromDigits(g: seq<nat>, base: nat): nat {
    if |g| == 0 then 0 else FromDigits(g[..|g| - 1], base) * base + g[|g| - 1]
  }

  lemma {:induction false} StreamIsBigEndian(b: seq<byte>)
    ensures Number(Stream(b)) == BigEndian(b)
  {
    if |b| == 0 {
    } else {
      var h, x := b[..|b| - 1], b[|b| - 1];
      assert b == h + [x];
      StreamIsBigEndian(h);
      StreamConcat(h, [x]);
      assert Stream([x]) == Bits(x, 8) + [] == Bits(x, 8);
      NumberConcat(Stream(h), Bits(x, 8));
      Pow2Values();
      NumberBits(x, 8);
    }
  }

  function Power(base: nat, n: nat): nat {
    if n == 0 then 1 else base * Power(base, n - 1)
  }

  lemma {:induction false} ConsDigits(h: nat, t: seq<nat>, base: nat)
    ensures FromDigits([h] + t, base) == h * Power(base, |t|) + FromDigits(t, base)
    decreases |t|
  {
    var s := [h] + t;
    if |t| == 0 {
      assert s == [h] && s[..0] == [];
    } else {
      var g, x := t[..|t| - 1], t[|t| - 1];
      assert s[..|s| - 1] == [h] + g && s[|s| - 1] == x;
      ConsDigits(h, g, base);
      ShiftDigits(h, Power(base, |g|), FromDigits(g, base), base, x);
    }
  }

  lemma ShiftDigits(h: nat, m: nat, low: nat, base: nat, x: nat)
    ensures (h * m + low) * base + x == h * (base * m) + (low * base + x)
  {
    assert (h * m) * base == h * (base * m);
  }

  /** How many zero bits fill up the last group. */
  function Fill(s: seq<bool>, w: nat): nat
    requires w > 0
  {
    if |s| == 0 then 0 else if |s| < w then w - |s| else Fill(s[w..], w)
  }

  lemma {:induction false} FillLength(s: seq<bool>, w: nat)
    requires w == 5 || w == 6
    ensures |s| + Fill(s, w) == w * |Groups(s, w)|
  {
    if |s| < w {
    } else {
      FillLength(s[w..], w);
    }
  }

  lemma {:induction false} GroupsPower(s: seq<bool>, w: nat)
    requires w > 0
    ensures Power(Pow2(w), |Groups(s, w)|) == Pow2(|s|) * Pow2(Fill(s, w))
  {
    if |s| == 0 {
    } else if |s| < w {
      assert Power(Pow2(w), 1) == Pow2(w) * Power(Pow2(w), 0) == Pow2(w);
      Pow2Add(|s|, w - |s|);
    } else {
      var rest := s[w..];
      GroupsPower(rest, w);
      assert |rest| == |s| - w && |Groups(s, w)| == |Groups(rest, w)| + 1;
      Pow2Add(w, |rest|);
      TimesAssoc(Pow2(w), Pow2(|rest|), Pow2(Fill(rest, w)));
    }
  }

  lemma TimesAssoc(a: int, b: int, c: int)
    ensures a * (b * c) == (a * b) * c
  {
  }

  /** The groups are the digits of the stream's number, moved up to whole groups. */
  lemma {:induction false} DigitsOfGroups(s: seq<bool>, w: nat)
    requires w > 0
    ensures FromDigits(Groups(s, w), Pow2(w)) == Number(s) * Pow2(Fill(s, w))
  {
    if |s| == 0 {
    } else if |s| < w {
      LastDigit(s, w);
    } else {
      var first, rest := Number(s[..w]), s[w..];
      DigitsOfGroups(rest, w);
      ConsDigits(first, Groups(rest, w), Pow2(w));
      GroupsPower(rest, w);
      assert s == s[..w] + rest;
      NumberConcat(s[..w], rest);
      MoveUp(first, Pow2(|rest|), Number(rest), Pow2(Fill(rest, w)));
    }
  }

  lemma LastDigit(s: seq<bool>, w: nat)
    requires 0 < |s| < w
    ensures FromDigits(Groups(s, w), Pow2(w)) == Number(s) * Pow2(w - |s|)
  {
    var z := Zeros(w - |s|);
    NumberConcat(s, z);
    NumberOfZeros(w - |s|);
    assert Groups(s, w) == [Number(s + z)];
    assert [Number(s + z)][..0] == [];
  }

  lemma MoveUp(first: nat, m: nat, rest: nat, up: nat)
    ensures first * (m * up) + rest * up == (first * m + rest) * up
  {
    TimesAssoc(first, m, up);
  }

  lemma DigitsMean(b: seq<byte>, g: seq<nat>, w: nat)
    requires (w == 5 || w == 6) && g == Groups(Stream(b), w)
    ensures |g| == (8 * |b| + w - 1) / w && w * |g| >= 8 * |b|
    ensures FromDigits(g, Pow2(w)) == BigEndian(b) * Pow2(w * |g| - 8 * |b|)
  {
    GroupsLength(Stream(b), w);
    FillLength(Stream(b), w);
    DigitsOfGroups(Stream(b), w);
    StreamIsBigEndian(b);
  }

  const SEXTET: nat := 6

  const QUINTET: nat := 5

  /** Base 64 writes the sextets with the alphabet, and pads to a multiple of four characters. */
  lemma Base64Characters(b: seq<byte>)
    ensures var (g, text) := (Sextets(b), Base64(b));
            && |g| == (8 * |b| + 5) / 6 && |text| == |g| + (3 - |b| % 3) % 3 && |text| % 4 == 0
            && (forall i :: 0 <= i < |g| ==> g[i] < 64 && text[i] == Char64(g[i]))
            && (forall i :: |g| <= i < |text| ==> text[i] == '=')
  {
    var g := Sextets(b);
    GroupsLength(Stream(b), 6);
    PaddedLength(|b|);
    forall i | 0 <= i < |g|
      ensures g[i] < 64
    {
      assert g[i] in g;
    }
  }

  /** The sextets are the digits, in base 64, of the octets' big-endian number moved up to whole sextets. */
  lemma SextetsAreDigits(b: seq<byte>)
    ensures SEXTET * |Sextets(b)| >= 8 * |b|
    ensures FromDigits(Sextets(b), Pow2(SEXTET)) == BigEndian(b) * Pow2(SEXTET * |Sextets(b)| - 8 * |b|)
  {
    DigitsMean(b, Sextets(b), SEXTET);
  }

  /** Base 32 writes the quintets with its alphabet, without padding. */
  lemma Base32Characters(b: seq<byte>)
    ensures var (g, text) := (Quintets(b), Base32Unpadded(b));
            && |g| == |text| == (8 * |b| + 4) / 5
            && forall i :: 0 <= i < |g| ==> g[i] < 32 && text[i] == Char32(g[i])
  {
    var g := Quintets(b);
    GroupsLength(Stream(b), 5);
    forall i | 0 <= i < |g|
      ensures g[i] < 32
    {
      assert g[i] in g;
    }
  }

  /** And the quintets are the digits in base 32. */
  lemma QuintetsAreDigits(b: seq<byte>)
    ensures QUINTET * |Quintets(b)| >= 8 * |b|
    ensures FromDigits(Quintets(b), Pow2(QUINTET)) == BigEndian(b) * Pow2(QUINTET * |Quintets(b)| - 8 * |b|)
  {
    DigitsMean(b, Quintets(b), QUINTET);
  }

  // ----- what is decoded -----

  predicate InAlphabet(c: char) {
    exists v :: 0 <= v < 64 && Char64(v) == c
  }

  lemma ValueIsIndex(c: char)
    ensures Value64(c).Some? <==> InAlphabet(c)
  {
    if Value64(c).Some? {
      assert Char64(Value64(c).value) == c;
    }
    if v :| 0 <= v < 64 && Char64(v) == c {
      Value64OfChar64(v);
    }
  }

  ghost predicate AllInAlphabet(text: string) {
    forall i :: 0 <= i < |text| ==> InAlphabet(text[i])
  }

  lemma {:induction false} TextBitsIff(text: string)
    ensures TextBits(text, 6, Value64).Some? <==> AllInAlphabet(text)
  {
    if |text| == 0 {
    } else {
      ValueIsIndex(text[0]);
      TextBitsIff(text[1..]);
      assert text == [text[0]] + text[1..];
      assert forall i :: 0 <= i < |text| - 1 ==> text[1..][i] == text[i + 1];
    }
  }

  /** Characters of the alphabet, and at most two padding characters at the end. */
  ghost predicate PaddedAt(text: string, n: int) {
    && 0 <= n <= |text| <= n + 2
    && (forall i :: n <= i < |text| ==> text[i] == '=')
    && forall i :: 0 <= i < n ==> InAlphabet(text[i])
  }

  /** A text is decoded if and only if it is a multiple of four characters long and padded so. */
  lemma DecodesIff(text: string)
    ensures Decode64(text).Some? <==> |text| % 4 == 0 && exists n :: PaddedAt(text, n)
  {
    DecodedIsCore(text);
    TextBitsIff(StripPadding(text));
    CoreIff(text);
  }

  lemma CoreIff(text: string)
    ensures AllInAlphabet(StripPadding(text)) <==> exists n :: PaddedAt(text, n)
  {
    StrippedAt(text);
    if n :| PaddedAt(text, n) {
      StripsTo(text, n);
    }
    if AllInAlphabet(StripPadding(text)) {
      assert PaddedAt(text, |StripPadding(text)|);
    }
  }

  lemma DecodedIsCore(text: string)
    ensures Decode64(text).Some? <==> |text| % 4 == 0 && TextBits(StripPadding(text), 6, Value64).Some?
  {
  }

  lemma StripsTo(text: string, n: int)
    requires PaddedAt(text, n)
    ensures AllInAlphabet(StripPadding(text))
  {
    StrippedAt(text);
    NoPaddingInside();
  }

  lemma StrippedAt(text: string)
    ensures var core := StripPadding(text);
            && |core| <= |text| <= |core| + 2 && core == text[..|core|]
            && (forall i :: |core| <= i < |text| ==> text[i] == '=')
            && (|text| <= |core| + 1 && |core| > 0 ==> core[|core| - 1] != '=' || |core| == |text|)
            && (|core| == |text| > 0 ==> core[|core| - 1] != '=')
  {
  }

  lemma NoPaddingInside()
    ensures !InAlphabet('=')
  {
  }
}
