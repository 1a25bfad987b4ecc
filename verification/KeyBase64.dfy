/** The Base64 half of the class `Wireguard`: keys to text and back. */
module KeyBase64 {
  import opened Arith
  import opened JsNumber
  import opened Options
  import opened Rfc4648

  /** The character code for a sextet, as the program computes it. */
  function CodeOf(v: nat): int {
    v + 65 + BitAnd(Sar(25 - v, 8), 6) - BitAnd(Sar(51 - v, 8), 75)
    - BitAnd(Sar(61 - v, 8), 15) + BitAnd(Sar(62 - v, 8), 3)
  }

  /** The arithmetic on the code is right for all 64 sextets. */
  lemma CodeOfIsAlphabet(v: nat)
    requires v < 64
    ensures CodeOf(v) == Char64(v) as int
    ensures ToUint8(CodeOf(v)) == Char64(v) as int
  {
    StepsOfCode(v);
    StepsOfAlphabet(v);
    InOctet(Char64(v) as int);
  }

  lemma StepsOfCode(v: nat)
    requires v < 64
    ensures CodeOf(v) == v + 65 + (if v > 25 then 6 else 0) - (if v > 51 then 75 else 0)
                           - (if v > 61 then 15 else 0) + (if v > 62 then 3 else 0)
  {
    MaskIfNegative(25 - v, 6);
    MaskIfNegative(51 - v, 75);
    MaskIfNegative(61 - v, 15);
    MaskIfNegative(62 - v, 3);
  }

  lemma StepsOfAlphabet(v: nat)
    requires v < 64
    ensures v + 65 + (if v > 25 then 6 else 0) - (if v > 51 then 75 else 0)
              - (if v > 61 then 15 else 0) + (if v > 62 then 3 else 0) == Char64(v) as int < 128
  {
  }

  lemma MaskIfNegative(x: int, mask: int)
    requires -256 <= x < 256 && 0 <= mask < 256
    ensures BitAnd(Sar(x, 8), mask) == (if x < 0 then mask else 0)
  {
    Pow2Values();
    assert ToInt32(x) == x && ToInt32(0) == 0 && ToInt32(-1) == -1 && ToInt32(mask) == mask;
    assert Sar(x, 8) == (if x < 0 then -1 else 0);
  }

  /** The four sextets of the 24 bits of three octets. */
  function FourSextets(x: byte, y: byte, z: byte): (g: seq<byte>)
    ensures |g| == 4 && forall i :: 0 <= i < 4 ==> g[i] < 64
  {
    [x / 4, x % 4 * 16 + y / 16, y % 16 * 4 + z / 64, z % 64]
  }

  lemma FirstSextet(x: byte)
    ensures BitAnd(Sar(x, 2), 63) == x / 4
  {
    ShiftsOfOctet(x);
    MaskSix(x / 4);
    QuarterOctet(x);
  }

  lemma QuarterOctet(x: byte)
    ensures x / 4 % 64 == x / 4
  {
  }

  lemma JoinedSextet(x: byte, y: byte, k: nat)
    requires k == 4 || k == 2
    ensures BitAnd(BitOr(Shl(x, k), Sar(y, 8 - k)), 63)
         == (if k == 4 then x % 4 * 16 + y / 16 else x % 16 * 4 + y / 64)
  {
    SmallPowers();
    ShiftsOfOctet(x);
    ShiftsOfOctet(y);
    var low := if k == 4 then y / 16 else y / 64;
    JoinShifted(x, low, k);
    MaskJoined(x, low, k);
  }

  lemma MaskJoined(x: byte, low: int, k: nat)
    requires k == 4 || k == 2
    requires 0 <= low < Pow2(k)
    ensures BitAnd(x * Pow2(k) + low, 63) == (if k == 4 then x % 4 * 16 + low else x % 16 * 4 + low)
  {
    SmallPowers();
    MaskSix(x * Pow2(k) + low);
    LowBits(x, low, Pow2(k));
  }

  lemma SmallPowers()
    ensures Pow2(2) == 4 && Pow2(4) == 16 && Pow2(6) == 64
  {
  }

  lemma ShiftsOfOctet(x: byte)
    ensures Sar(x, 2) == x / 4 && Sar(x, 4) == x / 16 && Sar(x, 6) == x / 64
    ensures Shl(x, 4) == 16 * x && Shl(x, 2) == 4 * x
  {
    SmallPowers();
    assert ToInt32(x) == x && ToInt32(16 * x) == 16 * x && ToInt32(4 * x) == 4 * x;
  }

  lemma MaskSix(x: int)
    ensures BitAnd(x, 63) == x % 64
  {
    SmallPowers();
    BitAndMask(x, 6);
  }

  lemma JoinShifted(x: byte, low: int, k: nat)
    requires k <= 4 && 0 <= low < Pow2(k)
    ensures BitOr(x * Pow2(k), low) == x * Pow2(k) + low
  {
    SmallPowers();
    Pow2Monotone(k, 4);
    MulLe(x, Pow2(k), 16);
    assert ToInt32(x * Pow2(k)) == x * Pow2(k) && ToInt32(low) == low;
    OrDisjoint(x, low, k);
  }

  lemma LowBits(x: byte, low: int, m: int)
    requires m == 16 || m == 4
    requires 0 <= low < m
    ensures m == 16 ==> (x * m + low) % 64 == x % 4 * 16 + low
    ensures m == 4 ==> (x * m + low) % 64 == x % 16 * 4 + low
  {
    if m == 16 {
      DivModUnique(16 * x + low, 64, x / 4, x % 4 * 16 + low);
    } else {
      DivModUnique(4 * x + low, 64, x / 16, x % 16 * 4 + low);
    }
  }

  // ----- the program's sextets are the groups of the bit stream -----

  lemma BlockGroups(x: byte, y: byte, z: byte)
    ensures Groups(Stream([x, y, z]), 6) == FourSextets(x, y, z)
  {
    var b0, b1, b2 := Bits(x, 8), Bits(y, 8), Bits(z, 8);
    StreamOfThree(x, y, z);
    FourGroups(b0[..6], b0[6..] + b1[..4], b1[4..] + b2[..2], b2[2..], 6);
    SmallPowers();
    SplitOctet(x, 2);
    SplitOctet(z, 6);
    JoinNumbers(x, 2, y, 4);
    JoinNumbers(y, 4, z, 2);
  }

  lemma FourGroups(g0: seq<bool>, g1: seq<bool>, g2: seq<bool>, g3: seq<bool>, w: nat)
    requires |g0| == |g1| == |g2| == |g3| == w > 0
    ensures Groups(g0 + (g1 + (g2 + (g3 + []))), w) == [Number(g0), Number(g1), Number(g2), Number(g3)]
  {
    var t3 := g3 + [];
    var t2 := g2 + t3;
    var t1 := g1 + t2;
    CutGroup(g3, [], w);
    CutGroup(g2, t3, w);
    CutGroup(g1, t2, w);
    CutGroup(g0, t1, w);
  }

  /** A group made of the k low bits of one octet and the high bits of the next. */
  lemma JoinNumbers(x: byte, k: nat, y: byte, j: nat)
    requires k <= 8 && j <= 8
    ensures Number(Bits(x, 8)[8 - k..] + Bits(y, 8)[..j]) == x % Pow2(k) * Pow2(j) + y / Pow2(8 - j)
  {
    SplitOctet(x, k);
    SplitOctet(y, 8 - j);
    NumberConcat(Bits(x, 8)[8 - k..], Bits(y, 8)[..j]);
  }

  lemma StreamOfThree(x: byte, y: byte, z: byte)
    ensures var b0, b1, b2 := Bits(x, 8), Bits(y, 8), Bits(z, 8);
            Stream([x, y, z]) == b0[..6] + ((b0[6..] + b1[..4]) + ((b1[4..] + b2[..2]) + (b2[2..] + [])))
  {
    var b0, b1, b2 := Bits(x, 8), Bits(y, 8), Bits(z, 8);
    assert [x, y, z][1..] == [y, z] && [y, z][1..] == [z];
    assert Stream([z]) == b2 + [];
    assert b0[..6] + b0[6..] == b0 && b1[..4] + b1[4..] == b1 && b2[..2] + b2[2..] == b2;
    Regroup(b0[..6], b0[6..], b1[..4], b1[4..], b2[..2], b2[2..]);
  }

  lemma Regroup(a: seq<bool>, b: seq<bool>, c: seq<bool>, d: seq<bool>, e: seq<bool>, f: seq<bool>)
    ensures (a + b) + ((c + d) + ((e + f) + [])) == a + ((b + c) + ((d + e) + (f + [])))
  {
    assert (c + d) + ((e + f) + []) == c + ((d + e) + (f + []));
  }

  lemma CutGroup(first: seq<bool>, rest: seq<bool>, w: nat)
    requires |first| == w > 0
    ensures Groups(first + rest, w) == [Number(first)] + Groups(rest, w)
  {
    assert (first + rest)[..w] == first && (first + rest)[w..] == rest;
  }

  /** The high and the low part of an octet's bits. */
  lemma SplitOctet(x: byte, k: nat)
    requires k <= 8
    ensures Number(Bits(x, 8)[8 - k..]) == x % Pow2(k)
    ensures Number(Bits(x, 8)[..8 - k]) == x / Pow2(k)
  {
    Pow2Values();
    var b := Bits(x, 8);
    NumberBits(x, 8);
    assert b == b[..8 - k] + b[8 - k..];
    NumberConcat(b[..8 - k], b[8 - k..]);
    NumberBelow(b[8 - k..]);
    DivModUnique(x, Pow2(k), Number(b[..8 - k]), Number(b[8 - k..]));
  }

  // ----- the methods -----

  /** The array `input` of `encodeBase64`. */
  function InputOctets(x: byte, y: byte, z: byte): (g: seq<byte>)
    ensures |g| == 4
  {
    [ToUint8(BitAnd(Sar(x, 2), 63)), ToUint8(BitAnd(BitOr(Shl(x, 4), Sar(y, 4)), 63)),
     ToUint8(BitAnd(BitOr(Shl(y, 2), Sar(z, 6)), 63)), ToUint8(BitAnd(z, 63))]
  }

  lemma InputIsSextets(x: byte, y: byte, z: byte)
    ensures InputOctets(x, y, z) == FourSextets(x, y, z)
  {
    FirstSextet(x);
    JoinedSextet(x, y, 4);
    JoinedSextet(y, z, 2);
    MaskSix(z);
    StoredOctets(FourSextets(x, y, z), BitAnd(Sar(x, 2), 63), BitAnd(BitOr(Shl(x, 4), Sar(y, 4)), 63),
                 BitAnd(BitOr(Shl(y, 2), Sar(z, 6)), 63), BitAnd(z, 63));
  }

  lemma StoredOctets(g: seq<byte>, a: int, b: int, c: int, d: int)
    requires |g| == 4 && a == g[0] && b == g[1] && c == g[2] && d == g[3]
    ensures [ToUint8(a), ToUint8(b), ToUint8(c), ToUint8(d)] == g
  {
    InOctet(a);
    InOctet(b);
    InOctet(c);
    InOctet(d);
  }

  lemma InOctet(v: int)
    requires 0 <= v < 256
    ensures ToUint8(v) == v
  {
  }

  /** The sextets of three octets from index k on; octets beyond the end read as 0. */
  function Block(s: seq<byte>, k: nat): (g: seq<byte>)
    ensures |g| == 4 && forall i :: 0 <= i < 4 ==> g[i] < 64
  {
    FourSextets(ReadOctet(s, k), ReadOctet(s, k + 1), ReadOctet(s, k + 2))
  }

  /** One store of `encodeBase64`. */
  method StoreCode(dest: array<byte>, j: nat, v: byte)
    requires v < 64
    modifies dest
    ensures j < dest.Length ==> dest[..] == old(dest[..])[j := Char64(v) as int]
    ensures j >= dest.Length ==> dest[..] == old(dest[..])
  {
    CodeOfIsAlphabet(v);
    if j < dest.Length {
      dest[j] := ToUint8(CodeOf(v));
    }
  }

  /** `encodeBase64(dest.subarray(d), src.subarray(k))`: stores beyond the end of dest are dropped. */
  method EncodeBase64(dest: array<byte>, d: nat, src: array<byte>, k: nat)
    modifies dest
    ensures forall i :: 0 <= i < 4 && d + i < dest.Length ==> dest[d + i] == Char64(Block(old(src[..]), k)[i]) as int
    ensures forall j :: 0 <= j < dest.Length && !(d <= j < d + 4) ==> dest[j] == old(dest[j])
  {
    var x, y, z := ReadOctet(src[..], k), ReadOctet(src[..], k + 1), ReadOctet(src[..], k + 2);
    InputIsSextets(x, y, z);
    ghost var g := Block(src[..], k);
    var input := InputOctets(x, y, z);
    assert input == g;
    for i := 0 to 4
      invariant forall j :: 0 <= j < i && d + j < dest.Length ==> dest[d + j] == Char64(g[j]) as int
      invariant forall j :: 0 <= j < dest.Length && !(d <= j < d + i) ==> dest[j] == old(dest[j])
    {
      StoreCode(dest, d + i, input[i]);
    }
  }

  /** The text whose character codes are the given octets. */
  function FromCharCodes(s: seq<byte>): (t: string)
    ensures |t| == |s|
  {
    seq(|s|, i requires 0 <= i < |s| => s[i] as char)
  }

  /** The code of character j of the encoding. */
  ghost predicate Encoded(code: int, key: seq<byte>, j: nat) {
    code == Char64(Block(key, 3 * (j / 4))[j % 4]) as int
  }

  /**
   The text is the encoding of the 32 octets read, except for a longer key whose octet 32 has one of
   its two upper bits set: the eleventh group reads that octet.
   */
  method KeyToBase64(key: array<byte>) returns (text: string)
    ensures key.Length == 32 ==> text == Base64(key[..])
    ensures text == Base64(Octets32(key[..])) <==> key.Length <= 32 || key[32] < 64
  {
    var base64 := new byte[44](_ => 0);
    var i := 0;
    while 3 * i < 32
      invariant i <= 11
      invariant forall j :: 0 <= j < 4 * i ==> Encoded(base64[j], key[..], j)
    {
      ghost var s := base64[..];
      EncodeBase64(base64, 4 * i, key, 3 * i);
      NextBlock(s, base64[..], key[..], i);
      i := i + 1;
    }
    var last := new byte[3](_ => 0);
    last[0], last[1] := ReadOctet(key[..], i * 3), ReadOctet(key[..], i * 3 + 1);
    EncodeBase64(base64, 4 * i, last, 0);
    base64[43] := 61;
    text := FromCharCodes(base64[..]);
    KeyText(key[..], text);
  }

  lemma NextBlock(s: seq<byte>, s': seq<byte>, key: seq<byte>, i: nat)
    requires |s| == |s'| == 44 && i < 11
    requires forall j :: 0 <= j < 4 * i ==> Encoded(s[j], key, j)
    requires forall j :: 0 <= j < 4 && 4 * i + j < 44 ==> s'[4 * i + j] == Char64(Block(key, 3 * i)[j]) as int
    requires forall j :: 0 <= j < 44 && !(4 * i <= j < 4 * i + 4) ==> s'[j] == s[j]
    ensures forall j :: 0 <= j < 4 * (i + 1) ==> Encoded(s'[j], key, j)
  {
    forall j | 0 <= j < 4 * (i + 1)
      ensures Encoded(s'[j], key, j)
    {
      if j >= 4 * i {
        var j' := j - 4 * i;
        assert j / 4 == i && j % 4 == j';
        assert s'[4 * i + j'] == Char64(Block(key, 3 * i)[j']) as int;
      }
    }
  }

  /** `atob` is the decoder of RFC 4648; a text that it rejects makes it throw, and ok is false. */
  method KeyFromBase64(encoded: string) returns (ok: bool, bytes: array<byte>)
    ensures ok == Decode64(encoded).Some?
    ensures ok ==> Some(bytes[..]) == Decode64(encoded)
    ensures fresh(bytes)
  {
    match Decode64(encoded) {
      case None =>
        ok, bytes := false, new byte[0];
      case Some(s) =>
        var binaryStr := FromCharCodes(s);
        bytes := new byte[|binaryStr|](_ => 0);
        for i := 0 to |binaryStr|
          invariant bytes[..i] == s[..i]
        {
          InOctet(s[i]);
          bytes[i] := ToUint8(binaryStr[i] as int);
        }
        assert bytes[..] == s;
        ok := true;
    }
  }

  /** The i-th block of four characters comes from the i-th three octets. */
  lemma {:induction false} SextetsByBlock(b: seq<byte>, j: nat)
    requires j < |Sextets(b)|
    ensures 3 * (j / 4) < |b|
    ensures Sextets(b)[j] == Block(b, 3 * (j / 4))[j % 4]
    decreases |b|
  {
    if |b| >= 3 {
      CutBlock(b);
      if j >= 4 {
        SextetsByBlock(b[3..], j - 4);
        assert 3 * (j / 4) == 3 * ((j - 4) / 4) + 3 && j % 4 == (j - 4) % 4;
        ShiftedBlock(b, 3 * ((j - 4) / 4));
      }
    } else {
      ShortBlock(b);
    }
  }

  lemma CutBlock(b: seq<byte>)
    requires |b| >= 3
    ensures Sextets(b) == Block(b, 0) + Sextets(b[3..])
  {
    assert b == b[..3] + b[3..] && b[..3] == [b[0], b[1], b[2]];
    StreamConcat(b[..3], b[3..]);
    BlockGroups(b[0], b[1], b[2]);
    GroupsConcat(Stream(b[..3]), Stream(b[3..]), 6);
  }

  lemma ShiftedBlock(b: seq<byte>, k: nat)
    requires |b| >= 3
    ensures Block(b[3..], k) == Block(b, k + 3)
  {
  }

  /** One or two octets at the end: the block with zero octets in their place begins with their groups. */
  lemma ShortBlock(b: seq<byte>)
    requires |b| < 3
    ensures |Sextets(b)| == (if |b| == 0 then 0 else |b| + 1)
    ensures forall j :: 0 <= j < |Sextets(b)| ==> Sextets(b)[j] == Block(b, 0)[j]
  {
    if |b| == 1 {
      OneOctet(b[0]);
      assert b == [b[0]];
    } else if |b| == 2 {
      TwoOctets(b[0], b[1]);
      assert b == [b[0], b[1]];
    }
  }

  lemma OneOctet(x: byte)
    ensures Groups(Stream([x]), 6) == [x / 4, x % 4 * 16]
  {
    var b0 := Bits(x, 8);
    assert Stream([x]) == b0 + [] == b0;
    CutGroup(b0[..6], b0[6..], 6);
    assert b0[..6] + b0[6..] == b0;
    SplitOctet(x, 2);
    NumberConcat(b0[6..], Zeros(4));
    SmallPowers();
    assert Groups(b0[6..], 6) == [Number(b0[6..] + Zeros(4))];
    NumberOfZeros(4);
  }

  lemma TwoOctets(x: byte, y: byte)
    ensures Groups(Stream([x, y]), 6) == [x / 4, x % 4 * 16 + y / 16, y % 16 * 4]
  {
    var b0, b1 := Bits(x, 8), Bits(y, 8);
    assert Stream([x, y]) == b0 + b1 by {
      assert [x, y][1..] == [y];
      assert Stream([y]) == b1 + [];
    }
    assert Stream([x, y]) == b0[..6] + ((b0[6..] + b1[..4]) + b1[4..]);
    CutGroup(b0[..6], (b0[6..] + b1[..4]) + b1[4..], 6);
    CutGroup(b0[6..] + b1[..4], b1[4..], 6);
    SplitOctet(x, 2);
    SplitOctet(y, 4);
    JoinNumbers(x, 2, y, 4);
    NumberConcat(b1[4..], Zeros(2));
    SmallPowers();
    assert Groups(b1[4..], 6) == [Number(b1[4..] + Zeros(2))];
    NumberOfZeros(2);
  }

  lemma KeyText(key: seq<byte>, text: string)
    requires |text| == 44
    requires forall j :: 0 <= j < 43 ==> Encoded(text[j] as int, key, j)
    requires text[43] == '='
    ensures text == Base64(Octets32(key)) <==> ReadOctet(key, 32) < 64
  {
    var k := Octets32(key);
    EncodedKey(k);
    forall j | 0 <= j < 42
      ensures text[j] == Base64(k)[j]
    {
      SameSextet(key, j);
    }
    LastSextet(key);
    assert Encoded(text[42] as int, key, 42);
  }

  /** The characters of 32 octets, by blocks. */
  lemma EncodedKey(k: seq<byte>)
    requires |k| == 32
    ensures |Base64(k)| == 44 && Base64(k)[43] == '='
    ensures forall j :: 0 <= j < 43 ==> Base64(k)[j] == Char64(Block(k, 3 * (j / 4))[j % 4])
  {
    GroupsLength(Stream(k), 6);
    forall j | 0 <= j < 43
      ensures Base64(k)[j] == Char64(Block(k, 3 * (j / 4))[j % 4])
    {
      SextetsByBlock(k, j);
    }
  }

  /** Character 42 shows the two upper bits of an octet 32. */
  lemma LastSextet(key: seq<byte>)
    ensures Char64(Block(key, 3 * (42 / 4))[42 % 4]) == Char64(Block(Octets32(key), 3 * (42 / 4))[42 % 4])
            <==> ReadOctet(key, 32) < 64
  {
    CharsDiffer(Block(key, 30)[2], Block(Octets32(key), 30)[2]);
  }

  lemma SameSextet(key: seq<byte>, j: nat)
    requires j < 42
    ensures Block(key, 3 * (j / 4))[j % 4] == Block(Octets32(key), 3 * (j / 4))[j % 4]
  {
  }

  lemma CharsDiffer(v: nat, w: nat)
    requires v < 64 && w < 64
    ensures Char64(v) == Char64(w) <==> v == w
  {
    Value64OfChar64(v);
    Value64OfChar64(w);
  }
}
