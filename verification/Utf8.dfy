/** UTF-8 encoding and validation, after CodePointToUtf8 and WideStringToUtf8 in gtest.cc and IsValidUTF8 in
    gtest-printers.cc. */
module Utf8 {
  import opened CStrings
  import Hexadecimal

  type byte = bv8

  // ---------- The encoding, after sections 3 and 4 of RFC 3629 ----------

  const MAX_CODE_POINT_1: bv32 := 0x7F
  const MAX_CODE_POINT_2: bv32 := 0x7FF
  const MAX_CODE_POINT_3: bv32 := 0xFFFF
  const MAX_CODE_POINT_4: bv32 := 0x1F_FFFF

  predicate IsSurrogate(c: bv32) { 0xD800 <= c <= 0xDFFF }

  /** The numbers that stand for characters. */
  predicate IsScalar(c: bv32) { c <= 0x10_FFFF && !IsSurrogate(c) }

  /** How many bytes encode a code point. */
  function LengthOf(c: bv32): (n: nat)
    ensures 1 <= n <= 4
  {
    if c <= MAX_CODE_POINT_1 then 1 else if c <= MAX_CODE_POINT_2 then 2 else if c <= MAX_CODE_POINT_3 then 3 else 4
  }

  predicate IsContinuation(b: byte) { b & 0xC0 == 0x80 }

  // The numbers that the bits of two, three and four bytes spell.
  function ValueOfTwo(a: byte, b: byte): bv32 {
    (((a & 0x1F) as bv32) << 6) | ((b & 0x3F) as bv32)
  }

  function ValueOfThree(a: byte, b: byte, d: byte): bv32 {
    (((a & 0x0F) as bv32) << 12) | (((b & 0x3F) as bv32) << 6) | ((d & 0x3F) as bv32)
  }

  function ValueOfFour(a: byte, b: byte, d: byte, e: byte): bv32 {
    (((a & 0x07) as bv32) << 18) | (((b & 0x3F) as bv32) << 12) | (((d & 0x3F) as bv32) << 6) | ((e & 0x3F) as bv32)
  }

  // The bit patterns of the lead byte, one for each length.
  predicate Two(a: byte, b: byte, c: bv32) {
    a & 0xE0 == 0xC0 && IsContinuation(b) && c == ValueOfTwo(a, b)
  }

  predicate Three(a: byte, b: byte, d: byte, c: bv32) {
    a & 0xF0 == 0xE0 && IsContinuation(b) && IsContinuation(d) && c == ValueOfThree(a, b, d)
  }

  predicate Four(a: byte, b: byte, d: byte, e: byte, c: bv32) {
    a & 0xF8 == 0xF0 && IsContinuation(b) && IsContinuation(d) && IsContinuation(e) && c == ValueOfFour(a, b, d, e)
  }

  /** The bytes are the shortest encoding of the number; section 3. */
  predicate Encodes(s: seq<byte>, c: bv32) {
    && |s| == LengthOf(c)
    && match |s|
       case 1 => s[0] as bv32 == c
       case 2 => Two(s[0], s[1], c)
       case 3 => Three(s[0], s[1], s[2], c)
       case _ => Four(s[0], s[1], s[2], s[3], c)
  }

  predicate IsTail(b: byte) { 0x80 <= b <= 0xBF }

  // The productions of section 4 for two, three and four bytes.
  predicate IsUtf8Two(a: byte, b: byte) { 0xC2 <= a <= 0xDF && IsTail(b) }

  predicate IsUtf8Three(a: byte, b: byte, d: byte) {
    || (a == 0xE0 && 0xA0 <= b <= 0xBF && IsTail(d))
    || (0xE1 <= a <= 0xEC && IsTail(b) && IsTail(d))
    || (a == 0xED && 0x80 <= b <= 0x9F && IsTail(d))
    || (0xEE <= a <= 0xEF && IsTail(b) && IsTail(d))
  }

  predicate IsUtf8Four(a: byte, b: byte, d: byte, e: byte) {
    || (a == 0xF0 && 0x90 <= b <= 0xBF && IsTail(d) && IsTail(e))
    || (0xF1 <= a <= 0xF3 && IsTail(b) && IsTail(d) && IsTail(e))
    || (a == 0xF4 && 0x80 <= b <= 0x8F && IsTail(d) && IsTail(e))
  }

  /** The grammar of one character. */
  predicate IsUtf8Char(s: seq<byte>) {
    match |s|
    case 1 => s[0] <= 0x7F
    case 2 => IsUtf8Two(s[0], s[1])
    case 3 => IsUtf8Three(s[0], s[1], s[2])
    case 4 => IsUtf8Four(s[0], s[1], s[2], s[3])
    case _ => false
  }

  function ValueOf(s: seq<byte>): bv32
    requires 1 <= |s| <= 4
  {
    match |s|
    case 1 => s[0] as bv32
    case 2 => ValueOfTwo(s[0], s[1])
    case 3 => ValueOfThree(s[0], s[1], s[2])
    case _ => ValueOfFour(s[0], s[1], s[2], s[3])
  }

  lemma CharOfTwo(a: byte, b: byte, c: bv32)
    requires c == ValueOfTwo(a, b)
    ensures IsUtf8Two(a, b) <==> IsScalar(c) && LengthOf(c) == 2 && Two(a, b, c)
  {
  }

  lemma CharOfThree(a: byte, b: byte, d: byte, c: bv32)
    requires c == ValueOfThree(a, b, d)
    ensures IsUtf8Three(a, b, d) <==> IsScalar(c) && LengthOf(c) == 3 && Three(a, b, d, c)
  {
  }

  lemma CharOfFour(a: byte, b: byte, d: byte, e: byte, c: bv32)
    requires c == ValueOfFour(a, b, d, e)
    ensures IsUtf8Four(a, b, d, e) <==> IsScalar(c) && LengthOf(c) == 4 && Four(a, b, d, e, c)
  {
  }

  lemma CharOfOne(a: byte)
    ensures a <= 0x7F <==> IsScalar(a as bv32) && LengthOf(a as bv32) == 1
  {
  }

  lemma CharIsEncoding(s: seq<byte>)
    requires 1 <= |s| <= 4
    ensures IsUtf8Char(s) <==> IsScalar(ValueOf(s)) && Encodes(s, ValueOf(s))
  {
    match |s|
    case 1 => CharOfOne(s[0]);
    case 2 => CharOfTwo(s[0], s[1], ValueOf(s));
    case 3 => CharOfThree(s[0], s[1], s[2], ValueOf(s));
    case _ => CharOfFour(s[0], s[1], s[2], s[3], ValueOf(s));
  }

  /** The grammar of section 4 describes exactly the encodings of section 3 of scalar values. */
  lemma GrammarMeetsEncoding(s: seq<byte>)
    ensures IsUtf8Char(s) <==> exists c :: IsScalar(c) && Encodes(s, c)
    ensures forall c :: Encodes(s, c) ==> 1 <= |s| <= 4 && c == ValueOf(s)
  {
    if 1 <= |s| <= 4 {
      CharIsEncoding(s);
    }
  }

  /** The lead byte tells the length. */
  lemma LeadTellsLength(s: seq<byte>, c: bv32)
    requires Encodes(s, c)
    ensures |s| == LengthByLead(s[0])
  {
    match |s|
    case 1 => OneByLead(s[0]);
    case 2 => TwoByLead(s[0]);
    case 3 => ThreeByLead(s[0]);
    case _ => FourByLead(s[0]);
  }

  function LengthByLead(a: byte): (n: nat)
    ensures 1 <= n <= 4
  {
    if a < 0xC0 then 1 else if a < 0xE0 then 2 else if a < 0xF0 then 3 else 4
  }

  lemma OneByLead(a: byte)
    requires a as bv32 <= 0x7F
    ensures a < 0xC0
  {
  }

  lemma TwoByLead(a: byte)
    requires a & 0xE0 == 0xC0
    ensures 0xC0 <= a < 0xE0
  {
  }

  lemma ThreeByLead(a: byte)
    requires a & 0xF0 == 0xE0
    ensures 0xE0 <= a < 0xF0
  {
  }

  lemma FourByLead(a: byte)
    requires a & 0xF8 == 0xF0
    ensures 0xF0 <= a
  {
  }

  // ---------- Texts ----------

  predicate AreScalars(cs: seq<bv32>) { forall k :: 0 <= k < |cs| ==> IsScalar(cs[k]) }

  /** The bytes are the encodings of the numbers, one after the other. */
  ghost predicate Decodes(s: seq<byte>, cs: seq<bv32>) {
    if cs == [] then s == []
    else
      var n := LengthOf(cs[0]);
      n <= |s| && Encodes(s[..n], cs[0]) && Decodes(s[n..], cs[1..])
  }

  /** The bytes are a text in UTF-8. */
  ghost predicate IsUtf8(s: seq<byte>) { exists cs :: AreScalars(cs) && Decodes(s, cs) }

  /** A text has one reading. */
  lemma {:induction false} OneReading(s: seq<byte>, cs: seq<bv32>, cs': seq<bv32>)
    requires Decodes(s, cs) && Decodes(s, cs')
    ensures cs == cs'
  {
    if cs != [] && cs' != [] {
      LeadTellsLength(s[..LengthOf(cs[0])], cs[0]);
      LeadTellsLength(s[..LengthOf(cs'[0])], cs'[0]);
      GrammarMeetsEncoding(s[..LengthOf(cs[0])]);
      OneReading(s[LengthOf(cs[0])..], cs[1..], cs'[1..]);
      assert cs == [cs[0]] + cs[1..] && cs' == [cs'[0]] + cs'[1..];
    }
  }

  /** Reading one character. */
  lemma CharThenText(s: seq<byte>, n: nat)
    requires n <= |s| && IsUtf8Char(s[..n])
    ensures n > 0 && (IsUtf8(s) <==> IsUtf8(s[n..]))
  {
    GrammarMeetsEncoding(s[..n]);
    var c :| IsScalar(c) && Encodes(s[..n], c);
    LeadTellsLength(s[..n], c);
    if IsUtf8(s) {
      var cs :| AreScalars(cs) && Decodes(s, cs);
      LeadTellsLength(s[..LengthOf(cs[0])], cs[0]);
      assert AreScalars(cs[1..]) && Decodes(s[n..], cs[1..]);
    }
    if IsUtf8(s[n..]) {
      var cs :| AreScalars(cs) && Decodes(s[n..], cs);
      assert ([c] + cs)[1..] == cs;
      assert AreScalars([c] + cs) && Decodes(s, [c] + cs);
    }
  }

  /** No text begins without a character. */
  lemma NoCharNoText(s: seq<byte>)
    requires s != [] && IsUtf8(s)
    ensures var n := LengthByLead(s[0]); n <= |s| && IsUtf8Char(s[..n])
  {
    var cs :| AreScalars(cs) && Decodes(s, cs);
    var n := LengthOf(cs[0]);
    LeadTellsLength(s[..n], cs[0]);
    GrammarMeetsEncoding(s[..n]);
  }

  predicate IsUTF8TrailByte(t: byte) { 0x80 <= t <= 0xBF }

  /** True exactly for texts in UTF-8. */
  method IsValidUTF8(s: seq<byte>) returns (valid: bool)
    ensures valid <==> IsUtf8(s)
  {
    assert s[0..] == s;
    var i := 0;
    while i < |s|
      invariant i <= |s| && (IsUtf8(s) <==> IsUtf8(s[i..]))
      decreases |s| - i
    {
      var lead := s[i];
      ghost var at := i;
      i := i + 1;
      if lead <= 0x7F {
        AdvanceBy(s, at, 1);
        continue;
      }
      if lead < 0xC2 {
        Stop(s, at);
        return false;
      } else if lead <= 0xDF && i + 1 <= |s| && IsUTF8TrailByte(s[i]) {
        i := i + 1;
        AdvanceBy(s, at, 2);
      } else if 0xE0 <= lead && lead <= 0xEF && i + 2 <= |s| && IsUTF8TrailByte(s[i]) && IsUTF8TrailByte(s[i + 1])
                && (lead != 0xE0 || s[i] >= 0xA0) && (lead != 0xED || s[i] < 0xA0) {
        i := i + 2;
        AdvanceBy(s, at, 3);
      } else if 0xF0 <= lead && lead <= 0xF4 && i + 3 <= |s| && IsUTF8TrailByte(s[i]) && IsUTF8TrailByte(s[i + 1])
                && IsUTF8TrailByte(s[i + 2]) && (lead != 0xF0 || s[i] >= 0x90) && (lead != 0xF4 || s[i] < 0x90) {
        i := i + 3;
        AdvanceBy(s, at, 4);
      } else {
        Stop(s, at);
        return false;
      }
    }
    assert AreScalars([]) && Decodes([], []);
    return true;
  }

  /** The character of n bytes at the position. */
  predicate CharAt(s: seq<byte>, i: nat, n: nat) {
    && i + n <= |s|
    && match n
       case 1 => s[i] <= 0x7F
       case 2 => IsUtf8Two(s[i], s[i + 1])
       case 3 => IsUtf8Three(s[i], s[i + 1], s[i + 2])
       case 4 => IsUtf8Four(s[i], s[i + 1], s[i + 2], s[i + 3])
       case _ => false
  }

  lemma AdvanceBy(s: seq<byte>, i: nat, n: nat)
    requires CharAt(s, i, n)
    ensures IsUtf8(s[i..]) <==> IsUtf8(s[i + n..])
  {
    var t := s[i..];
    assert forall k :: 0 <= k < n ==> t[..n][k] == s[i + k];
    assert t[n..] == s[i + n..];
    CharThenText(t, n);
  }

  lemma Stop(s: seq<byte>, i: nat)
    requires i < |s| && !CharAt(s, i, LengthByLead(s[i]))
    ensures !IsUtf8(s[i..])
  {
    if IsUtf8(s[i..]) {
      NoCharNoText(s[i..]);
    }
  }

  // ---------- Writing code points ----------

  /** Seven-bit characters as bytes. */
  function Ascii(text: string): (s: seq<byte>)
    requires forall k :: 0 <= k < |text| ==> text[k] <= '~'
    ensures |s| == |text| && forall k :: 0 <= k < |s| ==> s[k] <= 0x7F
  {
    seq(|text|, k requires 0 <= k < |text| => text[k] as bv8)
  }

  /** What is shown instead of a number that is too large. */
  function InvalidText(c: bv32): (s: seq<byte>)
    ensures s != [] && forall k :: 0 <= k < |s| ==> s[k] <= 0x7F
  {
    Hexadecimal.HexIsAscii(c as nat);
    Ascii("(Invalid Unicode 0x") + Ascii(Hexadecimal.HexText(c as nat)) + Ascii(")")
  }

  /** What a number is shown as: its encoding, but zero as nothing, as it ends a string. */
  ghost predicate Shows(s: seq<byte>, c: bv32) {
    if c == 0 then s == [] else if c <= MAX_CODE_POINT_4 then Encodes(s, c) else s == InvalidText(c)
  }

  /** The six bits that callers take off are less than 0x40, and with the rest they make up the number again. */
  lemma ChoppedBitsRejoin(bits: bv32, lowBits: bv32, rest: bv32)
    requires lowBits == bits & 0x3F && rest == bits >> 6
    ensures lowBits < 0x40 && bits == (rest << 6) | lowBits
  {
  }

  /** Takes the n lowest bits off. */
  method ChopLowBits(bits: bv32, n: bv32) returns (lowBits: bv32, rest: bv32)
    requires n < 32
    ensures lowBits == bits & ((1 << n) - 1) && rest == bits >> n
  {
    lowBits := bits & ((1 << n) - 1);
    rest := bits >> n;
  }

  // The bytes that are written, two, three and four at a time.
  lemma TwoBytes(c: bv32, low: bv32, rest: bv32)
    requires MAX_CODE_POINT_1 < c <= MAX_CODE_POINT_2 && low == c & 0x3F && rest == c >> 6
    ensures 0x80 | low <= 0xFF && 0xC0 | rest <= 0xFF
    ensures Two((0xC0 | rest) as byte, (0x80 | low) as byte, c)
  {
  }

  lemma ThreeBytes(c: bv32, low: bv32, mid: bv32, rest: bv32)
    requires MAX_CODE_POINT_2 < c <= MAX_CODE_POINT_3
    requires low == c & 0x3F && mid == (c >> 6) & 0x3F && rest == (c >> 6) >> 6
    ensures 0x80 | low <= 0xFF && 0x80 | mid <= 0xFF && 0xE0 | rest <= 0xFF
    ensures Three((0xE0 | rest) as byte, (0x80 | mid) as byte, (0x80 | low) as byte, c)
  {
  }

  lemma FourBytes(c: bv32, low: bv32, mid: bv32, high: bv32, rest: bv32)
    requires MAX_CODE_POINT_3 < c <= MAX_CODE_POINT_4
    requires low == c & 0x3F && mid == (c >> 6) & 0x3F && high == ((c >> 6) >> 6) & 0x3F && rest == ((c >> 6) >> 6) >> 6
    ensures 0x80 | low <= 0xFF && 0x80 | mid <= 0xFF && 0x80 | high <= 0xFF && 0xF0 | rest <= 0xFF
    ensures Four((0xF0 | rest) as byte, (0x80 | high) as byte, (0x80 | mid) as byte, (0x80 | low) as byte, c)
  {
  }

  lemma NoZeroInside(s: seq<byte>, c: bv32)
    requires Encodes(s, c) && c != 0
    ensures 0 !in s
  {
  }

  // The three longer branches of CodePointToUtf8, each followed by a NUL.
  method WriteTwo(str: array<byte>, codePoint: bv32)
    requires str.Length == 5 && MAX_CODE_POINT_1 < codePoint <= MAX_CODE_POINT_2
    modifies str
    ensures Two(str[0], str[1], codePoint) && str[2] == 0
  {
    str[2] := 0;
    var low, rest := ChopLowBits(codePoint, 6);
    TwoBytes(codePoint, low, rest);
    str[1] := (0x80 | low) as byte;
    str[0] := (0xC0 | rest) as byte;
  }

  method WriteThree(str: array<byte>, codePoint: bv32)
    requires str.Length == 5 && MAX_CODE_POINT_2 < codePoint <= MAX_CODE_POINT_3
    modifies str
    ensures Three(str[0], str[1], str[2], codePoint) && str[3] == 0
  {
    str[3] := 0;
    var low, bits := ChopLowBits(codePoint, 6);
    var mid, rest := ChopLowBits(bits, 6);
    ThreeBytes(codePoint, low, mid, rest);
    str[2] := (0x80 | low) as byte;
    str[1] := (0x80 | mid) as byte;
    str[0] := (0xE0 | rest) as byte;
  }

  method WriteFour(str: array<byte>, codePoint: bv32)
    requires str.Length == 5 && MAX_CODE_POINT_3 < codePoint <= MAX_CODE_POINT_4
    modifies str
    ensures Four(str[0], str[1], str[2], str[3], codePoint) && str[4] == 0
  {
    str[4] := 0;
    var low, bits := ChopLowBits(codePoint, 6);
    var mid, bits' := ChopLowBits(bits, 6);
    var high, rest := ChopLowBits(bits', 6);
    FourBytes(codePoint, low, mid, high, rest);
    str[3] := (0x80 | low) as byte;
    str[2] := (0x80 | mid) as byte;
    str[1] := (0x80 | high) as byte;
    str[0] := (0xF0 | rest) as byte;
  }

  /** Numbers above 0x1FFFFF, not those above 0x10FFFF, are shown as invalid. */
  method CodePointToUtf8(codePoint: bv32) returns (r: seq<byte>)
    ensures Shows(r, codePoint)
  {
    if codePoint > MAX_CODE_POINT_4 {
      return InvalidText(codePoint);
    }
    var str := new byte[5];
    if codePoint <= MAX_CODE_POINT_1 {
      str[1] := 0;
      str[0] := codePoint as byte;
    } else if codePoint <= MAX_CODE_POINT_2 {
      WriteTwo(str, codePoint);
    } else if codePoint <= MAX_CODE_POINT_3 {
      WriteThree(str, codePoint);
    } else {
      WriteFour(str, codePoint);
    }
    ReadBack(str[..], codePoint);
    r := CString(str[..], 0);
  }

  /** The string in the buffer. */
  lemma ReadBack(s: seq<byte>, c: bv32)
    requires LengthOf(c) < |s| && s[LengthOf(c)] == 0 && Encodes(s[..LengthOf(c)], c)
    ensures Shows(CString(s, 0), c)
  {
    var n := LengthOf(c);
    if c != 0 {
      NoZeroInside(s[..n], c);
      CStringIsPrefix(s, 0, n);
    }
  }

  lemma {:induction false} AsciiIsUtf8(s: seq<byte>)
    requires forall k :: 0 <= k < |s| ==> s[k] <= 0x7F
    ensures IsUtf8(s)
  {
    if s == [] {
      assert AreScalars([]) && Decodes(s, []);
    } else {
      AsciiIsUtf8(s[1..]);
      CharThenText(s, 1);
    }
  }

  /** What a number is shown as is valid UTF-8 except for surrogates and for what lies between
      the last code point and the largest number of four bytes. */
  lemma ShownValidity(s: seq<byte>, c: bv32)
    requires Shows(s, c)
    ensures IsUtf8(s) <==> !IsSurrogate(c) && !(0x10_FFFF < c <= MAX_CODE_POINT_4)
  {
    if c == 0 || c > MAX_CODE_POINT_4 {
      AsciiIsUtf8(s);
    } else {
      assert s[..|s|] == s && s[|s|..] == [];
      if IsScalar(c) {
        assert AreScalars([c]) && Decodes(s, [c]);
      }
      if IsUtf8(s) {
        var cs :| AreScalars(cs) && Decodes(s, cs);
        LeadTellsLength(s, c);
        LeadTellsLength(s[..LengthOf(cs[0])], cs[0]);
        GrammarMeetsEncoding(s);
      }
    }
  }

  // ---------- Wide strings ----------

  /** A lead surrogate followed by a trail surrogate, where wide characters have two bytes. */
  predicate IsUtf16SurrogatePair(twoBytes: bool, first: bv32, second: bv32) {
    twoBytes && (first & 0xFC00) == 0xD800 && (second & 0xFC00) == 0xDC00
  }

  function CreateCodePointFromUtf16SurrogatePair(twoBytes: bool, first: bv32, second: bv32): bv32 {
    if twoBytes then TwentyBits(first, second) + 0x1_0000 else first
  }

  function TwentyBits(first: bv32, second: bv32): bv32 {
    ((first & 0x3FF) << 10) | (second & 0x3FF)
  }

  function LeadSurrogate(u: bv32): bv32 { 0xD800 | (u >> 10) }

  function TrailSurrogate(u: bv32): bv32 { 0xDC00 | (u & 0x3FF) }

  /** The encoding of one code point, after section 2.1 of RFC 2781. */
  function Utf16(c: bv32): seq<bv32> {
    if c < 0x1_0000 then [c] else [LeadSurrogate(c - 0x1_0000), TrailSurrogate(c - 0x1_0000)]
  }

  function Utf16Text(cs: seq<bv32>): seq<bv32> {
    if cs == [] then [] else Utf16(cs[0]) + Utf16Text(cs[1..])
  }

  lemma SplitAndJoin(u: bv32)
    requires u <= 0xF_FFFF
    ensures IsUtf16SurrogatePair(true, LeadSurrogate(u), TrailSurrogate(u)) && LeadSurrogate(u) != 0
    ensures TwentyBits(LeadSurrogate(u), TrailSurrogate(u)) == u
  {
  }

  lemma AboveThePlane(c: bv32, u: bv32)
    requires 0x1_0000 <= c <= 0x10_FFFF && u == c - 0x1_0000
    ensures u <= 0xF_FFFF && u + 0x1_0000 == c
  {
  }

  lemma PairRoundTrip(c: bv32, u: bv32)
    requires 0x1_0000 <= c <= 0x10_FFFF && u == c - 0x1_0000
    ensures IsUtf16SurrogatePair(true, LeadSurrogate(u), TrailSurrogate(u)) && LeadSurrogate(u) != 0
    ensures CreateCodePointFromUtf16SurrogatePair(true, LeadSurrogate(u), TrailSurrogate(u)) == c
  {
    AboveThePlane(c, u);
    SplitAndJoin(u);
  }

  lemma ScalarIsNoLead(c: bv32, second: bv32)
    requires IsScalar(c) && c < 0x1_0000
    ensures !IsUtf16SurrogatePair(true, c, second)
  {
  }

  /** The numbers that the wide characters before the first NUL stand for; surrogates without
      a partner stand for themselves. */
  ghost function CodePointsOf(twoBytes: bool, units: seq<bv32>): seq<bv32> {
    if units == [] || units[0] == 0 then []
    else if |units| > 1 && IsUtf16SurrogatePair(twoBytes, units[0], units[1]) then
      [CreateCodePointFromUtf16SurrogatePair(twoBytes, units[0], units[1])] + CodePointsOf(twoBytes, units[2..])
    else [units[0]] + CodePointsOf(twoBytes, units[1..])
  }

  /** Well-formed UTF-16 stands for the code points that it encodes. */
  lemma {:induction false} Utf16RoundTrip(cs: seq<bv32>)
    requires AreScalars(cs) && 0 !in cs
    ensures CodePointsOf(true, Utf16Text(cs)) == cs
  {
    if cs != [] {
      assert cs[0] in cs;
      Utf16RoundTrip(cs[1..]);
      FirstScalar(cs[0], Utf16Text(cs[1..]));
    }
  }

  lemma FirstScalar(c: bv32, units: seq<bv32>)
    requires IsScalar(c) && c != 0
    ensures CodePointsOf(true, Utf16(c) + units) == [c] + CodePointsOf(true, units)
  {
    if c < 0x1_0000 {
      OneUnit(c, units);
    } else {
      TwoUnits(c, c - 0x1_0000, units);
    }
  }

  lemma OneUnit(c: bv32, units: seq<bv32>)
    requires IsScalar(c) && 0 < c < 0x1_0000
    ensures CodePointsOf(true, [c] + units) == [c] + CodePointsOf(true, units)
  {
    if units != [] { ScalarIsNoLead(c, units[0]); }
    assert ([c] + units)[1..] == units;
  }

  lemma TwoUnits(c: bv32, u: bv32, units: seq<bv32>)
    requires 0x1_0000 <= c <= 0x10_FFFF && u == c - 0x1_0000
    ensures CodePointsOf(true, [LeadSurrogate(u), TrailSurrogate(u)] + units) == [c] + CodePointsOf(true, units)
  {
    PairRoundTrip(c, u);
    assert ([LeadSurrogate(u), TrailSurrogate(u)] + units)[2..] == units;
  }

  /** Where wide characters have four bytes, they stand for themselves. */
  lemma {:induction false} Utf32RoundTrip(cs: seq<bv32>)
    requires 0 !in cs
    ensures CodePointsOf(false, cs) == cs
  {
    if cs != [] {
      Utf32RoundTrip(cs[1..]);
    }
  }

  function Concat(pieces: seq<seq<byte>>): seq<byte> {
    if pieces == [] then [] else pieces[0] + Concat(pieces[1..])
  }

  lemma {:induction false} ConcatOneMore(pieces: seq<seq<byte>>, piece: seq<byte>)
    ensures Concat(pieces + [piece]) == Concat(pieces) + piece
  {
    if pieces == [] {
      assert [piece][1..] == [];
    } else {
      ConcatOneMore(pieces[1..], piece);
      assert (pieces + [piece])[1..] == pieces[1..] + [piece];
    }
  }

  ghost predicate ShowsEach(pieces: seq<seq<byte>>, cs: seq<bv32>) {
    |pieces| == |cs| && forall k :: 0 <= k < |cs| ==> Shows(pieces[k], cs[k])
  }

  /** The bytes show the numbers, one after the other. */
  ghost predicate ShowsAll(s: seq<byte>, cs: seq<bv32>) {
    exists pieces :: ShowsEach(pieces, cs) && s == Concat(pieces)
  }

  /** Showing code points other than NUL is encoding them as a text. */
  lemma {:induction false} PiecesAreText(pieces: seq<seq<byte>>, cs: seq<bv32>)
    requires ShowsEach(pieces, cs) && AreScalars(cs) && 0 !in cs
    ensures Decodes(Concat(pieces), cs)
  {
    if cs != [] {
      PiecesAreText(pieces[1..], cs[1..]);
      var s := Concat(pieces);
      assert Shows(pieces[0], cs[0]);
      assert s[..|pieces[0]|] == pieces[0] && s[|pieces[0]|..] == Concat(pieces[1..]);
    }
  }

  /** The position of the first NUL. */
  function WcsLenOf(str: seq<bv32>): (n: nat)
    requires 0 in str
    ensures n < |str| && str[n] == 0 && 0 !in str[..n]
  {
    if str[0] == 0 then 0
    else
      var n := 1 + WcsLenOf(str[1..]);
      assert str[..n] == [str[0]] + str[1..][..n - 1];
      n
  }

  /** The wide characters to convert: those before the NUL, or at most so many, which may be none. */
  function Limited(str: seq<bv32>, numChars: int): seq<bv32>
    requires numChars == -1 ==> 0 in str
  {
    if numChars == -1 then str[..WcsLenOf(str)]
    else if numChars < 0 then []
    else if numChars > |str| then str
    else str[..numChars]
  }

  /** Takes the next code point, one unit or two: the choice in the body of the loop. */
  method NextCodePoint(twoBytes: bool, str: seq<bv32>, i: nat, count: int, ghost units: seq<bv32>,
                       ghost done: seq<bv32>)
    returns (unicodeCodePoint: bv32, next: nat)
    requires units <= str && i < |units| && (i + 1 < count ==> i + 1 < |str|) && str[i] != 0
    requires i + 1 < count <==> i + 1 < |units|
    ensures i < next <= |units| && forall k :: i <= k < next ==> str[k] != 0
    ensures done + CodePointsOf(twoBytes, units[i..]) ==
            done + [unicodeCodePoint] + CodePointsOf(twoBytes, units[next..])
  {
    FirstCodePoint(twoBytes, units, i, done);
    if i + 1 < count && IsUtf16SurrogatePair(twoBytes, str[i], str[i + 1]) {
      TrailIsNoNul(twoBytes, str[i], str[i + 1]);
      unicodeCodePoint := CreateCodePointFromUtf16SurrogatePair(twoBytes, str[i], str[i + 1]);
      next := i + 2;
    } else {
      unicodeCodePoint := str[i];
      next := i + 1;
    }
  }

  /** Converts a wide string with its NUL, or so many wide characters. */
  method WideStringToUtf8(twoBytes: bool, str: seq<bv32>, numChars: int) returns (r: seq<byte>)
    requires 0 in str || (numChars != -1 && numChars <= |str|)
    ensures ShowsAll(r, CodePointsOf(twoBytes, Limited(str, numChars)))
  {
    var count := if numChars == -1 then WcsLenOf(str) else numChars;
    r := [];
    ghost var units, done: seq<bv32>, pieces: seq<seq<byte>> := Limited(str, numChars), [], [];
    assert units[0..] == units;
    var i := 0;
    while i < count
      invariant 0 <= i <= |units| && forall k :: 0 <= k < i ==> str[k] != 0
      invariant ShowsEach(pieces, done) && r == Concat(pieces)
      invariant CodePointsOf(twoBytes, units) == done + CodePointsOf(twoBytes, units[i..])
      decreases count - i
    {
      if str[i] == 0 {
        FirstCodePoint(twoBytes, units, i, done);
        break;
      }
      var unicodeCodePoint;
      unicodeCodePoint, i := NextCodePoint(twoBytes, str, i, count, units, done);
      var shown := CodePointToUtf8(unicodeCodePoint);
      ConcatOneMore(pieces, shown);
      r := r + shown;
      done, pieces := done + [unicodeCodePoint], pieces + [shown];
    }
    assert ShowsEach(pieces, CodePointsOf(twoBytes, units));
  }

  lemma FirstCodePoint(twoBytes: bool, units: seq<bv32>, i: nat, done: seq<bv32>)
    requires i < |units|
    ensures done + CodePointsOf(twoBytes, units[i..]) ==
      if units[i] == 0 then done
      else if i + 1 < |units| && IsUtf16SurrogatePair(twoBytes, units[i], units[i + 1]) then
        done + [CreateCodePointFromUtf16SurrogatePair(twoBytes, units[i], units[i + 1])]
        + CodePointsOf(twoBytes, units[i + 2..])
      else done + [units[i]] + CodePointsOf(twoBytes, units[i + 1..])
  {
    assert units[i..][1..] == units[i + 1..];
    if units[i] == 0 {
    } else if i + 1 < |units| && IsUtf16SurrogatePair(twoBytes, units[i], units[i + 1]) {
      assert units[i..][2..] == units[i + 2..];
      OneMore(done, CreateCodePointFromUtf16SurrogatePair(twoBytes, units[i], units[i + 1]),
              CodePointsOf(twoBytes, units[i + 2..]));
    } else {
      OneMore(done, units[i], CodePointsOf(twoBytes, units[i + 1..]));
    }
  }

  lemma OneMore<T>(a: seq<T>, x: T, b: seq<T>)
    ensures a + ([x] + b) == a + [x] + b
  {
  }

  lemma TrailIsNoNul(twoBytes: bool, first: bv32, second: bv32)
    requires IsUtf16SurrogatePair(twoBytes, first, second)
    ensures second != 0
  {
  }

  /** A wide string that encodes code points converts to the text of just these code points. */
  lemma WideKeepsCodePoints(twoBytes: bool, cs: seq<bv32>, r: seq<byte>)
    requires AreScalars(cs) && 0 !in cs
    requires ShowsAll(r, CodePointsOf(twoBytes, Limited((if twoBytes then Utf16Text(cs) else cs) + [0], -1)))
    ensures Decodes(r, cs) && IsUtf8(r)
  {
    NoNulUnits(cs);
    FirstNul(if twoBytes then Utf16Text(cs) else cs);
    Utf16RoundTrip(cs);
    Utf32RoundTrip(cs);
    var pieces :| ShowsEach(pieces, cs) && r == Concat(pieces);
    PiecesAreText(pieces, cs);
  }

  lemma {:induction false} NoNulUnits(cs: seq<bv32>)
    requires AreScalars(cs) && 0 !in cs
    ensures 0 !in Utf16Text(cs)
  {
    if cs != [] {
      assert cs[0] in cs;
      NoNulUnits(cs[1..]);
      NoNulUnit(cs[0]);
    }
  }

  lemma NoNulUnit(c: bv32)
    requires IsScalar(c) && c != 0
    ensures 0 !in Utf16(c)
  {
    if c >= 0x1_0000 {
      PairRoundTrip(c, c - 0x1_0000);
      TrailIsNoNul(true, LeadSurrogate(c - 0x1_0000), TrailSurrogate(c - 0x1_0000));
    }
  }

  lemma FirstNul(units: seq<bv32>)
    requires 0 !in units
    ensures (units + [0])[..WcsLenOf(units + [0])] == units
  {
    var n, str := WcsLenOf(units + [0]), units + [0];
    assert str[..n] == units[..n];
  }
}
