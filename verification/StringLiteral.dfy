/** Printing byte strings as C++ string literals, after PrintCharsAsStringTo in gtest-printers.cc, and reading
    them back. */
module StringLiteral {
  import opened Collections
  import opened Hexadecimal
  import opened Wrappers

  // ---------- Printing ----------

  datatype CharFormat = AsIs | HexEscape | SpecialEscape

  // The text of one character and how it was formatted.
  datatype Piece = Piece(text: string, format: CharFormat)

  predicate AreBytes(b: string) { forall k :: 0 <= k < |b| ==> b[k] as int < 256 }

  predicate IsPrintableAscii(c: char) { 0x20 <= c as int <= 0x7E }

  function PrintAsCharLiteralTo(c: char): Piece {
    match c as int
    case 0x00 => Piece("\\0", SpecialEscape)
    case 0x27 => Piece("\\'", SpecialEscape)
    case 0x5C => Piece("\\\\", SpecialEscape)
    case 0x07 => Piece("\\a", SpecialEscape)
    case 0x08 => Piece("\\b", SpecialEscape)
    case 0x0C => Piece("\\f", SpecialEscape)
    case 0x0A => Piece("\\n", SpecialEscape)
    case 0x0D => Piece("\\r", SpecialEscape)
    case 0x09 => Piece("\\t", SpecialEscape)
    case 0x0B => Piece("\\v", SpecialEscape)
    case _ => if IsPrintableAscii(c) then Piece([c], AsIs) else Piece("\\x" + HexText(c as nat), HexEscape)
  }

  function PrintAsStringLiteralTo(c: char): Piece {
    match c
    case '\'' => Piece("'", AsIs)
    case '"' => Piece("\\\"", SpecialEscape)
    case _ => PrintAsCharLiteralTo(c)
  }

  // Ends one literal and begins the next.
  const BREAK := "\" \""

  /** The text between the outer quotes. */
  function Body(b: string, isPreviousHex: bool): string {
    if b == "" then ""
    else
      var piece := PrintAsStringLiteralTo(b[0]);
      var text := piece.text + Body(b[1..], piece.format == HexEscape);
      if isPreviousHex && IsXDigit(b[0]) then BREAK + text else text
  }

  // ---------- Reading, after [lex.string] and [lex.phases] ----------

  predicate IsOctal(c: char) { '0' <= c <= '7' }

  /** The number of octal digits at the front, up to max. */
  function OctalDigits(t: string, max: nat): (k: nat)
    ensures k <= max && k <= |t| && forall i :: 0 <= i < k ==> IsOctal(t[i])
  {
    if max == 0 || t == "" || !IsOctal(t[0]) then 0 else 1 + OctalDigits(t[1..], max - 1)
  }

  function OctalDigit(c: char): (d: nat)
    requires IsOctal(c)
    ensures d < 8
  {
    c as nat - '0' as nat
  }

  function OctalValue(s: string): (v: nat)
    requires forall i :: 0 <= i < |s| ==> IsOctal(s[i])
    ensures (|s| == 0 ==> v == 0) && (|s| <= 1 ==> v < 8) && (|s| <= 2 ==> v < 64)
  {
    if s == "" then 0 else 8 * OctalValue(s[..|s| - 1]) + OctalDigit(s[|s| - 1])
  }

  /** The number of hexadecimal digits at the front, however many. */
  function XDigits(t: string): (k: nat)
    ensures k <= |t| && forall i :: 0 <= i < k ==> IsXDigit(t[i])
  {
    if t == "" || !IsXDigit(t[0]) then 0 else 1 + XDigits(t[1..])
  }

  function SimpleEscape(c: char): Option<char> {
    match c
    case '\'' => Some('\'')
    case '"' => Some('"')
    case '?' => Some('?')
    case '\\' => Some('\\')
    case 'a' => Some(7 as char)
    case 'b' => Some(8 as char)
    case 'f' => Some(12 as char)
    case 'n' => Some(10 as char)
    case 'r' => Some(13 as char)
    case 't' => Some(9 as char)
    case 'v' => Some(11 as char)
    case _ => None
  }

  function Prepend(value: nat, rest: Option<string>): Option<string> {
    if value < 256 && rest.Some? then Some([value as char] + rest.value) else None
  }

  /** The bytes of literals, read from inside the first; None when they are ill-formed. */
  function Inside(t: string): Option<string>
    decreases |t|
  {
    if t == "" || t[0] == '\n' then None
    else if t[0] == '"' then Between(t[1..])
    else if t[0] != '\\' then Prepend(t[0] as nat, Inside(t[1..]))
    else if |t| == 1 then None
    else if SimpleEscape(t[1]).Some? then Prepend(SimpleEscape(t[1]).value as nat, Inside(t[2..]))
    else if IsOctal(t[1]) then
      var k := OctalDigits(t[1..], 3);
      Prepend(OctalValue(t[1..][..k]), Inside(t[1 + k..]))
    else if t[1] == 'x' && XDigits(t[2..]) > 0 then
      var k := XDigits(t[2..]);
      Prepend(HexValue(t[2..][..k]), Inside(t[2 + k..]))
    else None
  }

  /** Adjacent literals are joined after their escapes are read. */
  function Between(t: string): Option<string>
    decreases |t|
  {
    if t == "" then Some("")
    else if t[0] == ' ' then Between(t[1..])
    else if t[0] == '"' then Inside(t[1..])
    else None
  }

  // ---------- What is read back ----------

  /** The bytes, with each NUL and the octal digits right behind it, up to two, taken together. */
  function Merged(b: string): string {
    if b == "" then ""
    else if b[0] as int == 0 then
      var k := OctalDigits(b[1..], 2);
      [OctalValue(b[1..][..k]) as char] + Merged(b[1 + k..])
    else [b[0]] + Merged(b[1..])
  }

  /** The text of the first byte comes first, behind a break where one is needed. */
  lemma FirstPiece(b: string, isPreviousHex: bool)
    requires b != ""
    ensures var piece := PrintAsStringLiteralTo(b[0]);
      var rest := piece.text + (Body(b[1..], piece.format == HexEscape) + "\"");
      Body(b, isPreviousHex) + "\"" == if isPreviousHex && IsXDigit(b[0]) then BREAK + rest else rest
  {
    var piece := PrintAsStringLiteralTo(b[0]);
    var others := Body(b[1..], piece.format == HexEscape);
    Associates(piece.text, others, "\"");
    if isPreviousHex && IsXDigit(b[0]) {
      Associates(BREAK, piece.text + others, "\"");
    }
  }

  /** The text after this piece does not go on with a hexadecimal digit. */
  lemma NoDigitFollows(b: string)
    ensures XDigits(Body(b, true) + "\"") == 0
  {
    if b != "" && IsXDigit(b[0]) {
      assert Body(b, true)[0] == '"';
    }
  }

  lemma {:induction false} AllHexDigits(s: string, t: string)
    requires (forall i :: 0 <= i < |s| ==> IsXDigit(s[i])) && XDigits(t) == 0
    ensures XDigits(s + t) == |s|
  {
    if s == "" {
      assert s + t == t;
    } else {
      AllHexDigits(s[1..], t);
      assert (s + t)[1..] == s[1..] + t;
    }
  }

  const BACKSLASH := '\\'
  const HEX_ESCAPE := "\\x"
  const NUL_ESCAPE := "\\0"

  /** A hexadecimal escape is read up to where it was written. */
  lemma ReadsHex(n: nat, t: string)
    requires XDigits(t) == 0
    ensures Inside(HEX_ESCAPE + HexText(n) + t) == Prepend(n, Inside(t))
  {
    HexRoundTrip(n);
    AllHexDigits(HexText(n), t);
    ReadsHexDigits(HEX_ESCAPE + HexText(n) + t, HexText(n), t);
  }

  lemma ReadsHexDigits(all: string, digits: string, t: string)
    requires digits != "" && (forall i :: 0 <= i < |digits| ==> IsXDigit(digits[i])) && XDigits(digits + t) == |digits|
    requires all == HEX_ESCAPE + digits + t
    ensures Inside(all) == Prepend(HexValue(digits), Inside(t))
  {
    var k := |digits|;
    assert all[0] == '\\' && all[1] == 'x' && all[2..] == digits + t;
    assert all[2..][..k] == digits && all[2 + k..] == t;
  }

  lemma ReadsBreak(t: string)
    ensures Inside(BREAK + t) == Inside(t)
  {
    var all := BREAK + t;
    assert all[1..] == " \"" + t && (" \"" + t)[1..] == "\"" + t && ("\"" + t)[1..] == t;
    assert Inside(all) == Between(" \"" + t) == Between("\"" + t);
  }

  /** A character that stands for itself inside a literal. */
  predicate IsPlain(c: char) { c != '\\' && c != '"' && c != '\n' }

  lemma ReadsPlain(c: char, t: string)
    requires IsPlain(c)
    ensures Inside([c] + t) == Prepend(c as nat, Inside(t))
  {
    assert ([c] + t)[1..] == t;
  }

  lemma ReadsEscape(e: char, c: char, t: string)
    requires SimpleEscape(e) == Some(c)
    ensures Inside([BACKSLASH, e] + t) == Prepend(c as nat, Inside(t))
  {
    var all := [BACKSLASH, e] + t;
    assert all[0] == '\\' && all[1] == e && all[2..] == t;
  }

  /** Any piece but a NUL is read back when no digit follows a hexadecimal escape. */
  lemma ReadsPiece(c: char, t: string)
    requires 0 < c as int < 256
    requires PrintAsStringLiteralTo(c).format == HexEscape ==> XDigits(t) == 0
    ensures Inside(PrintAsStringLiteralTo(c).text + t) == Prepend(c as nat, Inside(t))
  {
    var piece := PrintAsStringLiteralTo(c);
    if piece.format == HexEscape {
      ReadsHex(c as nat, t);
    } else if |piece.text| == 1 {
      assert piece.text == [c] && IsPlain(c);
      ReadsPlain(c, t);
    } else {
      assert piece.text == [BACKSLASH, piece.text[1]] && SimpleEscape(piece.text[1]) == Some(c);
      ReadsEscape(piece.text[1], c, t);
    }
  }

  /** Printing and reading back takes each NUL together with the octal digits behind it. */
  lemma {:induction false} ReadsBody(b: string, isPreviousHex: bool)
    requires AreBytes(b)
    ensures Inside(Body(b, isPreviousHex) + "\"") == Some(Merged(b))
    decreases |b|, isPreviousHex
  {
    if b == "" {
      assert Body(b, isPreviousHex) + "\"" == "\"";
    } else if isPreviousHex && IsXDigit(b[0]) {
      ReadsBody(b, false);
      FirstPiece(b, true);
      FirstPiece(b, false);
      ReadsBreak(Body(b, false) + "\"");
    } else if b[0] as int == 0 {
      ReadsNul(b, isPreviousHex);
    } else {
      var hex := PrintAsStringLiteralTo(b[0]).format == HexEscape;
      ReadsBody(b[1..], hex);
      NoDigitFollows(b[1..]);
      FirstPiece(b, isPreviousHex);
      ReadsPiece(b[0], Body(b[1..], hex) + "\"");
    }
  }

  /** The octal digits in the text are those in the bytes. */
  lemma {:induction false} SameOctalDigits(b: string, max: nat)
    ensures var k, t := OctalDigits(b, max), Body(b, false) + "\"";
      OctalDigits(t, max) == k && t[..k] == b[..k] && t[k..] == Body(b[k..], false) + "\""
    decreases max
  {
    if max > 0 && b != "" {
      FirstPiece(b, false);
      if IsOctal(b[0]) {
        SameOctalDigits(b[1..], max - 1);
        assert PrintAsStringLiteralTo(b[0]) == Piece([b[0]], AsIs);
        FirstOctal(b, Body(b[1..], false) + "\"", max);
      }
    }
  }

  lemma FirstOctal(b: string, t: string, max: nat)
    requires max > 0 && b != "" && IsOctal(b[0])
    requires var k := OctalDigits(b[1..], max - 1);
      OctalDigits(t, max - 1) == k && t[..k] == b[1..][..k] && t[k..] == Body(b[1..][k..], false) + "\""
    ensures var k, t' := OctalDigits(b, max), [b[0]] + t;
      OctalDigits(t', max) == k && t'[..k] == b[..k] && t'[k..] == Body(b[k..], false) + "\""
  {
    var k, t' := OctalDigits(b[1..], max - 1), [b[0]] + t;
    assert t'[1..] == t;
    assert t'[..k + 1] == [b[0]] + t[..k] && b[..k + 1] == [b[0]] + b[1..][..k];
    assert t'[k + 1..] == t[k..] && b[k + 1..] == b[1..][k..];
  }

  lemma ReadsNul(b: string, isPreviousHex: bool)
    requires AreBytes(b) && b != "" && b[0] as int == 0
    ensures Inside(Body(b, isPreviousHex) + "\"") == Some(Merged(b))
    decreases |b|, false, 0
  {
    var others := b[1..];
    var t := Body(others, false) + "\"";
    var rest := others[OctalDigits(others, 2)..];
    assert Body(b, isPreviousHex) + "\"" == NUL_ESCAPE + t by { FirstPiece(b, isPreviousHex); }
    assert Inside(Body(rest, false) + "\"") == Some(Merged(rest)) by { ReadsBody(rest, false); }
    ReadsDigits(others, t);
    MergesNul(b, others);
  }

  /** The octal digits at the front go into the NUL. */
  lemma ReadsDigits(others: string, t: string)
    requires t == Body(others, false) + "\""
    ensures var k := OctalDigits(others, 2);
      Inside(NUL_ESCAPE + t) == Prepend(OctalValue(others[..k]), Inside(Body(others[k..], false) + "\""))
  {
    SameOctalDigits(others, 2);
    ReadsOctal(t, OctalDigits(others, 2));
  }

  lemma MergesNul(b: string, others: string)
    requires b != "" && b[0] as int == 0 && others == b[1..]
    ensures var k := OctalDigits(others, 2);
      Prepend(OctalValue(others[..k]), Some(Merged(others[k..]))) == Some(Merged(b))
  {
    var k := OctalDigits(others, 2);
    assert b[1 + k..] == others[k..];
  }

  lemma ReadsOctal(t: string, k: nat)
    requires k == OctalDigits(t, 2)
    ensures Inside(NUL_ESCAPE + t) == Prepend(OctalValue(t[..k]), Inside(t[k..]))
  {
    var all := NUL_ESCAPE + t;
    assert all[1..] == "0" + t && all[1..][1..] == t;
    assert all[1 + (k + 1)..] == t[k..] && all[1..][..k + 1] == "0" + t[..k];
    ZeroInFront(t[..k]);
  }

  lemma {:induction false} ZeroInFront(s: string)
    requires forall i :: 0 <= i < |s| ==> IsOctal(s[i])
    ensures OctalValue("0" + s) == OctalValue(s)
  {
    if s == "" {
      assert ("0" + s)[..0] == "";
    } else {
      ZeroInFront(s[..|s| - 1]);
      assert ("0" + s)[..|s|] == "0" + s[..|s| - 1];
    }
  }

  ghost predicate HasNulBeforeOctal(b: string) {
    exists i :: 0 <= i < |b| - 1 && b[i] as int == 0 && IsOctal(b[i + 1])
  }

  /** Nothing is merged exactly when no NUL stands before an octal digit. */
  lemma {:induction false} MergesOnlyNulBeforeOctal(b: string)
    ensures |Merged(b)| <= |b|
    ensures Merged(b) == b <==> !HasNulBeforeOctal(b)
  {
    if b != "" {
      var k := if b[0] as int == 0 then OctalDigits(b[1..], 2) else 0;
      MergesOnlyNulBeforeOctal(b[1 + k..]);
      if k == 0 {
        assert Merged(b) == [b[0]] + Merged(b[1..]);
        assert b == [b[0]] + b[1..];
        MergedTail(b);
      } else {
        assert IsOctal(b[1..][0]) && b[1..][0] == b[1];
      }
    }
  }

  lemma MergedTail(b: string)
    requires b != "" && (b[0] as int == 0 ==> OctalDigits(b[1..], 2) == 0)
    ensures HasNulBeforeOctal(b) <==> HasNulBeforeOctal(b[1..])
  {
    if HasNulBeforeOctal(b) {
      var i :| 0 <= i < |b| - 1 && b[i] as int == 0 && IsOctal(b[i + 1]);
      assert b[1..][i] == b[i + 1];
      assert i > 0 && b[1..][i - 1] == b[i];
    }
    if HasNulBeforeOctal(b[1..]) {
      var i :| 0 <= i < |b[1..]| - 1 && b[1..][i] as int == 0 && IsOctal(b[1..][i + 1]);
      assert b[i + 1] == b[1..][i] && b[i + 1 + 1] == b[1..][i + 1];
    }
  }

  /** The bytes that a text of literals stands for. */
  function Read(text: string): Option<string> { Between(text) }

  /** Printing one byte behind a text. */
  lemma OnePiece(text: string, b: string, isPreviousHex: bool)
    requires b != ""
    ensures var piece := PrintAsStringLiteralTo(b[0]);
      text + Body(b, isPreviousHex) == (if isPreviousHex && IsXDigit(b[0]) then text + BREAK else text)
                                       + piece.text + Body(b[1..], piece.format == HexEscape)
  {
    var piece := PrintAsStringLiteralTo(b[0]);
    var others := Body(b[1..], piece.format == HexEscape);
    if isPreviousHex && IsXDigit(b[0]) {
      Associates(text, BREAK, piece.text + others);
      Associates(text + BREAK, piece.text, others);
    } else {
      Associates(text, piece.text, others);
    }
  }

  /** One of the first n bytes needs a hexadecimal escape. */
  ghost predicate NeedsHex(b: string, n: nat)
    requires AreBytes(b) && n <= |b|
  {
    exists k :: 0 <= k < n && PrintAsStringLiteralTo(b[k]).format == HexEscape
  }

  /** Prints the bytes as literals, and tells whether some byte needed a hexadecimal escape. */
  method PrintCharsAsStringTo(b: string) returns (text: string, format: CharFormat)
    requires AreBytes(b)
    ensures text == "\"" + Body(b, false) + "\""
    ensures format == if NeedsHex(b, |b|) then HexEscape else AsIs
  {
    text := "\"";
    var isPreviousHex := false;
    format := AsIs;
    for index := 0 to |b|
      invariant text + Body(b[index..], isPreviousHex) == "\"" + Body(b, false)
      invariant format == if NeedsHex(b, index) then HexEscape else AsIs
    {
      var cur := b[index];
      OnePiece(text, b[index..], isPreviousHex);
      assert b[index..][1..] == b[index + 1..];
      if isPreviousHex && IsXDigit(cur) {
        text := text + BREAK;
      }
      var piece := PrintAsStringLiteralTo(cur);
      text := text + piece.text;
      isPreviousHex := piece.format == HexEscape;
      if isPreviousHex {
        format := HexEscape;
      }
    }
    text := text + "\"";
  }

  /** Reading the printed bytes gives them back exactly when no NUL stands before an octal digit;
      otherwise the digit is read as part of the escape of the NUL. */
  lemma PrintThenRead(b: string)
    requires AreBytes(b)
    ensures Read("\"" + Body(b, false) + "\"") == Some(Merged(b))
    ensures Read("\"" + Body(b, false) + "\"") == Some(b) <==> !HasNulBeforeOctal(b)
  {
    ReadsBody(b, false);
    MergesOnlyNulBeforeOctal(b);
    assert ("\"" + Body(b, false) + "\"")[1..] == Body(b, false) + "\"";
  }

  /** What is printed is printable ASCII. */
  lemma {:induction false} BodyIsPrintable(b: string, isPreviousHex: bool)
    requires AreBytes(b)
    ensures forall k :: 0 <= k < |Body(b, isPreviousHex)| ==> IsPrintableAscii(Body(b, isPreviousHex)[k])
  {
    if b != "" {
      var piece := PrintAsStringLiteralTo(b[0]);
      BodyIsPrintable(b[1..], piece.format == HexEscape);
      PieceIsPrintable(b[0]);
    }
  }

  lemma PieceIsPrintable(c: char)
    ensures var text := PrintAsStringLiteralTo(c).text; forall k :: 0 <= k < |text| ==> IsPrintableAscii(text[k])
  {
    HexRoundTrip(c as nat);
  }
}
