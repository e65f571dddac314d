/** What single bytes look like in a printed literal, and where literals break. */
module LiteralLaws {
  import opened Collections
  import opened Hexadecimal
  import opened StringLiteral

  // ---------- Which bytes are shown how ----------

  /** From space to tilde, without the quotation mark and the backslash. */
  predicate StandsForItself(c: char) { 0x20 <= c as int <= 0x7E && c != '"' && c != '\\' }

  /** NUL and the seven control characters from bell to carriage return. */
  predicate HasShortEscape(c: char) { c as int == 0 || 7 <= c as int <= 13 }

  predicate NeedsNumber(c: char) { !(0x20 <= c as int <= 0x7E) && !HasShortEscape(c) }

  /** What is printed for one byte. */
  function Shown(c: char): string { Body([c], false) }

  lemma ShownIsPiece(c: char)
    ensures Shown(c) == PrintAsStringLiteralTo(c).text
  {
    var piece := PrintAsStringLiteralTo(c);
    assert [c][1..] == "" && Body([c][1..], piece.format == HexEscape) == "";
    assert piece.text + "" == piece.text;
  }

  /** A byte takes one character, two characters or a number. */
  lemma ShownSize(c: char)
    ensures StandsForItself(c) ==> Shown(c) == [c]
    ensures |Shown(c)| == if StandsForItself(c) then 1 else if NeedsNumber(c) then 2 + |HexText(c as nat)| else 2
    ensures PrintAsStringLiteralTo(c).format == HexEscape <==> NeedsNumber(c)
    ensures NeedsNumber(c) ==> Shown(c) == HEX_ESCAPE + HexText(c as nat)
  {
    ShownIsPiece(c);
  }

  /** A byte is shown as it is exactly when it stands for itself, and by two characters exactly when it has a short
      escape or is the quotation mark or the backslash. */
  lemma OneOrTwoCharacters(c: char)
    ensures Shown(c) == [c] <==> StandsForItself(c)
    ensures |Shown(c)| == 2 <==> HasShortEscape(c) || c == '"' || c == '\\'
  {
    ShownSize(c);
  }

  /** The two-character escapes. */
  lemma ShortEscapes()
    ensures Shown(0 as char) == "\\0" && Shown(7 as char) == "\\a" && Shown(8 as char) == "\\b"
    ensures Shown(9 as char) == "\\t" && Shown(10 as char) == "\\n" && Shown(11 as char) == "\\v"
    ensures Shown(12 as char) == "\\f" && Shown(13 as char) == "\\r"
    ensures Shown('"') == "\\\"" && Shown('\\') == "\\\\"
  {
    forall c: char ensures Shown(c) == PrintAsStringLiteralTo(c).text {
      ShownIsPiece(c);
    }
  }

  ghost predicate IsUpperDigit(c: char) { '0' <= c <= '9' || 'A' <= c <= 'F' }

  ghost predicate AreDigitsOf(digits: string, n: nat) {
    && |digits| == (if n < 16 then 1 else 2) && (forall k :: 0 <= k < |digits| ==> IsUpperDigit(digits[k]))
    && HexValue(digits) == n
  }

  /** One or two digits, in upper case. */
  lemma ByteHasTwoDigits(n: nat)
    requires n < 256
    ensures AreDigitsOf(HexText(n), n)
  {
    HexRoundTrip(n);
    assert HexText(n) == if n < 16 then [DIGITS[n]] else [DIGITS[n / 16]] + [DIGITS[n % 16]];
  }

  /** The bytes that need a number, and no others, are shown by one, in as few upper-case digits as it takes. */
  lemma OthersByNumber(c: char)
    requires c as int < 256
    ensures NeedsNumber(c) <==> PrintAsStringLiteralTo(c).format == HexEscape
    ensures NeedsNumber(c) ==> exists digits :: Shown(c) == "\\x" + digits && AreDigitsOf(digits, c as nat)
  {
    ShownSize(c);
    ByteHasTwoDigits(c as nat);
  }

  // ---------- Whole texts ----------

  // The end of a literal and the beginning of the next before a hexadecimal digit behind a number.
  ghost function Gap(isPreviousHex: bool, c: char): string { if isPreviousHex && IsXDigit(c) then "\" \"" else "" }

  /** The text of the first byte, with the break before it, and the text of the others. */
  lemma BodyStep(b: string, isPreviousHex: bool)
    requires b != ""
    ensures Body(b, isPreviousHex) == Gap(isPreviousHex, b[0]) + Shown(b[0]) + Body(b[1..], NeedsNumber(b[0]))
  {
    ShownIsPiece(b[0]);
    ShownSize(b[0]);
    if isPreviousHex && IsXDigit(b[0]) {
      Associates(BREAK, Shown(b[0]), Body(b[1..], NeedsNumber(b[0])));
    } else {
      assert "" + Shown(b[0]) == Shown(b[0]);
    }
  }

  lemma {:induction false} NoByteIsDropped(b: string, isPreviousHex: bool)
    ensures |Body(b, isPreviousHex)| >= |b|
  {
    if b != "" {
      BodyStep(b, isPreviousHex);
      ShownSize(b[0]);
      NoByteIsDropped(b[1..], NeedsNumber(b[0]));
    }
  }

  /** Texts of bytes that stand for themselves, and no others, are printed as they are. */
  lemma {:induction false} PlainTextsAreShownAsTheyAre(b: string)
    ensures Body(b, false) == b <==> forall k :: 0 <= k < |b| ==> StandsForItself(b[k])
  {
    if b != "" {
      BodyStep(b, false);
      ShownSize(b[0]);
      var rest := Body(b[1..], NeedsNumber(b[0]));
      assert "" + Shown(b[0]) == Shown(b[0]);
      if StandsForItself(b[0]) {
        PlainTextsAreShownAsTheyAre(b[1..]);
        assert Body(b, false) == [b[0]] + rest && b == [b[0]] + b[1..];
        assert Body(b, false)[1..] == rest;
      } else {
        NoByteIsDropped(b[1..], NeedsNumber(b[0]));
      }
    }
  }

  /** A number was needed exactly when some byte is outside the printable range and has no short escape. */
  lemma HexExactlyWhenNeeded(b: string)
    requires AreBytes(b)
    ensures NeedsHex(b, |b|) <==> exists k :: 0 <= k < |b| && NeedsNumber(b[k])
  {
    forall k | 0 <= k < |b| ensures PrintAsStringLiteralTo(b[k]).format == HexEscape <==> NeedsNumber(b[k]) {
      ShownSize(b[k]);
    }
  }

  /** Printing one more byte only adds its text, behind a break exactly if the byte before is shown by number and this
      one is a hexadecimal digit. */
  lemma {:induction false} OneMoreByte(b: string, isPreviousHex: bool, c: char)
    requires b != ""
    ensures Body(b + [c], isPreviousHex) ==
            Body(b, isPreviousHex) + (Gap(NeedsNumber(b[|b| - 1]), c) + Shown(c))
  {
    var all, first, hex := b + [c], Gap(isPreviousHex, b[0]) + Shown(b[0]), NeedsNumber(b[0]);
    var last := Gap(NeedsNumber(b[|b| - 1]), c) + Shown(c);
    assert Body(b, isPreviousHex) == first + Body(b[1..], hex) by { BodyStep(b, isPreviousHex); }
    assert Body(all, isPreviousHex) == first + Body(all[1..], hex) by { BodyStep(all, isPreviousHex); }
    assert Body(all[1..], hex) == Body(b[1..], hex) + last by {
      assert all[1..] == b[1..] + [c];
      if |b| == 1 {
        LastByte(b[1..], hex, c);
      } else {
        OneMoreByte(b[1..], hex, c);
      }
    }
    Associates(first, Body(b[1..], hex), last);
  }

  lemma LastByte(none: string, isPreviousHex: bool, c: char)
    requires none == ""
    ensures Body(none + [c], isPreviousHex) == Body(none, isPreviousHex) + (Gap(isPreviousHex, c) + Shown(c))
  {
    assert none + [c] == [c] && [c][1..] == "";
    BodyStep([c], isPreviousHex);
    assert Body([c][1..], NeedsNumber(c)) == "";
  }
}
