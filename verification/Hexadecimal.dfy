/** Numbers written in upper-case hexadecimal, as streams in that mode write them. */
module Hexadecimal {

  const DIGITS := "0123456789ABCDEF"

  /** No leading zeros; zero is a single digit. */
  function HexText(n: nat): (s: string)
    ensures s != ""
  {
    if n < 16 then [DIGITS[n]] else HexText(n / 16) + [DIGITS[n % 16]]
  }

  /** The value of a hexadecimal digit of either case. */
  function DigitValue(c: char): (v: nat)
    requires IsXDigit(c)
    ensures v < 16
  {
    if '0' <= c <= '9' then (c - '0') as nat
    else if 'a' <= c <= 'f' then (c - 'a') as nat + 10
    else (c - 'A') as nat + 10
  }

  predicate IsXDigit(c: char) {
    '0' <= c <= '9' || 'a' <= c <= 'f' || 'A' <= c <= 'F'
  }

  function HexValue(s: string): nat
    requires forall k :: 0 <= k < |s| ==> IsXDigit(s[k])
  {
    if s == "" then 0 else 16 * HexValue(s[..|s| - 1]) + DigitValue(s[|s| - 1])
  }

  lemma {:induction false} HexIsAscii(n: nat)
    ensures forall k :: 0 <= k < |HexText(n)| ==> HexText(n)[k] <= 'F'
  {
    if n >= 16 {
      HexIsAscii(n / 16);
    }
  }

  lemma DigitReadsBack(d: nat)
    requires d < 16
    ensures IsXDigit(DIGITS[d]) && DigitValue(DIGITS[d]) == d
  {
  }

  /** Reading what was written gives the number back. */
  lemma {:induction false} HexRoundTrip(n: nat)
    ensures (forall k :: 0 <= k < |HexText(n)| ==> IsXDigit(HexText(n)[k])) && HexValue(HexText(n)) == n
  {
    DigitReadsBack(n % 16);
    if n >= 16 {
      HexRoundTrip(n / 16);
      assert HexText(n)[..|HexText(n)| - 1] == HexText(n / 16);
    } else {
      assert HexValue([DIGITS[n]]) == 16 * HexValue([DIGITS[n]][..0]) + n;
    }
  }
}
