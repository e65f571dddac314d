/** Printing 128-bit integers in decimal with two 64-bit words, after PrintTo in gtest-printers.cc. */
module Int128 {
  import opened CStrings

  const TWO_TO_THE_64: int := 0x1_0000_0000_0000_0000
  const TWO_TO_THE_127: int := 0x8000_0000_0000_0000_0000_0000_0000_0000
  const TWO_TO_THE_128: int := 0x1_0000_0000_0000_0000_0000_0000_0000_0000

  // Dafny checks that no operation on these leaves the 64 bits.
  newtype uint64 = x: int | 0 <= x < 0x1_0000_0000_0000_0000

  type uint128 = x: int | 0 <= x < TWO_TO_THE_128
  type int128 = x: int | -TWO_TO_THE_127 <= x < TWO_TO_THE_127

  // ---------- Decimal numbers ----------

  predicate AreDigits(s: string) { forall k :: 0 <= k < |s| ==> '0' <= s[k] <= '9' }

  function DecimalValue(s: string): nat
    requires AreDigits(s)
  {
    if s == "" then 0 else 10 * DecimalValue(s[..|s| - 1]) + (s[|s| - 1] - '0') as nat
  }

  function Pow10(k: nat): (p: nat)
    ensures p > 0
  {
    if k == 0 then 1 else 10 * Pow10(k - 1)
  }

  /** A digit in front counts for the power of ten of its place. */
  lemma {:induction false} DigitInFront(c: char, s: string)
    requires '0' <= c <= '9' && AreDigits(s)
    ensures AreDigits([c] + s) && DecimalValue([c] + s) == (c - '0') as nat * Pow10(|s|) + DecimalValue(s)
  {
    var t := [c] + s;
    if s == "" {
      assert t[..0] == "" && DecimalValue(t) == 10 * DecimalValue(t[..0]) + (c - '0') as nat;
    } else {
      DigitInFront(c, s[..|s| - 1]);
      assert t[..|t| - 1] == [c] + s[..|s| - 1];
      DistributeTen((c - '0') as nat, Pow10(|s| - 1));
    }
  }

  lemma DistributeTen(a: nat, p: nat)
    ensures 10 * (a * p) == a * (10 * p)
  {
  }

  /** The number, written without needless zeros. */
  ghost predicate IsDecimal(s: string, v: nat) {
    s != "" && AreDigits(s) && DecimalValue(s) == v && (s[0] == '0' ==> s == "0")
  }

  // ---------- The printer ----------

  /** The number in the two words. */
  function Value(high: uint64, low: uint64): nat { high as int * TWO_TO_THE_64 + low as int }

  /** One step of long division by ten: nothing overflows, and quotient and digit are exact. */
  method DivideByTen(high: uint64, low: uint64) returns (high': uint64, low': uint64, digit: uint64)
    ensures Value(high, low) == 10 * Value(high', low') + digit as int && digit < 10
  {
    var highMod := high % 10;
    high' := high / 10;
    var carry := 6 * highMod + low % 10;
    low' := low / 10 + highMod * 1844674407370955161 + carry / 10;
    digit := carry % 10;
  }

  lemma {:induction false} Pow10Grows(a: nat, b: nat)
    requires a <= b
    ensures Pow10(a) <= Pow10(b)
  {
    if a < b { Pow10Grows(a, b - 1); }
  }

  lemma Pow10Of39()
    ensures Pow10(39) > TWO_TO_THE_128
  {
    assert Pow10(13) == 10000000000000;
    Pow10Sum(13, 13);
    Pow10Sum(26, 13);
  }

  lemma {:induction false} Pow10Sum(a: nat, b: nat)
    ensures Pow10(a + b) == Pow10(a) * Pow10(b)
  {
    if a > 0 { Pow10Sum(a - 1, b); }
  }

  /** 39 digits are enough: while some number is left, fewer than 39 have been written. */
  lemma RoomLeft(left: nat, written: nat, v: nat)
    requires left > 0 && left * Pow10(written) <= v < TWO_TO_THE_128
    ensures written < 39
  {
    if written >= 39 {
      Pow10Of39();
      Pow10Grows(39, written);
      TimesGrows(left, Pow10(written));
    }
  }

  lemma TimesGrows(a: nat, b: nat)
    requires a > 0
    ensures a * b >= b
  {
  }

  /** One more digit in front of those written. */
  lemma OneMoreDigit(before: nat, after: nat, digit: nat, written: string, v: nat)
    requires before == 10 * after + digit && digit < 10 && AreDigits(written)
    requires before * Pow10(|written|) + DecimalValue(written) == v
    ensures var c := '0' + digit as char;
      && AreDigits([c] + written)
      && after * Pow10(|written| + 1) + DecimalValue([c] + written) == v
  {
    DigitInFront('0' + digit as char, written);
    DistributeDigit(before, after, digit, Pow10(|written|));
  }

  lemma DistributeDigit(before: nat, after: nat, digit: nat, p: nat)
    requires before == 10 * after + digit
    ensures before * p == after * (10 * p) + digit * p
  {
  }

  /** Some number is left, and the digits written stand for the rest. */
  ghost predicate Splits(left: nat, written: string, v: nat) {
    && AreDigits(written) && |written| <= 39
    && left * Pow10(|written|) + DecimalValue(written) == v
    && (left == 0 ==> written != "" && written[0] != '0')
  }

  lemma SplitsAtFirst(v: nat)
    requires v > 0
    ensures Splits(v, "", v)
  {
  }

  lemma SplitsAtLast(written: string, v: nat)
    requires Splits(0, written, v)
    ensures IsDecimal(written, v)
  {
  }

  /** The text from p on ends at the NUL at the end of the buffer. */
  lemma UpToTerminator(buf: seq<char>, p: nat)
    requires |buf| == 40 && p <= 39 && buf[39] == '\0' && AreDigits(buf[p..39])
    ensures CString(buf[p..], '\0') == buf[p..39]
  {
    assert buf[p..][..39 - p] == buf[p..39];
    CStringIsPrefix(buf[p..], '\0', 39 - p);
  }

  lemma SplitsNext(before: nat, after: nat, digit: nat, written: string, v: nat)
    requires before > 0 && before == 10 * after + digit && digit < 10
    requires Splits(before, written, v) && v < TWO_TO_THE_128
    ensures Splits(after, ['0' + digit as char] + written, v)
  {
    RoomLeft(before, |written|, v);
    OneMoreDigit(before, after, digit, written, v);
  }

  /** Writes the number in at most 39 digits. */
  method PrintUint128(v: uint128) returns (s: string)
    ensures IsDecimal(s, v) && |s| <= 39
  {
    if v == 0 {
      return "0";
    }
    var buf := new char[40];
    var p := buf.Length;
    var high, low := (v / TWO_TO_THE_64) as uint64, (v % TWO_TO_THE_64) as uint64;
    p := p - 1;
    buf[p] := '\0';
    assert buf[p..39] == "";
    SplitsAtFirst(v);
    while high != 0 || low != 0
      invariant 0 <= p <= 39 && buf[39] == '\0' && Splits(Value(high, low), buf[p..39], v)
      decreases Value(high, low)
    {
      ghost var before, written := Value(high, low), buf[p..39];
      var digit;
      high, low, digit := DivideByTen(high, low);
      SplitsNext(before, Value(high, low), digit as nat, written, v);
      p := p - 1;
      buf[p] := '0' + digit as char;
      assert buf[p..39] == ['0' + digit as char] + written;
    }
    SplitsAtLast(buf[p..39], v);
    assert buf[..][p..] == buf[p..] && buf[..][p..39] == buf[p..39];
    UpToTerminator(buf[..], p);
    s := CString(buf[p..], '\0');
  }

  /** The two's complement of 128 bits. */
  function AsUnsigned(v: int128): uint128 {
    if v < 0 then v as int + TWO_TO_THE_128 else v
  }

  function Negated(v: uint128): uint128 {
    if v == 0 then 0 else TWO_TO_THE_128 - v as int
  }

  /** Writes the number with its sign, down to the least. */
  method PrintInt128(v: int128) returns (s: string)
    ensures v >= 0 ==> IsDecimal(s, v)
    ensures v < 0 ==> s != "" && s[0] == '-' && IsDecimal(s[1..], -(v as int))
  {
    s := "";
    var uv := AsUnsigned(v);
    if v < 0 {
      s := s + "-";
      uv := Negated(uv);
    }
    var digits := PrintUint128(uv);
    s := s + digits;
    assert if v < 0 then s[1..] == digits else s == digits;
  }

  /** A number is written in one way. */
  lemma {:induction false} OneDecimal(s: string, t: string, v: nat)
    requires IsDecimal(s, v) && IsDecimal(t, v)
    ensures s == t
  {
    var m, n := |s| - 1, |t| - 1;
    if v < 10 {
      SmallDecimal(s, v);
      SmallDecimal(t, v);
    } else {
      LastDigit(s, v);
      LastDigit(t, v);
      OneDecimal(s[..m], t[..n], v / 10);
      assert s == s[..m] + [s[m]] && t == t[..n] + [t[n]];
    }
  }

  lemma LastDigit(s: string, v: nat)
    requires IsDecimal(s, v) && v >= 10
    ensures IsDecimal(s[..|s| - 1], v / 10) && s[|s| - 1] == '0' + (v % 10) as char
  {
  }

  lemma SmallDecimal(s: string, v: nat)
    requires IsDecimal(s, v) && v < 10
    ensures s == ['0' + v as char]
  {
    if s[0] != '0' { LeadingDigit(s); }
    assert s[..0] == "";
  }

  lemma {:induction false} LeadingDigit(s: string)
    requires s != "" && AreDigits(s) && s[0] != '0'
    ensures DecimalValue(s) >= 1 && (|s| >= 2 ==> DecimalValue(s) >= 10)
  {
    if |s| >= 2 { LeadingDigit(s[..|s| - 1]); }
  }
}
