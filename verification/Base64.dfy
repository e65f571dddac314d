/** Base64 decoding, after Base64Unescape in gmock-internal-utils.cc. */
module Base64 {
  import opened Collections

  type byte = bv8

  /** n characters from c on. */
  function Run(c: char, n: nat): (s: string)
    requires c as nat + n <= 128
    ensures |s| == n && forall k :: 0 <= k < n ==> s[k] as nat == c as nat + k
  {
    seq(n, k requires 0 <= k < n => (c as nat + k) as char)
  }

  // The alphabet of section 4 of RFC 4648: A to Z, a to z, 0 to 9, + and /.
  const BASE64: string := Run('A', 26) + Run('a', 26) + Run('0', 10) + "+/"
  const NO_DIGIT: nat := 65

  lemma UpperCase()
    ensures Run('A', 26) == "ABCDEFGHIJKLMNOPQRSTUVWXYZ"
  {
  }

  lemma LowerCase()
    ensures Run('a', 26) == "abcdefghijklmnopqrstuvwxyz"
  {
  }

  lemma AlphabetAsWritten()
    ensures BASE64 == "ABCDEFGHIJKLMNOPQRSTUVWXYZ" + "abcdefghijklmnopqrstuvwxyz" + "0123456789" + "+/"
  {
    UpperCase();
    LowerCase();
    assert Run('0', 10) == "0123456789";
  }

  /** Section 5 has '-' and '_' in the place of '+' and '/'. */
  function UndoWebSafeEncoding(c: char): char {
    if c == '-' then '+' else if c == '_' then '/' else c
  }

  function UnBase64Impl(c: char, base64: string, carry: nat): nat {
    if base64 == "" then NO_DIGIT else if base64[0] == c then carry else UnBase64Impl(c, base64[1..], carry + 1)
  }

  /** The digits of either alphabet. */
  predicate IsDigit(c: char) {
    'A' <= c <= 'Z' || 'a' <= c <= 'z' || '0' <= c <= '9' || c == '+' || c == '/' || c == '-' || c == '_'
  }

  /** The value of a digit, after tables 1 and 2 of RFC 4648. */
  function PlaceOf(c: char): (v: nat)
    requires IsDigit(c)
    ensures v < 64
  {
    if 'A' <= c <= 'Z' then c as nat - 'A' as nat
    else if 'a' <= c <= 'z' then c as nat - 'a' as nat + 26
    else if '0' <= c <= '9' then c as nat - '0' as nat + 52
    else if c == '+' || c == '-' then 62
    else 63
  }

  function ValueOf(c: char): byte
    requires IsDigit(c)
  {
    PlaceOf(c) as byte
  }

  lemma {:induction false} SearchFinds(c: char, base64: string, carry: nat)
    ensures var r := UnBase64Impl(c, base64, carry);
      if c in base64 then carry <= r < carry + |base64| && base64[r - carry] == c else r == NO_DIGIT
  {
    if base64 != "" && base64[0] != c {
      SearchFinds(c, base64[1..], carry + 1);
    }
  }

  lemma AlphabetAt(k: nat)
    requires k < 64
    ensures IsDigit(BASE64[k]) && PlaceOf(BASE64[k]) == k && UndoWebSafeEncoding(BASE64[k]) == BASE64[k]
  {
  }

  lemma DifferentPlaces(c: char, d: char)
    requires IsDigit(c) && UndoWebSafeEncoding(c) == c && IsDigit(d) && UndoWebSafeEncoding(d) == d
        && PlaceOf(c) == PlaceOf(d)
    ensures c == d
  {
  }

  /** A digit is found at its place, another character nowhere. */
  lemma EntryIsPlace(c: char)
    ensures UnBase64Impl(UndoWebSafeEncoding(c), BASE64, 0) == if IsDigit(c) then PlaceOf(c) else NO_DIGIT
  {
    var d := UndoWebSafeEncoding(c);
    SearchFinds(d, BASE64, 0);
    if IsDigit(d) {
      AlphabetAt(PlaceOf(d));
      DifferentPlaces(d, BASE64[PlaceOf(d)]);
    }
    if d in BASE64 {
      AlphabetAt(UnBase64Impl(d, BASE64, 0));
    }
  }

  lemma PlaceAsByte(p: nat, v: byte)
    requires p <= NO_DIGIT && v == p as byte
    ensures if p < 64 then v < 64 else p == 64 || v == 65
  {
  }

  /** The entry of the table for a character: the value of a digit, 65 for any other character. */
  method UnBase64(c: char) returns (entry: byte)
    ensures IsDigit(c) ==> entry == ValueOf(c) && entry < 64
    ensures !IsDigit(c) ==> entry == 65
  {
    var place := UnBase64Impl(UndoWebSafeEncoding(c), BASE64, 0);
    assert place == if IsDigit(c) then PlaceOf(c) else NO_DIGIT by {
      EntryIsPlace(c);
    }
    entry := place as byte;
    PlaceAsByte(place, entry);
  }

  // ---------- Bits ----------

  /** The n low bits, the highest first. */
  function Bits(v: byte, n: nat): (r: seq<bool>)
    ensures |r| == n
  {
    if n == 0 then [] else Bits(v >> 1, n - 1) + [v & 1 != 0]
  }

  lemma TwoBits(v: byte)
    ensures Bits(v, 2) == [v & 0x02 != 0, v & 0x01 != 0]
  {
    assert Bits(v, 2) == Bits(v >> 1, 1) + [v & 1 != 0] && Bits(v >> 1, 1) == [(v >> 1) & 1 != 0];
  }

  lemma FourBits(v: byte)
    ensures Bits(v, 4) == [v & 0x08 != 0, v & 0x04 != 0, v & 0x02 != 0, v & 0x01 != 0]
  {
    TwoBits((v >> 1) >> 1);
    assert Bits(v, 4) == Bits((v >> 1) >> 1, 2) + [(v >> 1) & 1 != 0] + [v & 1 != 0];
  }

  lemma SixBits(v: byte)
    ensures Bits(v, 6) == [v & 0x20 != 0, v & 0x10 != 0, v & 0x08 != 0, v & 0x04 != 0, v & 0x02 != 0, v & 0x01 != 0]
  {
    FourBits((v >> 1) >> 1);
    assert Bits(v, 6) == Bits((v >> 1) >> 1, 4) + [(v >> 1) & 1 != 0] + [v & 1 != 0];
  }

  lemma EightBits(v: byte)
    ensures Bits(v, 8) == [v & 0x80 != 0, v & 0x40 != 0, v & 0x20 != 0, v & 0x10 != 0, v & 0x08 != 0, v & 0x04 != 0,
        v & 0x02 != 0, v & 0x01 != 0]
  {
    SixBits((v >> 1) >> 1);
    assert Bits(v, 8) == Bits((v >> 1) >> 1, 6) + [(v >> 1) & 1 != 0] + [v & 1 != 0];
  }

  /** The bits of values of n bits each, one after the other. */
  function BitsOf(s: seq<byte>, n: nat): (r: seq<bool>)
    ensures |r| == |s| * n
  {
    if s == [] then [] else BitsOf(s[..|s| - 1], n) + Bits(s[|s| - 1], n)
  }

  /** The n high bits of dst are still to be written, the others are zero. */
  predicate Holds(dst: byte, n: int) {
    match n
    case 0 => dst == 0
    case 2 => dst & 0x3F == 0
    case 4 => dst & 0x0F == 0
    case 6 => dst & 0x03 == 0
    case _ => false
  }

  // Shifts by the amounts that occur; what leaves the eight bits is lost.
  function ShiftLeft(v: byte, n: int): byte {
    match n
    case 2 => v << 2
    case 4 => v << 4
    case 6 => v << 6
    case _ => 0
  }

  function ShiftRight(v: byte, n: int): byte {
    match n
    case 0 => v
    case 2 => v >> 2
    case 4 => v >> 4
    case _ => 0
  }

  // The bits of a byte that holds some high bits d of dst and takes bits w of a digit v.
  lemma FirstBits(v: byte)
    requires v < 64
    ensures var w := Bits(v, 6); Bits(v << 2, 8) == [w[0], w[1], w[2], w[3], w[4], w[5], false, false]
  {
    SixBits(v);
    EightBits(v << 2);
  }

  lemma SecondBits(dst: byte, v: byte)
    requires v < 64 && Holds(dst, 6)
    ensures var d, w := Bits(dst, 8), Bits(v, 6);
      Bits(dst | (v >> 4), 8) == [d[0], d[1], d[2], d[3], d[4], d[5], w[0], w[1]]
  {
    SixBits(v);
    EightBits(dst);
    EightBits(dst | (v >> 4));
  }

  lemma SecondRest(v: byte)
    requires v < 64
    ensures var w := Bits(v, 6); Bits(v << 4, 8) == [w[2], w[3], w[4], w[5], false, false, false, false]
    ensures Holds(v << 4, 4)
  {
    SixBits(v);
    EightBits(v << 4);
  }

  lemma ThirdBits(dst: byte, v: byte)
    requires v < 64 && Holds(dst, 4)
    ensures var d, w := Bits(dst, 8), Bits(v, 6);
      Bits(dst | (v >> 2), 8) == [d[0], d[1], d[2], d[3], w[0], w[1], w[2], w[3]]
  {
    SixBits(v);
    EightBits(dst);
    EightBits(dst | (v >> 2));
  }

  lemma ThirdRest(v: byte)
    requires v < 64
    ensures var w := Bits(v, 6); Bits(v << 6, 8) == [w[4], w[5], false, false, false, false, false, false]
    ensures Holds(v << 6, 2)
  {
    SixBits(v);
    EightBits(v << 6);
  }

  lemma FourthBits(dst: byte, v: byte)
    requires v < 64 && Holds(dst, 2)
    ensures var d, w := Bits(dst, 8), Bits(v, 6); Bits(dst | v, 8) == [d[0], d[1], w[0], w[1], w[2], w[3], w[4], w[5]]
  {
    SixBits(v);
    EightBits(dst);
    EightBits(dst | v);
  }

  // The same bits, cut where a digit goes over from one byte to the next.
  lemma Cuts(d: seq<bool>, w: seq<bool>)
    requires |d| == 8 && |w| == 6
    ensures [d[0], d[1], d[2], d[3], d[4], d[5], w[0], w[1]] == d[..6] + w[..2]
    ensures [d[0], d[1], d[2], d[3], w[0], w[1], w[2], w[3]] == d[..4] + w[..4]
    ensures [d[0], d[1], w[0], w[1], w[2], w[3], w[4], w[5]] == d[..2] + w[..6]
  {
  }

  lemma Rests(w: seq<bool>)
    requires |w| == 6
    ensures [w[0], w[1], w[2], w[3], w[4], w[5], false, false][..6] == w
    ensures [w[2], w[3], w[4], w[5], false, false, false, false][..4] == w[2..]
    ensures [w[4], w[5], false, false, false, false, false, false][..2] == w[4..]
  {
  }

  /** The first digit of four. */
  lemma FirstDigit(v: byte)
    requires v < 64
    ensures Holds(v << 2, 6) && Bits(v << 2, 8)[..6] == Bits(v, 6)
  {
    FirstBits(v);
    Rests(Bits(v, 6));
  }

  lemma SecondDigit(dst: byte, v: byte)
    requires v < 64 && Holds(dst, 6)
    ensures Bits(dst | (v >> 4), 8) == Bits(dst, 8)[..6] + Bits(v, 6)[..2]
    ensures Holds(v << 4, 4) && Bits(v << 4, 8)[..4] == Bits(v, 6)[2..]
  {
    SecondBits(dst, v);
    SecondRest(v);
    Cuts(Bits(dst, 8), Bits(v, 6));
    Rests(Bits(v, 6));
  }

  lemma ThirdDigit(dst: byte, v: byte)
    requires v < 64 && Holds(dst, 4)
    ensures Bits(dst | (v >> 2), 8) == Bits(dst, 8)[..4] + Bits(v, 6)[..4]
    ensures Holds(v << 6, 2) && Bits(v << 6, 8)[..2] == Bits(v, 6)[4..]
  {
    ThirdBits(dst, v);
    ThirdRest(v);
    Cuts(Bits(dst, 8), Bits(v, 6));
    Rests(Bits(v, 6));
  }

  lemma FourthDigit(dst: byte, v: byte)
    requires v < 64 && Holds(dst, 2)
    ensures Bits(dst | v, 8) == Bits(dst, 8)[..2] + Bits(v, 6)[..6]
  {
    FourthBits(dst, v);
    Cuts(Bits(dst, 8), Bits(v, 6));
  }

  /** Any digit but the first of four fills a byte and starts the next. */
  lemma NextDigit(dst: byte, bitPos: int, v: byte, out: byte, next: byte)
    requires Holds(dst, bitPos) && bitPos != 0 && v < 64
    requires out == dst | ShiftRight(v, bitPos - 2) && next == ShiftLeft(v, 10 - bitPos)
    ensures Bits(out, 8) == Bits(dst, 8)[..bitPos] + Bits(v, 6)[..8 - bitPos]
    ensures Holds(next, (bitPos + 6) % 8) && Bits(next, 8)[..(bitPos + 6) % 8] == Bits(v, 6)[8 - bitPos..]
  {
    if bitPos == 6 {
      assert out == dst | (v >> 4) && next == v << 4;
      SecondDigit(dst, v);
    } else if bitPos == 4 {
      assert out == dst | (v >> 2) && next == v << 6;
      ThirdDigit(dst, v);
    } else {
      assert bitPos == 2 && out == dst | v && next == 0;
      FourthDigit(dst, v);
    }
  }

  // ---------- Decoding ----------

  /** No bit of the digits is lost or added: they are in the bytes written and at the front of dst. */
  ghost predicate Conserved(decoded: seq<byte>, dst: byte, bitPos: int, digits: seq<byte>) {
    && Holds(dst, bitPos) && 8 * |decoded| + bitPos == 6 * |digits|
    && BitsOf(decoded, 8) + Bits(dst, 8)[..bitPos] == BitsOf(digits, 6)
  }

  lemma OneMoreValue(s: seq<byte>, v: byte, n: nat)
    ensures BitsOf(s + [v], n) == BitsOf(s, n) + Bits(v, n)
  {
    assert (s + [v])[..|s|] == s;
  }

  lemma OrZero(v: byte)
    ensures 0 | v == v
  {
  }

  lemma NothingHeld(written: seq<bool>, held: seq<bool>, bits: seq<bool>)
    requires written + held == bits && held == []
    ensures written == bits
  {
  }

  lemma StartsGroup(decoded: seq<byte>, dst: byte, digits: seq<byte>, v: byte)
    requires Conserved(decoded, dst, 0, digits) && v < 64
    ensures Conserved(decoded, dst | ShiftLeft(v, 2), 6, digits + [v])
  {
    var out := dst | ShiftLeft(v, 2);
    assert out == v << 2 by { OrZero(v << 2); }
    assert Holds(out, 6) && Bits(out, 8)[..6] == Bits(v, 6) by { FirstDigit(v); }
    assert BitsOf(digits + [v], 6) == BitsOf(digits, 6) + Bits(v, 6) by { OneMoreValue(digits, v, 6); }
    NothingHeld(BitsOf(decoded, 8), Bits(dst, 8)[..0], BitsOf(digits, 6));
  }

  lemma GoesOn(decoded: seq<byte>, dst: byte, bitPos: int, digits: seq<byte>, v: byte, out: byte, next: byte)
    requires Conserved(decoded, dst, bitPos, digits) && bitPos != 0 && v < 64
    requires out == dst | ShiftRight(v, bitPos - 2) && next == ShiftLeft(v, 10 - bitPos)
    ensures Conserved(decoded + [out], next, (bitPos + 6) % 8, digits + [v])
  {
    NextDigit(dst, bitPos, v, out, next);
    assert (digits + [v])[..|digits|] == digits && (decoded + [out])[..|decoded|] == decoded;
    Rejoin(BitsOf(decoded, 8), Bits(dst, 8)[..bitPos], BitsOf(digits, 6), Bits(v, 6), Bits(out, 8),
           Bits(next, 8)[..(bitPos + 6) % 8], 8 - bitPos);
  }

  lemma Rejoin(written: seq<bool>, held: seq<bool>, bits: seq<bool>, digit: seq<bool>, out: seq<bool>,
      next: seq<bool>, k: nat)
    requires k <= |digit| && written + held == bits && out == held + digit[..k] && next == digit[k..]
    ensures (written + out) + next == bits + digit
  {
  }

  predicate IsSpace(c: char) { c == ' ' || 9 <= c as int <= 13 }

  predicate IsSkipped(c: char) { IsSpace(c) || c == '=' }

  /** The values of the digits among the characters. */
  function DigitsOf(encoded: string): (digits: seq<byte>)
    ensures |digits| <= |encoded|
  {
    if encoded == "" then []
    else
      var digits, c := DigitsOf(encoded[..|encoded| - 1]), encoded[|encoded| - 1];
      if IsDigit(c) then digits + [ValueOf(c)] else digits
  }

  /** As many whole bytes as the digits fill, with the bits of the digits. */
  ghost predicate IsFront(decoded: seq<byte>, digits: seq<byte>) {
    |decoded| == 6 * |digits| / 8 && BitsOf(decoded, 8) == BitsOf(digits, 6)[..8 * |decoded|]
  }

  lemma ConservedIsFront(decoded: seq<byte>, dst: byte, bitPos: int, digits: seq<byte>)
    requires Conserved(decoded, dst, bitPos, digits)
    ensures IsFront(decoded, digits)
  {
    assert (BitsOf(decoded, 8) + Bits(dst, 8)[..bitPos])[..8 * |decoded|] == BitsOf(decoded, 8);
  }

  predicate IsAcceptedChar(c: char) { IsSkipped(c) || IsDigit(c) }

  predicate IsAccepted(text: string) {
    forall k :: 0 <= k < |text| ==> IsAcceptedChar(text[k])
  }

  /** What decoding a text gives: nothing, or the whole bytes that its digits fill. */
  ghost predicate Decodes(text: string, ok: bool, decoded: seq<byte>) {
    (ok <==> IsAccepted(text)) && if ok then IsFront(decoded, DigitsOf(text)) else decoded == []
  }

  lemma OneMoreCharacter(encoded: string, k: nat)
    requires k < |encoded|
    ensures DigitsOf(encoded[..k + 1]) ==
      if IsDigit(encoded[k]) then DigitsOf(encoded[..k]) + [ValueOf(encoded[k])] else DigitsOf(encoded[..k])
    ensures IsAccepted(encoded[..k + 1]) <==> IsAccepted(encoded[..k]) && IsAcceptedChar(encoded[k])
    ensures !IsAcceptedChar(encoded[k]) ==> !IsAccepted(encoded)
  {
    var longer := encoded[..k + 1];
    assert longer[..k] == encoded[..k] && longer[k] == encoded[k];
    assert forall m :: 0 <= m < k ==> longer[m] == encoded[..k][m];
  }

  /** Takes one digit: the body of the loop. */
  method TakeDigit(decoded: seq<byte>, dst: byte, bitPos: int, v: byte, ghost digits: seq<byte>)
    returns (decoded': seq<byte>, dst': byte, bitPos': int)
    requires Conserved(decoded, dst, bitPos, digits) && v < 64
    ensures Conserved(decoded', dst', bitPos', digits + [v])
  {
    if bitPos == 0 {
      StartsGroup(decoded, dst, digits, v);
      decoded', dst', bitPos' := decoded, dst | ShiftLeft(v, 2), 6;
    } else {
      GoesOn(decoded, dst, bitPos, digits, v, dst | ShiftRight(v, bitPos - 2), ShiftLeft(v, 10 - bitPos));
      dst' := dst | ShiftRight(v, bitPos - 2);
      decoded' := decoded + [dst'];
      dst' := ShiftLeft(v, 10 - bitPos);
      bitPos' := (bitPos + 6) % 8;
    }
  }

  lemma SkippedIsNoDigit(c: char)
    ensures IsSkipped(c) ==> !IsDigit(c)
  {
  }

  /** Takes one character, unless it is neither skipped nor a digit. */
  method TakeCharacter(src: char, decoded: seq<byte>, dst: byte, bitPos: int, ghost digits: seq<byte>)
    returns (ok: bool, decoded': seq<byte>, dst': byte, bitPos': int)
    requires Conserved(decoded, dst, bitPos, digits)
    ensures ok <==> IsAcceptedChar(src)
    ensures ok ==> Conserved(decoded', dst', bitPos', if IsDigit(src) then digits + [ValueOf(src)] else digits)
  {
    SkippedIsNoDigit(src);
    if IsSkipped(src) {
      return true, decoded, dst, bitPos;
    }
    var srcBin := UnBase64(src);
    if srcBin >= 64 {
      return false, decoded, dst, bitPos;
    }
    decoded', dst', bitPos' := TakeDigit(decoded, dst, bitPos, srcBin, digits);
    ok := true;
  }

  /** Decodes unless some character is neither skipped nor a digit: as many whole bytes as the
      digits fill, with the bits of the digits. */
  method Base64Unescape(encoded: string) returns (ok: bool, decoded: seq<byte>)
    ensures Decodes(encoded, ok, decoded)
  {
    decoded := [];
    var bitPos, dst: byte := 0, 0;
    for k := 0 to |encoded|
      invariant IsAccepted(encoded[..k])
      invariant Conserved(decoded, dst, bitPos, DigitsOf(encoded[..k]))
    {
      OneMoreCharacter(encoded, k);
      ok, decoded, dst, bitPos := TakeCharacter(encoded[k], decoded, dst, bitPos, DigitsOf(encoded[..k]));
      if !ok {
        return false, [];
      }
    }
    assert encoded[..|encoded|] == encoded;
    ConservedIsFront(decoded, dst, bitPos, DigitsOf(encoded));
    ok := true;
  }

  // ---------- Encoding, after sections 4 and 5 of RFC 4648 ----------

  // The digits of a group of three bytes; a missing byte counts as zero.
  function First(a: byte): byte { a >> 2 }
  function Second(a: byte, b: byte): byte { ((a & 0x03) << 4) | (b >> 4) }
  function Third(b: byte, c: byte): byte { ((b & 0x0F) << 2) | (c >> 6) }
  function Fourth(c: byte): byte { c & 0x3F }

  /** One group fewer. */
  lemma GroupCount(n: nat)
    ensures n > 0 && n % 3 == 0 ==> n >= 3 && (n - 1) / 3 == (n + 2) / 3 - 1
    ensures n % 3 == 1 ==> (n + 1) / 3 == (n + 2) / 3 - 1
    ensures n % 3 == 2 ==> n / 3 == (n + 2) / 3 - 1
  {
  }

  /** The digits of the groups from the left; the last group may be short. */
  function Encoded(s: seq<byte>): (digits: seq<byte>)
    ensures |digits| == |s| + (|s| + 2) / 3
  {
    var n := |s|;
    GroupCount(n);
    if n == 0 then []
    else if n % 3 == 0 then
      Encoded(s[..n - 3]) + [First(s[n - 3]), Second(s[n - 3], s[n - 2]), Third(s[n - 2], s[n - 1]), Fourth(s[n - 1])]
    else if n % 3 == 1 then Encoded(s[..n - 1]) + [First(s[n - 1]), Second(s[n - 1], 0)]
    else Encoded(s[..n - 2]) + [First(s[n - 2]), Second(s[n - 2], s[n - 1]), Third(s[n - 1], 0)]
  }

  // The bits of the four digits.
  lemma FirstOfGroup(a: byte)
    ensures Bits(First(a), 6) ==
            [a & 0x80 != 0, a & 0x40 != 0, a & 0x20 != 0, a & 0x10 != 0, a & 0x08 != 0, a & 0x04 != 0]
  {
    SixBits(First(a));
  }

  lemma SecondOfGroup(a: byte, b: byte)
    ensures Bits(Second(a, b), 6) ==
            [a & 0x02 != 0, a & 0x01 != 0, b & 0x80 != 0, b & 0x40 != 0, b & 0x20 != 0, b & 0x10 != 0]
  {
    SixBits(Second(a, b));
  }

  lemma ThirdOfGroup(b: byte, c: byte)
    ensures Bits(Third(b, c), 6) ==
            [b & 0x08 != 0, b & 0x04 != 0, b & 0x02 != 0, b & 0x01 != 0, c & 0x80 != 0, c & 0x40 != 0]
  {
    SixBits(Third(b, c));
  }

  lemma FourthOfGroup(c: byte)
    ensures Bits(Fourth(c), 6) ==
            [c & 0x20 != 0, c & 0x10 != 0, c & 0x08 != 0, c & 0x04 != 0, c & 0x02 != 0, c & 0x01 != 0]
  {
    SixBits(Fourth(c));
  }

  lemma FirstHasBits(a: byte)
    ensures Bits(First(a), 6) == Bits(a, 8)[..6]
  {
    FirstOfGroup(a);
    EightBits(a);
  }

  lemma SecondHasBits(a: byte, b: byte)
    ensures Bits(Second(a, b), 6) == Bits(a, 8)[6..] + Bits(b, 8)[..4]
  {
    SecondOfGroup(a, b);
    EightBits(a);
    EightBits(b);
  }

  lemma ThirdHasBits(b: byte, c: byte)
    ensures Bits(Third(b, c), 6) == Bits(b, 8)[4..] + Bits(c, 8)[..2]
  {
    ThirdOfGroup(b, c);
    EightBits(b);
    EightBits(c);
  }

  lemma FourthHasBits(c: byte)
    ensures Bits(Fourth(c), 6) == Bits(c, 8)[2..]
  {
    FourthOfGroup(c);
    EightBits(c);
  }

  lemma Regroup(a: seq<bool>, b: seq<bool>, c: seq<bool>)
    requires |a| == |b| == |c| == 8
    ensures a + b + c == a[..6] + (a[6..] + b[..4]) + (b[4..] + c[..2]) + c[2..]
  {
  }

  /** The four digits have the bits of the three bytes. */
  lemma GroupKeepsBits(a: byte, b: byte, c: byte)
    ensures Bits(a, 8) + Bits(b, 8) + Bits(c, 8) == Bits(First(a), 6) + Bits(Second(a, b), 6) + Bits(Third(b, c),
        6) + Bits(Fourth(c), 6)
  {
    FirstHasBits(a);
    SecondHasBits(a, b);
    ThirdHasBits(b, c);
    FourthHasBits(c);
    Regroup(Bits(a, 8), Bits(b, 8), Bits(c, 8));
  }

  lemma TwoMoreValues(s: seq<byte>, v: byte, w: byte, n: nat)
    ensures BitsOf(s + [v, w], n) == BitsOf(s, n) + (Bits(v, n) + Bits(w, n))
  {
    assert s + [v, w] == s + [v] + [w];
    OneMoreValue(s, v, n);
    OneMoreValue(s + [v], w, n);
    Associates(BitsOf(s, n), Bits(v, n), Bits(w, n));
  }

  lemma ThreeMoreValues(s: seq<byte>, v: byte, w: byte, x: byte, n: nat)
    ensures BitsOf(s + [v, w, x], n) == BitsOf(s, n) + (Bits(v, n) + Bits(w, n) + Bits(x, n))
  {
    assert s + [v, w, x] == s + [v, w] + [x];
    TwoMoreValues(s, v, w, n);
    OneMoreValue(s + [v, w], x, n);
    Associates(BitsOf(s, n), Bits(v, n) + Bits(w, n), Bits(x, n));
  }

  lemma FourMoreValues(s: seq<byte>, v: byte, w: byte, x: byte, y: byte, n: nat)
    ensures BitsOf(s + [v, w, x, y], n) == BitsOf(s, n) + (Bits(v, n) + Bits(w, n) + Bits(x, n) + Bits(y, n))
  {
    assert s + [v, w, x, y] == s + [v, w, x] + [y];
    ThreeMoreValues(s, v, w, x, n);
    OneMoreValue(s + [v, w, x], y, n);
    Associates(BitsOf(s, n), Bits(v, n) + Bits(w, n) + Bits(x, n), Bits(y, n));
  }

  lemma GroupGoesOn(p: seq<byte>, digits: seq<byte>, a: byte, b: byte, c: byte)
    requires BitsOf(digits, 6) == BitsOf(p, 8)
    ensures BitsOf(digits + [First(a), Second(a, b), Third(b, c), Fourth(c)], 6) == BitsOf(p + [a, b, c], 8)
  {
    ThreeMoreValues(p, a, b, c, 8);
    FourMoreValues(digits, First(a), Second(a, b), Third(b, c), Fourth(c), 6);
    GroupKeepsBits(a, b, c);
  }

  /** Whole groups have the same bits as digits and as bytes. */
  lemma {:induction false} WholeGroups(s: seq<byte>)
    requires |s| % 3 == 0
    ensures BitsOf(Encoded(s), 6) == BitsOf(s, 8)
  {
    if s != [] {
      var n := |s|;
      var p, a, b, c := s[..n - 3], s[n - 3], s[n - 2], s[n - 1];
      WholeGroups(p);
      assert s == p + [a, b, c];
      GroupGoesOn(p, Encoded(p), a, b, c);
    }
  }

  lemma GroupOfOne(s: seq<byte>)
    requires |s| % 3 == 1
    ensures var n := |s|; Encoded(s) == Encoded(s[..n - 1]) + [First(s[n - 1]), Second(s[n - 1], 0)]
  {
  }

  lemma GroupOfTwo(s: seq<byte>)
    requires |s| % 3 == 2
    ensures var n := |s|; Encoded(s) == Encoded(s[..n - 2]) + [First(s[n - 2]), Second(s[n - 2], s[n - 1]),
        Third(s[n - 1], 0)]
  {
  }

  lemma OneByteLeft(p: seq<byte>, a: byte)
    requires |p| % 3 == 0
    ensures BitsOf(p + [a], 8) <= BitsOf(Encoded(p) + [First(a), Second(a, 0)], 6)
  {
    WholeGroups(p);
    OneMoreValue(p, a, 8);
    TwoMoreValues(Encoded(p), First(a), Second(a, 0), 6);
    FirstHasBits(a);
    SecondHasBits(a, 0);
    OneIsPrefix(BitsOf(p, 8), Bits(a, 8), Bits(0, 8));
  }

  lemma OneIsPrefix(x: seq<bool>, a: seq<bool>, b: seq<bool>)
    requires |a| == |b| == 8
    ensures x + a <= x + (a[..6] + (a[6..] + b[..4]))
  {
  }

  lemma TwoBytesLeft(p: seq<byte>, a: byte, b: byte)
    requires |p| % 3 == 0
    ensures BitsOf(p + [a, b], 8) <= BitsOf(Encoded(p) + [First(a), Second(a, b), Third(b, 0)], 6)
  {
    WholeGroups(p);
    TwoMoreValues(p, a, b, 8);
    ThreeMoreValues(Encoded(p), First(a), Second(a, b), Third(b, 0), 6);
    FirstHasBits(a);
    SecondHasBits(a, b);
    ThirdHasBits(b, 0);
    TwoArePrefix(BitsOf(p, 8), Bits(a, 8), Bits(b, 8), Bits(0, 8));
  }

  lemma TwoArePrefix(x: seq<bool>, a: seq<bool>, b: seq<bool>, c: seq<bool>)
    requires |a| == |b| == |c| == 8
    ensures x + (a + b) <= x + (a[..6] + (a[6..] + b[..4]) + (b[4..] + c[..2]))
  {
    assert a[..6] + (a[6..] + b[..4]) + (b[4..] + c[..2]) == a + b + c[..2];
  }

  /** The digits begin with the bits of the bytes. */
  lemma EncodedKeepsBits(s: seq<byte>)
    ensures BitsOf(s, 8) <= BitsOf(Encoded(s), 6)
  {
    var n := |s|;
    if n % 3 == 0 {
      WholeGroups(s);
    } else if n % 3 == 1 {
      OneByteLeft(s[..n - 1], s[n - 1]);
      GroupOfOne(s);
      Last(s);
    } else {
      TwoBytesLeft(s[..n - 2], s[n - 2], s[n - 1]);
      GroupOfTwo(s);
      LastTwo(s);
    }
  }

  lemma Last<T>(s: seq<T>)
    requires |s| >= 1
    ensures s == s[..|s| - 1] + [s[|s| - 1]]
  {
  }

  lemma LastTwo<T>(s: seq<T>)
    requires |s| >= 2
    ensures s == s[..|s| - 2] + [s[|s| - 2], s[|s| - 1]]
  {
  }

  lemma {:induction false} SameBitsSameBytes(x: seq<byte>, y: seq<byte>)
    requires BitsOf(x, 8) == BitsOf(y, 8)
    ensures x == y
  {
    assert |x| == |y|;
    if x != [] {
      var m := |x| - 1;
      SplitEqually(BitsOf(x[..m], 8), Bits(x[m], 8), BitsOf(y[..m], 8), Bits(y[m], 8));
      SameBitsSameBytes(x[..m], y[..m]);
      SameBitsSameByte(x[m], y[m]);
      Last(x);
      Last(y);
    }
  }

  lemma SplitEqually(u: seq<bool>, v: seq<bool>, w: seq<bool>, z: seq<bool>)
    requires u + v == w + z && |u| == |w|
    ensures u == w && v == z
  {
    assert u == (u + v)[..|u|] && w == (w + z)[..|u|] && v == (u + v)[|u|..] && z == (w + z)[|u|..];
  }

  lemma SameBitsSameByte(v: byte, w: byte)
    requires Bits(v, 8) == Bits(w, 8)
    ensures v == w
  {
    EightBits(v);
    EightBits(w);
    assert forall k :: 0 <= k < 8 ==> Bits(v, 8)[k] == Bits(w, 8)[k];
  }

  /** Decoding what was encoded, in whatever text its digits stand, gives the bytes back. */
  lemma DecodingInvertsEncoding(bytes: seq<byte>, encoded: string, decoded: seq<byte>)
    requires DigitsOf(encoded) == Encoded(bytes) && IsFront(decoded, DigitsOf(encoded))
    ensures decoded == bytes
  {
    EncodedKeepsBits(bytes);
    assert BitsOf(bytes, 8) == BitsOf(Encoded(bytes), 6)[..8 * |bytes|];
    SameBitsSameBytes(decoded, bytes);
  }

  // ---------- Texts ----------

  function DigitChar(v: byte, urlSafe: bool): char
    requires v < 64
  {
    var c := BASE64[v as nat];
    if urlSafe && c == '+' then '-' else if urlSafe && c == '/' then '_' else c
  }

  lemma DigitCharHasValue(v: byte, urlSafe: bool)
    requires v < 64
    ensures var c := DigitChar(v, urlSafe); IsDigit(c) && ValueOf(c) == v && !IsSkipped(c)
  {
    AlphabetAt(v as nat);
  }

  predicate AreDigits(digits: seq<byte>) { forall k :: 0 <= k < |digits| ==> digits[k] < 64 }

  function DigitChars(digits: seq<byte>, urlSafe: bool): string
    requires AreDigits(digits)
  {
    if digits == [] then ""
    else DigitChars(digits[..|digits| - 1], urlSafe) + [DigitChar(digits[|digits| - 1], urlSafe)]
  }

  lemma DigitBounds(a: byte, b: byte)
    ensures First(a) < 64 && Second(a, b) < 64 && Third(a, b) < 64 && Fourth(a) < 64
  {
  }

  lemma {:induction false} EncodedAreDigits(s: seq<byte>)
    ensures AreDigits(Encoded(s))
  {
    var n := |s|;
    if n == 0 {
    } else if n % 3 == 0 {
      var a, b, c := s[n - 3], s[n - 2], s[n - 1];
      EncodedAreDigits(s[..n - 3]);
      DigitsJoin(Encoded(s[..n - 3]), a, b, c);
    } else if n % 3 == 1 {
      EncodedAreDigits(s[..n - 1]);
      DigitsJoin(Encoded(s[..n - 1]), s[n - 1], 0, 0);
    } else {
      EncodedAreDigits(s[..n - 2]);
      DigitsJoin(Encoded(s[..n - 2]), s[n - 2], s[n - 1], 0);
    }
  }

  lemma DigitsJoin(front: seq<byte>, a: byte, b: byte, c: byte)
    requires AreDigits(front)
    ensures AreDigits(front + [First(a), Second(a, b), Third(b, c), Fourth(c)])
    ensures AreDigits(front + [First(a), Second(a, b), Third(b, c)]) && AreDigits(front + [First(a), Second(a, b)])
  {
    DigitBounds(a, b);
    DigitBounds(b, c);
    DigitBounds(c, 0);
  }

  /** The text of section 4 or 5, with or without the padding to whole groups of four. */
  function Encode(s: seq<byte>, urlSafe: bool, padded: bool): string {
    EncodedAreDigits(s);
    DigitChars(Encoded(s), urlSafe) + if !padded || |s| % 3 == 0 then "" else if |s| % 3 == 1 then "==" else "="
  }

  lemma CharAtEnd(text: string, c: char)
    requires IsDigit(c)
    ensures DigitsOf(text + [c]) == DigitsOf(text) + [ValueOf(c)]
  {
    assert (text + [c])[..|text|] == text;
  }

  lemma {:induction false} CharsHaveDigits(digits: seq<byte>, urlSafe: bool)
    requires AreDigits(digits)
    ensures DigitsOf(DigitChars(digits, urlSafe)) == digits
  {
    if digits != [] {
      var m := |digits| - 1;
      var v := digits[m];
      assert v < 64;
      CharsHaveDigits(digits[..m], urlSafe);
      DigitCharHasValue(v, urlSafe);
      CharAtEnd(DigitChars(digits[..m], urlSafe), DigitChar(v, urlSafe));
      Last(digits);
    }
  }

  /** The text without what a decoder skips. */
  function Unskipped(text: string): (r: string)
    ensures |r| <= |text|
  {
    if text == "" then ""
    else
      var front, c := Unskipped(text[..|text| - 1]), text[|text| - 1];
      if IsSkipped(c) then front else front + [c]
  }

  lemma UnskippedAtEnd(text: string, c: char)
    ensures Unskipped(text + [c]) == if IsSkipped(c) then Unskipped(text) else Unskipped(text) + [c]
  {
    assert (text + [c])[..|text|] == text;
  }

  /** Whitespace and padding may stand anywhere. */
  lemma {:induction false} SkippedDoNotMatter(text: string)
    ensures DigitsOf(text) == DigitsOf(Unskipped(text)) && (IsAccepted(text) <==> IsAccepted(Unskipped(text)))
  {
    if text != "" {
      var front, c := text[..|text| - 1], text[|text| - 1];
      assert text == front + [c];
      SkippedDoNotMatter(front);
      UnskippedAtEnd(front, c);
      AcceptedAtEnd(front, c);
      AcceptedAtEnd(Unskipped(front), c);
      SkippedIsNoDigit(c);
    }
  }

  lemma AcceptedAtEnd(text: string, c: char)
    ensures IsAccepted(text + [c]) <==> IsAccepted(text) && IsAcceptedChar(c)
    ensures DigitsOf(text + [c]) == if IsDigit(c) then DigitsOf(text) + [ValueOf(c)] else DigitsOf(text)
  {
    var longer := text + [c];
    assert longer[..|text|] == text && longer[|text|] == c;
    assert forall m :: 0 <= m < |text| ==> longer[m] == text[m];
  }

  lemma {:induction false} CharsAreKept(digits: seq<byte>, urlSafe: bool)
    requires AreDigits(digits)
    ensures Unskipped(DigitChars(digits, urlSafe)) == DigitChars(digits, urlSafe)
    ensures IsAccepted(DigitChars(digits, urlSafe))
  {
    if digits != [] {
      var front := DigitChars(digits[..|digits| - 1], urlSafe);
      CharsAreKept(digits[..|digits| - 1], urlSafe);
      DigitCharHasValue(digits[|digits| - 1], urlSafe);
      UnskippedAtEnd(front, DigitChar(digits[|digits| - 1], urlSafe));
      AcceptedAtEnd(front, DigitChar(digits[|digits| - 1], urlSafe));
    }
  }

  /** Padding is all that a decoder skips in an encoding. */
  lemma EncodeUnskipped(s: seq<byte>, urlSafe: bool, padded: bool)
    ensures Unskipped(Encode(s, urlSafe, padded)) == Encode(s, urlSafe, false)
  {
    EncodedAreDigits(s);
    var chars := DigitChars(Encoded(s), urlSafe);
    CharsAreKept(Encoded(s), urlSafe);
    UnskippedAtEnd(chars, '=');
    UnskippedAtEnd(chars + "=", '=');
    assert chars + "" == chars && chars + "=" + "=" == chars + "==";
  }

  /** An encoding is accepted, in either alphabet and with or without padding, and has the digits of the bytes. */
  lemma EncodeHasDigits(s: seq<byte>, urlSafe: bool, padded: bool)
    ensures DigitsOf(Encode(s, urlSafe, padded)) == Encoded(s) && IsAccepted(Encode(s, urlSafe, padded))
  {
    EncodedAreDigits(s);
    var chars := DigitChars(Encoded(s), urlSafe);
    CharsHaveDigits(Encoded(s), urlSafe);
    CharsAreKept(Encoded(s), urlSafe);
    EncodeUnskipped(s, urlSafe, padded);
    assert chars + "" == chars;
    SkippedDoNotMatter(Encode(s, urlSafe, padded));
  }

  /** Any text that is an encoding but for skipped characters is decoded to the bytes encoded, in either alphabet. */
  lemma EncodingDecodes(bytes: seq<byte>, urlSafe: bool, padded: bool, text: string, ok: bool, decoded: seq<byte>)
    requires Unskipped(text) == Unskipped(Encode(bytes, urlSafe, padded)) && Decodes(text, ok, decoded)
    ensures ok && decoded == bytes
  {
    EncodeHasDigits(bytes, urlSafe, padded);
    SkippedDoNotMatter(Encode(bytes, urlSafe, padded));
    SkippedDoNotMatter(text);
    DecodingInvertsEncoding(bytes, text, decoded);
  }
}
