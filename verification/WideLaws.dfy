/** Wide strings, well-formed or not, and the code points that they stand for. */
module WideLaws {
  import opened CStrings
  import opened Utf8

  ghost predicate AreUnits(units: seq<bv32>) { forall k :: 0 <= k < |units| ==> units[k] <= 0xFFFF }

  ghost predicate IsLead(u: bv32) { 0xD800 <= u <= 0xDBFF }

  ghost predicate IsTrail(u: bv32) { 0xDC00 <= u <= 0xDFFF }

  lemma PairsAreLeadAndTrail(first: bv32, second: bv32)
    requires first <= 0xFFFF && second <= 0xFFFF
    ensures IsUtf16SurrogatePair(true, first, second) <==> IsLead(first) && IsTrail(second)
  {
  }

  lemma BitsAreKept(first: bv32, second: bv32)
    requires IsLead(first) && IsTrail(second)
    ensures TwentyBits(first, second) <= 0xF_FFFF
    ensures LeadSurrogate(TwentyBits(first, second)) == first && TrailSurrogate(TwentyBits(first, second)) == second
  {
  }

  lemma AddAndTakeOff(u: bv32, c: bv32)
    requires u <= 0xF_FFFF && c == u + 0x1_0000
    ensures 0x1_0000 <= c <= 0x10_FFFF && c - 0x1_0000 == u
  {
  }

  lemma WrittenAsPair(c: bv32, u: bv32)
    requires 0x1_0000 <= c && c - 0x1_0000 == u
    ensures Utf16(c) == [LeadSurrogate(u), TrailSurrogate(u)]
  {
  }

  lemma PairStandsFor(first: bv32, second: bv32, u: bv32)
    requires u == TwentyBits(first, second)
    ensures CreateCodePointFromUtf16SurrogatePair(true, first, second) == u + 0x1_0000
  {
  }

  /** A pair stands for a code point that is written as that pair. */
  lemma PairIsKept(first: bv32, second: bv32)
    requires IsLead(first) && IsTrail(second)
    ensures var c := CreateCodePointFromUtf16SurrogatePair(true, first, second);
      0x1_0000 <= c <= 0x10_FFFF && Utf16(c) == [first, second]
  {
    var u, c := TwentyBits(first, second), CreateCodePointFromUtf16SurrogatePair(true, first, second);
    assert u <= 0xF_FFFF && LeadSurrogate(u) == first && TrailSurrogate(u) == second by { BitsAreKept(first, second); }
    assert c == u + 0x1_0000 by { PairStandsFor(first, second, u); }
    assert 0x1_0000 <= c <= 0x10_FFFF && c - 0x1_0000 == u by { AddAndTakeOff(u, c); }
    assert Utf16(c) == [LeadSurrogate(u), TrailSurrogate(u)] by { WrittenAsPair(c, u); }
  }

  /** Whatever the units are, writing the code points again gives the units before the first NUL. */
  lemma {:induction false} UnitsAreKept(units: seq<bv32>)
    requires AreUnits(units)
    ensures Utf16Text(CodePointsOf(true, units)) == CString(units, 0)
  {
    if units != [] && units[0] != 0 {
      var cs := CodePointsOf(true, units);
      if |units| > 1 && IsUtf16SurrogatePair(true, units[0], units[1]) {
        UnitsAreKept(units[2..]);
        PairsAreLeadAndTrail(units[0], units[1]);
        PairIsKept(units[0], units[1]);
        assert units[1..][1..] == units[2..];
        assert cs[1..] == CodePointsOf(true, units[2..]);
      } else {
        UnitsAreKept(units[1..]);
        assert cs[1..] == CodePointsOf(true, units[1..]);
      }
    }
  }

  /** No pair is left as two: behind a leading surrogate there is no trailing one. */
  lemma {:induction false} NoPairIsLeft(units: seq<bv32>, k: nat)
    requires AreUnits(units) && k + 1 < |CodePointsOf(true, units)|
    ensures var cs := CodePointsOf(true, units); !(IsLead(cs[k]) && IsTrail(cs[k + 1]))
  {
    var cs := CodePointsOf(true, units);
    if |units| > 1 && IsUtf16SurrogatePair(true, units[0], units[1]) {
      PairsAreLeadAndTrail(units[0], units[1]);
      PairIsKept(units[0], units[1]);
      if k > 0 {
        assert cs[1..] == CodePointsOf(true, units[2..]);
        NoPairIsLeft(units[2..], k - 1);
      }
    } else {
      var rest := CodePointsOf(true, units[1..]);
      assert cs[1..] == rest;
      if k > 0 {
        NoPairIsLeft(units[1..], k - 1);
      } else {
        PairsAreLeadAndTrail(units[0], units[1]);
        SecondCodePoint(units[1..]);
      }
    }
  }

  lemma SecondCodePoint(units: seq<bv32>)
    requires AreUnits(units) && CodePointsOf(true, units) != []
    ensures IsTrail(CodePointsOf(true, units)[0]) ==> IsTrail(units[0])
  {
    if |units| > 1 && IsUtf16SurrogatePair(true, units[0], units[1]) {
      PairsAreLeadAndTrail(units[0], units[1]);
      PairIsKept(units[0], units[1]);
    }
  }
}
