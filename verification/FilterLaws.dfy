/** Patterns and filters put together from parts, and the names that the fixed filters mean. */
module FilterLaws {
  import opened Collections
  import opened TestFilter
  import opened TestSelection
  import Glob

  // ---------- Patterns ----------

  /** A star stands for any string. */
  lemma StarMatchesAll(s: string)
    ensures Glob.Matches("*", s)
  {
    var none := "*"[1..];
    assert none == "" && Glob.Matches(none, s[|s|..]);
  }

  /** A question mark stands for one character, any other character but a star for itself. */
  lemma OneCharacterPatterns(c: char, s: string)
    requires c != '*'
    ensures Glob.Matches([c], s) <==> |s| == 1 && (c == '?' || c == s[0])
  {
    var none := [c][1..];
    assert none == "";
    if s != "" {
      assert Glob.Matches([c], s) <==> (c == '?' || c == s[0]) && Glob.Matches(none, s[1..]);
    }
  }

  /** The first pattern takes k characters, the second one the others. */
  ghost predicate CutAt(p: string, q: string, s: string, k: int) {
    0 <= k <= |s| && Glob.Matches(p, s[..k]) && Glob.Matches(q, s[k..])
  }

  lemma SkipMore(s: string, i: nat, k: nat)
    requires i <= k <= |s|
    ensures s[i..][k - i..] == s[k..] && s[i..][..k - i] == s[..k][i..]
  {
  }

  /** The first character of a pattern takes i characters. */
  ghost predicate Takes(c: char, s: string, i: int) {
    0 <= i <= |s| && (c == '*' || (i == 1 && (c == '?' || c == s[0])))
  }

  lemma HeadTakes(p: string, s: string) returns (i: int)
    requires p != "" && Glob.Matches(p, s)
    ensures Takes(p[0], s, i) && Glob.Matches(p[1..], s[i..])
  {
    i := 1;
    if p[0] == '*' {
      i :| 0 <= i <= |s| && Glob.Matches(p[1..], s[i..]);
    }
  }

  lemma HeadTaken(p: string, s: string, i: int)
    requires p != "" && Takes(p[0], s, i) && Glob.Matches(p[1..], s[i..])
    ensures Glob.Matches(p, s)
  {
  }

  lemma HeadOfBoth(p: string, q: string)
    requires p != ""
    ensures (p + q)[0] == p[0] && (p + q)[1..] == p[1..] + q
  {
  }

  lemma {:induction false} CutWhole(p: string, q: string, s: string) returns (k: int)
    requires Glob.Matches(p + q, s)
    ensures CutAt(p, q, s, k)
  {
    if p == "" {
      k := 0;
      assert p + q == q && s[0..] == s;
    } else {
      HeadOfBoth(p, q);
      var i := HeadTakes(p + q, s);
      var j := CutWhole(p[1..], q, s[i..]);
      k := i + j;
      SkipMore(s, i, k);
      assert Glob.Matches(p, s[..k]) by { HeadTaken(p, s[..k], i); }
    }
  }

  lemma {:induction false} JoinCut(p: string, q: string, s: string, k: int)
    requires CutAt(p, q, s, k)
    ensures Glob.Matches(p + q, s)
  {
    if p == "" {
      assert p + q == q && s[0..] == s;
    } else {
      var i := HeadTakes(p, s[..k]);
      SkipMore(s, i, k);
      JoinCut(p[1..], q, s[i..], k - i);
      HeadOfBoth(p, q);
      HeadTaken(p + q, s, i);
    }
  }

  /** Two patterns in a row match what can be cut into a match of each. */
  lemma PatternsConcatenate(p: string, q: string, s: string)
    ensures Glob.Matches(p + q, s) <==> exists k :: CutAt(p, q, s, k)
  {
    if Glob.Matches(p + q, s) {
      var k := CutWhole(p, q, s);
    }
    if k :| CutAt(p, q, s, k) {
      JoinCut(p, q, s, k);
    }
  }

  ghost predicate HasAt(part: string, s: string, i: int) { 0 <= i <= |s| && part <= s[i..] }

  /** Text with a star behind it means that the name begins with the text. */
  lemma BeginsWith(text: string, s: string)
    requires !IsGlobPattern(text)
    ensures Glob.Matches(text + "*", s) <==> text <= s
  {
    PatternsConcatenate(text, "*", s);
    forall k ensures CutAt(text, "*", s, k) <==> 0 <= k <= |s| && s[..k] == text {
      if 0 <= k <= |s| {
        PlainPatternMatchesItself(text, s[..k]);
        StarMatchesAll(s[k..]);
      }
    }
    if text <= s {
      assert CutAt(text, "*", s, |text|);
    }
  }

  /** A star in front of a pattern skips any characters. */
  lemma StarSkips(p: string, s: string)
    ensures Glob.Matches("*" + p, s) <==> exists i :: 0 <= i <= |s| && Glob.Matches(p, s[i..])
  {
    assert ("*" + p)[1..] == p;
  }

  /** With a star on both sides the name holds the text somewhere. */
  lemma Holds(text: string, s: string)
    requires !IsGlobPattern(text)
    ensures Glob.Matches("*" + (text + "*"), s) <==> exists i :: HasAt(text, s, i)
  {
    StarSkips(text + "*", s);
    forall i | 0 <= i <= |s| ensures Glob.Matches(text + "*", s[i..]) <==> HasAt(text, s, i) {
      BeginsWith(text, s[i..]);
    }
  }

  /** With a star in front the name ends with the text. */
  lemma EndsWith(text: string, s: string)
    requires !IsGlobPattern(text)
    ensures Glob.Matches("*" + text, s) <==> |text| <= |s| && s[|s| - |text|..] == text
  {
    StarSkips(text, s);
    forall i | 0 <= i <= |s| ensures Glob.Matches(text, s[i..]) <==> s[i..] == text {
      PlainPatternMatchesItself(text, s[i..]);
    }
  }

  // ---------- Filters ----------

  /** What is cut off at the first delimiter. */
  lemma SplitsFirst(p: string, d: char, rest: string)
    requires d !in p
    ensures Split(p, d) == [p] && Split(p + [d] + rest, d) == [p] + Split(rest, d)
  {
    FirstAtFound(p, d, rest);
    var all := p + [d] + rest;
    assert all[..|p|] == p && all[|p| + 1..] == rest;
  }

  lemma {:induction false} SplitConcatenates(a: string, b: string, d: char)
    ensures Split(a + [d] + b, d) == Split(a, d) + Split(b, d)
  {
    var i := FirstAt(a, d);
    if i == |a| {
      assert a[..i] == a;
      SplitsFirst(a, d, b);
    } else {
      var p, rest := a[..i], a[i + 1..];
      assert a == p + [d] + rest;
      assert Split(a, d) == [p] + Split(rest, d);
      assert Split(a + [d] + b, d) == [p] + Split(rest + [d] + b, d) by {
        Regroup(p + [d], rest, [d], b);
        SplitsFirst(p, d, rest + [d] + b);
      }
      assert Split(rest + [d] + b, d) == Split(rest, d) + Split(b, d) by { SplitConcatenates(rest, b, d); }
      Associates([p], Split(rest, d), Split(b, d));
    }
  }

  lemma Regroup(w: string, x: string, y: string, z: string)
    ensures w + x + y + z == w + (x + y + z)
  {
    Associates(w, x, y);
    Associates(w, x + y, z);
  }

  /** With a colon between them, two filters accept what either does. */
  lemma ColonMeansEither(a: string, b: string, name: string)
    ensures Accepts(a + ":" + b, name) <==> Accepts(a, name) || Accepts(b, name)
  {
    SplitConcatenates(a, b, ':');
  }

  lemma OnePattern(p: string, name: string)
    requires ':' !in p
    ensures Accepts(p, name) <==> Glob.Matches(p, name)
  {
    FirstAtFound(p, ':', "");
    assert Split(p, ':') == [p];
  }

  /** What is behind the first dash is left out; with nothing before the dash all the rest is wanted. */
  lemma DashLeavesOut(a: string, b: string, name: string)
    requires '-' !in a
    ensures Wanted(a, name) <==> Accepts(a, name)
    ensures Wanted(a + "-" + b, name) <==> (a == "" || Accepts(a, name)) && !Accepts(b, name)
  {
    FirstAtFound(a, '-', b);
    var all := a + "-" + b;
    assert all[..|a|] == a && all[|a| + 1..] == b;
    OnePattern("*", name);
    StarMatchesAll(name);
  }

  // ---------- The fixed filters ----------

  // Text without wildcards and colons.
  ghost predicate IsPlainText(s: string) { !IsGlobPattern(s) && ':' !in s }

  lemma TwoPatterns(p: string, q: string, name: string)
    requires ':' !in p && ':' !in q
    ensures Accepts(p + ":" + q, name) <==> Glob.Matches(p, name) || Glob.Matches(q, name)
  {
    ColonMeansEither(p, q, name);
    OnePattern(p, name);
    OnePattern(q, name);
  }

  lemma BeginsOrHolds(begin: string, held: string, name: string)
    requires IsPlainText(begin) && IsPlainText(held)
    ensures Accepts(begin + "*" + ":" + ("*" + (held + "*")), name) <==>
              begin <= name || exists i :: HasAt(held, name, i)
  {
    TwoPatterns(begin + "*", "*" + (held + "*"), name);
    BeginsWith(begin, name);
    Holds(held, name);
  }

  lemma EndsOrHolds(end: string, held: string, name: string)
    requires IsPlainText(end) && IsPlainText(held)
    ensures Accepts("*" + end + ":" + ("*" + (held + "*")), name) <==>
              (|end| <= |name| && name[|name| - |end|..] == end) || exists i :: HasAt(held, name, i)
  {
    TwoPatterns("*" + end, "*" + (held + "*"), name);
    EndsWith(end, name);
    Holds(held, name);
  }

  const MARK := "DISABLED_"
  const MARK_BEHIND_SLASH := "/DISABLED_"
  const ENDING := "DeathTest"
  const ENDING_BEFORE_SLASH := "DeathTest/"

  lemma FixedFilters()
    ensures DISABLE_TEST_FILTER == MARK + "*" + ":" + ("*" + (MARK_BEHIND_SLASH + "*"))
    ensures DEATH_TEST_SUITE_FILTER == "*" + ENDING + ":" + ("*" + (ENDING_BEFORE_SLASH + "*"))
  {
  }

  lemma FixedTextsArePlain()
    ensures IsPlainText(MARK) && IsPlainText(MARK_BEHIND_SLASH)
    ensures IsPlainText(ENDING) && IsPlainText(ENDING_BEFORE_SLASH)
  {
  }

  /** The name begins with DISABLED_, or has it behind a slash. */
  ghost predicate IsDisabledName(s: string) {
    "DISABLED_" <= s || exists i :: HasAt("/DISABLED_", s, i)
  }

  /** A test is disabled exactly if its own name or that of its suite says so. */
  lemma DisabledByName(suite: string, test: string)
    ensures IsDisabled(suite, test) <==> IsDisabledName(suite) || IsDisabledName(test)
  {
    FixedTextsArePlain();
    FixedFilters();
    BeginsOrHolds(MARK, MARK_BEHIND_SLASH, suite);
    BeginsOrHolds(MARK, MARK_BEHIND_SLASH, test);
  }

  /** Without the flag that also runs them, disabled tests are left out. */
  lemma RunnableByName(filter: string, suite: string, test: string)
    ensures IsRunnable(Options(filter, true), suite, test) <==> Wanted(filter, suite + "." + test)
    ensures IsRunnable(Options(filter, false), suite, test) <==>
      !IsDisabledName(suite) && !IsDisabledName(test) && Wanted(filter, suite + "." + test)
  {
    DisabledByName(suite, test);
  }

  /** A suite is a death test suite exactly if its name ends in DeathTest, or has it before a slash. */
  lemma DeathByName(s: string)
    ensures IsDeathName(s) <==>
      (|s| >= 9 && s[|s| - 9..] == "DeathTest") || exists i :: HasAt("DeathTest/", s, i)
  {
    FixedTextsArePlain();
    FixedFilters();
    EndsOrHolds(ENDING, ENDING_BEFORE_SLASH, s);
  }
}
