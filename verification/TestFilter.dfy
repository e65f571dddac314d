/** Test name filters, after SplitString, UnitTestFilter and PositiveAndNegativeUnitTestFilter in gtest.cc. */
module TestFilter {
  import Glob

  // ---------- Splitting and joining ----------

  /** The position of the first delimiter, or the length if there is none. */
  function FirstAt(s: string, d: char): (i: nat)
    ensures i <= |s| && d !in s[..i]
    ensures i < |s| ==> s[i] == d
  {
    if s == "" || s[0] == d then 0 else 1 + FirstAt(s[1..], d)
  }

  function Split(s: string, d: char): (parts: seq<string>)
    ensures parts != []
  {
    var i := FirstAt(s, d);
    if i == |s| then [s] else [s[..i]] + Split(s[i + 1..], d)
  }

  function Join(parts: seq<string>, d: char): string
    requires parts != []
  {
    if |parts| == 1 then parts[0] else parts[0] + [d] + Join(parts[1..], d)
  }

  /** Splitting is undone by joining, and no part holds the delimiter. */
  lemma {:induction false} JoinSplit(s: string, d: char)
    ensures Join(Split(s, d), d) == s
    ensures forall p :: p in Split(s, d) ==> d !in p
  {
    var i := FirstAt(s, d);
    if i < |s| {
      JoinSplit(s[i + 1..], d);
      assert Split(s, d)[1..] == Split(s[i + 1..], d);
      assert s == s[..i] + [d] + s[i + 1..];
    } else {
      assert s[..i] == s;
    }
  }

  lemma {:induction false} FirstAtFound(p: string, d: char, rest: string)
    requires d !in p
    ensures FirstAt(p + [d] + rest, d) == |p|
    ensures FirstAt(p, d) == |p|
  {
    if p != "" {
      FirstAtFound(p[1..], d, rest);
      assert (p + [d] + rest)[1..] == p[1..] + [d] + rest;
    }
  }

  /** Splitting is the only way to cut a string at its delimiters. */
  lemma {:induction false} SplitJoin(parts: seq<string>, d: char)
    requires parts != [] && forall p :: p in parts ==> d !in p
    ensures Split(Join(parts, d), d) == parts
  {
    if |parts| == 1 {
      FirstAtFound(parts[0], d, "");
    } else {
      var rest := Join(parts[1..], d);
      SplitJoin(parts[1..], d);
      FirstAtFound(parts[0], d, rest);
      var s := parts[0] + [d] + rest;
      assert Join(parts, d) == s && FirstAt(s, d) == |parts[0]| < |s|;
      assert s[..|parts[0]|] == parts[0] && s[|parts[0]| + 1..] == rest;
      assert Split(s, d) == [parts[0]] + Split(rest, d);
      assert parts == [parts[0]] + parts[1..];
    }
  }

  method Find(str: string, delimiter: char, pos: nat) returns (at: nat)
    requires pos <= |str|
    ensures at == pos + FirstAt(str[pos..], delimiter)
  {
    at := pos;
    while at < |str| && str[at] != delimiter
      invariant pos <= at <= |str|
      invariant at + FirstAt(str[at..], delimiter) == pos + FirstAt(str[pos..], delimiter)
    {
      assert str[at..][1..] == str[at + 1..];
      at := at + 1;
    }
  }

  method SplitString(str: string, delimiter: char) returns (dest: seq<string>)
    ensures dest == Split(str, delimiter)
  {
    dest := [];
    var pos := 0;
    assert str[0..] == str;
    while true
      invariant pos <= |str|
      invariant dest + Split(str[pos..], delimiter) == Split(str, delimiter)
      decreases |str| - pos
    {
      var colon := Find(str, delimiter, pos);
      if colon == |str| {
        dest := dest + [str[pos..]];
        return;
      }
      assert str[pos..][..colon - pos] == str[pos..colon];
      assert str[pos..][colon - pos + 1..] == str[colon + 1..];
      ghost var part, rest := [str[pos..colon]], Split(str[colon + 1..], delimiter);
      assert Split(str[pos..], delimiter) == part + rest && dest + (part + rest) == dest + part + rest;
      dest := dest + [str[pos..colon]];
      pos := colon + 1;
    }
  }

  // ---------- One filter ----------

  predicate IsGlobPattern(pattern: string) {
    exists i :: 0 <= i < |pattern| && (pattern[i] == '?' || pattern[i] == '*')
  }

  /** The meaning of a filter: some pattern between colons matches the name. */
  ghost predicate Accepts(filter: string, name: string) {
    exists p :: p in Split(filter, ':') && Glob.Matches(p, name)
  }

  /** A pattern without wildcards matches only itself. */
  lemma {:induction false} PlainPatternMatchesItself(pattern: string, name: string)
    requires !IsGlobPattern(pattern)
    ensures Glob.Matches(pattern, name) <==> pattern == name
  {
    if pattern != "" {
      assert pattern[0] != '?' && pattern[0] != '*';
      if name != "" {
        forall i | 0 <= i < |pattern[1..]| ensures pattern[1..][i] != '?' && pattern[1..][i] != '*' {
          assert pattern[1..][i] == pattern[i + 1];
        }
        PlainPatternMatchesItself(pattern[1..], name[1..]);
        assert pattern == [pattern[0]] + pattern[1..] && name == [name[0]] + name[1..];
      }
    }
  }

  datatype UnitTestFilter = UnitTestFilter(globPatterns: seq<string>, exactMatchPatterns: set<string>) {
    ghost predicate Selects(name: string) {
      name in exactMatchPatterns || exists p :: p in globPatterns && Glob.Matches(p, name)
    }

    method MatchesName(name: string) returns (result: bool)
      ensures result <==> Selects(name)
    {
      if name in exactMatchPatterns { return true; }
      for i := 0 to |globPatterns|
        invariant forall k :: 0 <= k < i ==> !Glob.Matches(globPatterns[k], name)
      {
        var matched := Glob.PatternMatchesString(name, globPatterns[i]);
        if matched { return true; }
      }
      return false;
    }
  }

  // The filter that a default construction gives.
  const EMPTY_FILTER := UnitTestFilter([], {})
  const UNIVERSAL_FILTER := "*"

  function Globs(patterns: seq<string>): (r: seq<string>)
    ensures forall p :: p in r <==> p in patterns && IsGlobPattern(p)
  {
    if patterns == [] then []
    else (if IsGlobPattern(patterns[0]) then [patterns[0]] else []) + Globs(patterns[1..])
  }

  method MakeUnitTestFilter(filter: string) returns (f: UnitTestFilter)
    ensures forall name :: f.Selects(name) <==> Accepts(filter, name)
  {
    var allPatterns := SplitString(filter, ':');
    f := UnitTestFilter(Globs(allPatterns), set p | p in allPatterns && !IsGlobPattern(p));
    forall name ensures f.Selects(name) <==> Accepts(filter, name) {
      forall p | p in allPatterns && !IsGlobPattern(p) ensures Glob.Matches(p, name) <==> p == name {
        PlainPatternMatchesItself(p, name);
      }
    }
  }

  // ---------- A positive and a negative filter ----------

  /** The meaning of a whole filter: what stands before the first dash is wanted, what follows it is
      not; with a dash, an empty first half wants everything. */
  ghost predicate Wanted(filter: string, name: string) {
    var i := FirstAt(filter, '-');
    if i == |filter| then Accepts(filter, name)
    else Accepts(if i == 0 then UNIVERSAL_FILTER else filter[..i], name) && !Accepts(filter[i + 1..], name)
  }

  datatype PositiveAndNegativeUnitTestFilter =
    PositiveAndNegativeUnitTestFilter(positive: UnitTestFilter, negative: UnitTestFilter)
  {
    ghost predicate Selects(name: string) {
      positive.Selects(name) && !negative.Selects(name)
    }

    method MatchesName(name: string) returns (result: bool)
      ensures result <==> Selects(name)
    {
      result := positive.MatchesName(name);
      if result {
        var excluded := negative.MatchesName(name);
        result := !excluded;
      }
    }
  }

  /** Joining one more part at the end. */
  lemma {:induction false} JoinSnoc(parts: seq<string>, p: string, d: char)
    requires parts != []
    ensures Join(parts + [p], d) == Join(parts, d) + [d] + p
  {
    if |parts| > 1 {
      JoinSnoc(parts[1..], p, d);
      assert (parts + [p])[1..] == parts[1..] + [p];
    } else {
      assert (parts + [p])[1..] == [p];
    }
  }

  /** Splitting at every dash and joining all but the first part cuts at the first dash. */
  lemma CutAtFirstDash(filter: string)
    ensures var i, parts := FirstAt(filter, '-'), Split(filter, '-');
      if |parts| == 1 then i == |filter| && parts[0] == filter
      else i < |filter| && parts[0] == filter[..i] && Join(parts[1..], '-') == filter[i + 1..]
  {
    var i := FirstAt(filter, '-');
    if i < |filter| {
      JoinSplit(filter[i + 1..], '-');
      assert Split(filter, '-')[1..] == Split(filter[i + 1..], '-');
    }
  }

  method JoinTail(parts: seq<string>) returns (s: string)
    requires |parts| > 1
    ensures s == Join(parts[1..], '-')
  {
    s := parts[1];
    for k := 2 to |parts|
      invariant s == Join(parts[1..k], '-')
    {
      JoinSnoc(parts[1..k], parts[k], '-');
      assert parts[1..k] + [parts[k]] == parts[1..k + 1];
      s := s + ['-'] + parts[k];
    }
    assert parts[1..|parts|] == parts[1..];
  }

  method MakePositiveAndNegativeFilter(filter: string) returns (f: PositiveAndNegativeUnitTestFilter)
    ensures forall name :: f.Selects(name) <==> Wanted(filter, name)
  {
    var parts := SplitString(filter, '-');
    CutAtFirstDash(filter);
    var positiveFilter := parts[0];
    if |parts| > 1 {
      var positive := MakeUnitTestFilter(if positiveFilter == "" then UNIVERSAL_FILTER else positiveFilter);
      var negativeFilterString := JoinTail(parts);
      var negative := MakeUnitTestFilter(negativeFilterString);
      f := PositiveAndNegativeUnitTestFilter(positive, negative);
    } else {
      var positive := MakeUnitTestFilter(positiveFilter);
      f := PositiveAndNegativeUnitTestFilter(positive, EMPTY_FILTER);
    }
  }

  /** A test is selected by its full name, suite and test joined by a dot. */
  method FilterMatchesTest(filter: string, suiteName: string, testName: string) returns (result: bool)
    ensures result <==> Wanted(filter, suiteName + "." + testName)
  {
    var f := MakePositiveAndNegativeFilter(filter);
    result := f.MatchesName(suiteName + "." + testName);
  }
}
