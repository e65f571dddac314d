/** Glob matching with restarts at the last star, after PatternMatchesString in gtest.cc. */
module Glob {

  /** The meaning of a pattern: '*' stands for any string, '?' for any one character. */
  ghost predicate Matches(pattern: string, name: string)
    decreases |pattern|
  {
    if pattern == "" then name == ""
    else if pattern[0] == '*' then exists k :: 0 <= k <= |name| && Matches(pattern[1..], name[k..])
    else name != "" && (pattern[0] == '?' || pattern[0] == name[0]) && Matches(pattern[1..], name[1..])
  }

  predicate StarFree(s: string) { forall i :: 0 <= i < |s| ==> s[i] != '*' }

  /** A star may take one character more, or none. */
  lemma StarStep(pattern: string, name: string)
    requires pattern != "" && pattern[0] == '*'
    ensures Matches(pattern, name) <==>
              Matches(pattern[1..], name) || (name != "" && Matches(pattern, name[1..]))
  {
    if Matches(pattern[1..], name) {
      assert name[0..] == name;
    }
    if name != "" && Matches(pattern, name[1..]) {
      var k :| 0 <= k <= |name[1..]| && Matches(pattern[1..], name[1..][k..]);
      assert name[1..][k..] == name[k + 1..];
    }
    if Matches(pattern, name) {
      var k :| 0 <= k <= |name| && Matches(pattern[1..], name[k..]);
      if k == 0 {
        assert name[0..] == name;
      } else {
        assert name[1..][k - 1..] == name[k..];
      }
    }
  }

  /** What a star accepts it still accepts behind any further characters. */
  lemma {:induction false} StarTakesMore(pattern: string, name: string, k: nat)
    requires pattern != "" && pattern[0] == '*' && k <= |name| && Matches(pattern, name[k..])
    ensures Matches(pattern, name)
  {
    if k == 0 {
      assert name[0..] == name;
    } else {
      assert name[1..][k - 1..] == name[k..];
      StarTakesMore(pattern, name[1..], k - 1);
      StarStep(pattern, name);
    }
  }

  /** A star-free stretch consumes exactly its own length. */
  lemma {:induction false} StarFreePrefix(s: string, rest: string, name: string)
    requires StarFree(s) && Matches(s + rest, name)
    ensures |s| <= |name| && Matches(rest, name[|s|..])
  {
    if s == "" {
      assert s + rest == rest && name[0..] == name;
    } else {
      assert (s + rest)[0] == s[0] && (s + rest)[1..] == s[1..] + rest;
      StarFreePrefix(s[1..], rest, name[1..]);
      assert name[1..][|s| - 1..] == name[|s|..];
    }
  }

  /** Greed is safe: once a later star at p has been reached, an earlier star never needs to take
      more. Here the earlier star at q has already taken its characters and stands before name[m..]. */
  lemma LaterStarSuffices(pattern: string, name: string, q: nat, p: nat, m: nat, n: nat)
    requires q < p < |pattern| && pattern[q] == '*' && pattern[p] == '*' && StarFree(pattern[q + 1..p])
    requires m <= n <= |name| && n - m == p - (q + 1)
    requires m < |name| && Matches(pattern[q..], name[m + 1..])
    ensures Matches(pattern[p..], name[n..])
  {
    var tail := name[m + 1..];
    var k :| 0 <= k <= |tail| && Matches(pattern[q..][1..], tail[k..]);
    assert pattern[q..][1..] == pattern[q + 1..p] + pattern[p..];
    StarFreePrefix(pattern[q + 1..p], pattern[p..], tail[k..]);
    assert tail[k..][n - m..] == name[n..][k + 1..];
    StarTakesMore(pattern[p..], name[n..], k + 1);
  }

  lemma StepOverStar(pattern: string, name: string, p: nat, n: nat)
    requires p < |pattern| && n <= |name| && pattern[p] == '*'
    ensures Matches(pattern[p..], name[n..]) <==>
              Matches(pattern[p + 1..], name[n..]) || (n < |name| && Matches(pattern[p..], name[n + 1..]))
  {
    StarStep(pattern[p..], name[n..]);
    assert pattern[p..][1..] == pattern[p + 1..];
    assert n < |name| ==> name[n..][1..] == name[n + 1..];
  }

  lemma StepOverCharacter(pattern: string, name: string, p: nat, n: nat)
    requires p < |pattern| && n <= |name| && pattern[p] != '*'
    ensures Matches(pattern[p..], name[n..]) <==>
              n < |name| && (pattern[p] == '?' || pattern[p] == name[n]) && Matches(pattern[p + 1..], name[n + 1..])
  {
    assert pattern[p..][1..] == pattern[p + 1..];
    assert n < |name| ==> name[n..][1..] == name[n + 1..];
  }

  /** The saved alternative: let the last star, at q, take one character more. */
  ghost predicate Restart(pattern: string, name: string, q: nat, next: nat) {
    q <= |pattern| && 0 < next <= |name| && Matches(pattern[q..], name[next..])
  }

  /** The rest matches from here, or after a restart. */
  ghost predicate Alive(pattern: string, name: string, p: nat, n: nat, q: nat, next: nat) {
    (p <= |pattern| && n <= |name| && Matches(pattern[p..], name[n..])) || Restart(pattern, name, q, next)
  }

  /** The pattern since the last star, at q, has no star and has consumed name from next - 1 on. */
  ghost predicate SinceStar(pattern: string, p: nat, n: nat, q: nat, next: nat) {
    && q < |pattern| && pattern[q] == '*' && q < p <= |pattern|
    && next - 1 <= n && n - (next - 1) == p - (q + 1) && StarFree(pattern[q + 1..p])
  }

  /** At a star nothing is lost by forgetting the one before it. */
  lemma AliveAtStar(pattern: string, name: string, p: nat, n: nat, q: nat, next: nat)
    requires p < |pattern| && n <= |name| && pattern[p] == '*'
    requires next == 0 || SinceStar(pattern, p, n, q, next) || (q == p && next == n)
    ensures Alive(pattern, name, p, n, q, next) <==> Alive(pattern, name, p + 1, n, p, n + 1)
  {
    StepOverStar(pattern, name, p, n);
    if next > 0 && q < p && Restart(pattern, name, q, next) {
      LaterStarSuffices(pattern, name, q, p, next - 1, n);
    }
  }

  lemma AliveAtCharacter(pattern: string, name: string, p: nat, n: nat, q: nat, next: nat)
    requires p < |pattern| && n < |name| && pattern[p] != '*' && (pattern[p] == '?' || name[n] == pattern[p])
    ensures Alive(pattern, name, p, n, q, next) <==> Alive(pattern, name, p + 1, n + 1, q, next)
    ensures SinceStar(pattern, p, n, q, next) ==> SinceStar(pattern, p + 1, n + 1, q, next)
  {
    StepOverCharacter(pattern, name, p, n);
    if SinceStar(pattern, p, n, q, next) {
      assert pattern[q + 1..p + 1] == pattern[q + 1..p] + [pattern[p]];
    }
  }

  lemma AliveAtMismatch(pattern: string, name: string, p: nat, n: nat, q: nat, next: nat)
    requires p <= |pattern| && n <= |name| && (p < |pattern| || n < |name|)
    requires p < |pattern| ==> pattern[p] != '*' && (n == |name| || (pattern[p] != '?' && pattern[p] != name[n]))
    ensures Alive(pattern, name, p, n, q, next) <==> Restart(pattern, name, q, next)
  {
    if p < |pattern| {
      StepOverCharacter(pattern, name, p, n);
    }
  }

  method PatternMatchesString(nameStr: string, patternStr: string) returns (result: bool)
    ensures result <==> Matches(patternStr, nameStr)
  {
    var pattern, name := 0, 0;
    var patternNext, nameNext := 0, 0;
    assert patternStr[0..] == patternStr && nameStr[0..] == nameStr;
    while pattern < |patternStr| || name < |nameStr|
      invariant 0 <= patternNext <= pattern <= |patternStr| && 0 <= name <= |nameStr| && 0 <= nameNext <= |nameStr| + 1
      invariant Matches(patternStr, nameStr) <==> Alive(patternStr, nameStr, pattern, name, patternNext, nameNext)
      invariant nameNext == 0 ==> patternNext == 0
      invariant nameNext > 0 ==>
                  || SinceStar(patternStr, pattern, name, patternNext, nameNext)
                  || (pattern == patternNext < |patternStr| && patternStr[pattern] == '*' && name == nameNext)
      // Each star met and each restart uses up one unit; in between, a restart comes before the walk.
      decreases (|patternStr| - patternNext) + (|nameStr| + 1 - nameNext),
                nameNext == 0 || pattern > patternNext,
                |patternStr| - pattern
    {
      if pattern < |patternStr| {
        var c := patternStr[pattern];
        if c == '*' {
          AliveAtStar(patternStr, nameStr, pattern, name, patternNext, nameNext);
          patternNext := pattern;
          nameNext := name + 1;
          pattern := pattern + 1;
          continue;
        }
        if name < |nameStr| && (c == '?' || nameStr[name] == c) {
          AliveAtCharacter(patternStr, nameStr, pattern, name, patternNext, nameNext);
          pattern := pattern + 1;
          name := name + 1;
          continue;
        }
      }
      AliveAtMismatch(patternStr, nameStr, pattern, name, patternNext, nameNext);
      if 0 < nameNext <= |nameStr| {
        pattern := patternNext;
        name := nameNext;
        continue;
      }
      return false;
    }
    return true;
  }
}
