/** What a seed makes of the orders of suites and tests, said by picks and draws alone. */
module ShuffleLaws {
  import opened Shuffling
  import opened TestInfos
  import opened TestSuites
  import opened RunOrder

  // ---------- Draws ----------

  /** The state of the generator after n numbers. */
  ghost function StateAt(state: nat, n: nat): nat {
    if n == 0 then state else NextState(StateAt(state, n - 1))
  }

  /** The states are those of a linear congruential generator with 31 bits. */
  lemma StatesAreCongruential(state: nat, n: nat)
    ensures StateAt(state, n + 1) == (1103515245 * StateAt(state, n) + 12345) % 0x8000_0000
    ensures StateAt(1, 1) == 1103527590
  {
    SmallerModulus(1103515245 * StateAt(state, n) + 12345);
    assert StateAt(1, 0) == 1;
  }

  lemma SmallerModulus(x: nat)
    ensures x % 0x1_0000_0000 % 0x8000_0000 == x % 0x8000_0000
  {
  }

  lemma {:induction false} StateAtSum(state: nat, m: nat, n: nat)
    ensures StateAt(StateAt(state, m), n) == StateAt(state, m + n)
  {
    if n > 0 {
      StateAtSum(state, m, n - 1);
    }
  }

  /** How many numbers a range of this width takes. */
  function NumbersFor(width: nat): nat { if width < 2 then 0 else width - 1 }

  lemma {:induction false} StateAfterIsStateAt(state: nat, width: nat)
    ensures StateAfter(state, width) == StateAt(state, NumbersFor(width))
    decreases width
  {
    if width >= 2 {
      StateAfterIsStateAt(NextState(state), width - 1);
      assert StateAt(state, 1) == NextState(StateAt(state, 0)) == NextState(state);
      StateAtSum(state, 1, width - 2);
    }
  }

  /** The pick for the width i + 2 is the next number modulo that width, the widest range coming first. */
  lemma {:induction false} DrawsAre(state: nat, width: nat, i: nat)
    requires i < NumbersFor(width)
    ensures Draws(state, width)[i] == StateAt(state, width - 1 - i) % (i + 2)
    decreases width
  {
    assert StateAt(state, 1) == NextState(StateAt(state, 0)) == NextState(state);
    if i < width - 2 {
      DrawsAre(NextState(state), width - 1, i);
      StateAtSum(state, 1, width - 2 - i);
    }
  }

  // ---------- Picks for a whole plan ----------

  /** Picks for the death test suites, for the other suites, and for the tests of each suite. */
  datatype Picks = Picks(deaths: seq<nat>, others: seq<nat>, tests: seq<seq<nat>>)

  ghost predicate FitsWidth(picks: seq<nat>, width: nat) { |picks| == NumbersFor(width) && ArePicks(picks) }

  ghost predicate FitsPlan(x: Picks, q: Plan) {
    && FitsWidth(x.deaths, q.p.last + 1) && FitsWidth(x.others, |q.suites| - q.p.last - 1)
    && |x.tests| == |q.tests|
    && forall k {:trigger x.tests[k]} :: 0 <= k < |x.tests| ==> FitsWidth(x.tests[k], |q.tests[k]|)
  }

  /** Every part of r is picked from the same part of q: the death test suites, the other suites, and the tests
      of each suite. */
  ghost predicate ArePickedParts(r: Plan, q: Plan, x: Picks)
    requires FitsPlan(x, q)
  {
    var d := q.p.last + 1;
    && r.p == q.p
    && r.suites[..d] == Picked(q.suites[..d], 0, d, x.deaths)
    && r.suites[d..] == Picked(q.suites[d..], 0, |q.suites| - d, x.others)
    && forall k {:trigger r.tests[k]} :: 0 <= k < |q.tests|
         ==> r.tests[k] == Picked(q.tests[k], 0, |q.tests[k]|, x.tests[k])
  }

  /** Numbers taken before the tests of suite k: by the death test suites, the other suites and the suites before. */
  ghost function NumbersBefore(q: Plan, k: nat): nat
    requires k <= |q.tests|
  {
    if k == 0 then NumbersFor(q.p.last + 1) + NumbersFor(|q.suites| - q.p.last - 1)
    else NumbersBefore(q, k - 1) + NumbersFor(|q.tests[k - 1]|)
  }

  /** The numbers of the generator from this seed, in turn for the death test suites, the other suites and the tests
      of each suite. */
  ghost function DrawnPicks(q: Plan, seed: nat): (x: Picks)
    ensures FitsPlan(x, q)
  {
    var d := q.p.last + 1;
    Picks(Draws(seed, d), Draws(StateAt(seed, NumbersFor(d)), |q.suites| - d),
          seq(|q.tests|, k requires 0 <= k < |q.tests| => Draws(StateAt(seed, NumbersBefore(q, k)), |q.tests[k]|)))
  }

  // ---------- Shuffling by parts ----------

  lemma SwapInside<T>(v: seq<T>, i: nat, j: nat, begin: nat, end: nat)
    requires begin <= i < end <= |v| && begin <= j < end
    ensures Swap(v, i, j)[begin..end] == Swap(v[begin..end], i - begin, j - begin)
  {
  }

  /** Picking inside a range is picking in that range alone. */
  lemma {:induction false} PickedInside<T>(v: seq<T>, begin: nat, width: nat, end: nat, picks: seq<nat>)
    requires begin + width <= end <= |v| && width <= |picks| + 1 && ArePicks(picks)
    ensures Picked(v, begin, width, picks)[begin..end] == Picked(v[begin..end], 0, width, picks)
    decreases width
  {
    if width >= 2 {
      var i, j := begin + picks[width - 2], begin + width - 1;
      PickedInside(Swap(v, i, j), begin, width - 1, end, picks);
      SwapInside(v, i, j, begin, end);
    }
  }

  lemma PickedKeepsOutside<T>(v: seq<T>, begin: nat, width: nat, picks: seq<nat>)
    requires begin + width <= |v| && width <= |picks| + 1 && ArePicks(picks)
    ensures Picked(v, begin, width, picks)[..begin] == v[..begin]
    ensures Picked(v, begin, width, picks)[begin + width..] == v[begin + width..]
  {
    PickedRearranges(v, begin, width, picks);
  }

  lemma SuitesByParts(suites: seq<int>, last: int, state: nat)
    requires -1 <= last < |suites|
    ensures var d, n, r := last + 1, |suites|, ShuffledSuites(suites, last, state);
      && r[..d] == Picked(suites[..d], 0, d, Draws(state, d))
      && r[d..] == Picked(suites[d..], 0, n - d, Draws(StateAt(state, NumbersFor(d)), n - d))
  {
    var d, n := last + 1, |suites|;
    var between, next := Shuffled(suites, 0, d, state), StateAfter(state, d);
    ShuffledIsPicked(suites, 0, d, state);
    ShuffledIsPicked(between, d, n - d, next);
    StateAfterIsStateAt(state, d);
    PickedInside(suites, 0, d, d, Draws(state, d));
    PickedKeepsOutside(suites, 0, d, Draws(state, d));
    PickedInside(between, d, n - d, n, Draws(next, n - d));
    PickedKeepsOutside(between, d, n - d, Draws(next, n - d));
    assert suites[0..d] == suites[..d] && between[d..n] == between[d..] == suites[d..];
  }

  lemma {:induction false} StatesOfTests(q: Plan, seed: nat, k: nat)
    requires k <= |q.tests|
    ensures StateFor(q.tests, StateAfterSuites(|q.suites|, q.p.last, seed), k) == StateAt(seed, NumbersBefore(q, k))
  {
    var d, n := q.p.last + 1, |q.suites|;
    if k == 0 {
      StateAfterIsStateAt(seed, d);
      StateAfterIsStateAt(StateAfter(seed, d), n - d);
      StateAtSum(seed, NumbersFor(d), NumbersFor(n - d));
    } else {
      StatesOfTests(q, seed, k - 1);
      var width := |q.tests[k - 1]|;
      StateAfterIsStateAt(StateAt(seed, NumbersBefore(q, k - 1)), width);
      StateAtSum(seed, NumbersBefore(q, k - 1), NumbersFor(width));
    }
  }

  /** Shuffling for a seed picks by the numbers of the generator, part by part. */
  lemma ShuffledPlanIsDrawn(q: Plan, seed: nat)
    ensures ArePickedParts(ShuffledPlan(q, seed), q, DrawnPicks(q, seed))
  {
    SuitesByParts(q.suites, q.p.last, seed);
    var r, x := ShuffledPlan(q, seed), DrawnPicks(q, seed);
    forall k | 0 <= k < |q.tests| ensures r.tests[k] == Picked(q.tests[k], 0, |q.tests[k]|, x.tests[k]) {
      StatesOfTests(q, seed, k);
      ShuffledIsPicked(q.tests[k], 0, |q.tests[k]|, StateAt(seed, NumbersBefore(q, k)));
    }
  }

  // ---------- What one pick does ----------

  /** From entry n on, each pick is the greatest one allowed. */
  ghost predicate GreatestFrom(picks: seq<nat>, n: nat) {
    forall k :: n <= k < |picks| ==> picks[k] == k + 1
  }

  /** The greatest picks move nothing. */
  lemma {:induction false} GreatestPicksKeep<T>(v: seq<T>, begin: nat, width: nat, picks: seq<nat>)
    requires begin + width <= |v| && width <= |picks| + 1 && GreatestFrom(picks, 0)
    ensures Picked(v, begin, width, picks) == v
    decreases width
  {
    if width >= 2 {
      assert Swap(v, begin + picks[width - 2], begin + width - 1) == v;
      GreatestPicksKeep(v, begin, width - 1, picks);
    }
  }

  /** One other pick makes the picked element and the last one of its width change places. */
  lemma {:induction false} OnePickExchanges<T>(v: seq<T>, begin: nat, width: nat, picks: seq<nat>, i: nat)
    requires begin + width <= |v| && i + 2 <= width <= |picks| + 1 && ArePicks(picks)
    requires GreatestFrom(picks, i + 1) && forall k :: 0 <= k < i ==> picks[k] == k + 1
    ensures var r, a, b := Picked(v, begin, width, picks), begin + picks[i], begin + i + 1;
      r[a] == v[b] && r[b] == v[a] && forall k :: 0 <= k < |v| && k != a && k != b ==> r[k] == v[k]
    decreases width
  {
    var v' := Swap(v, begin + picks[width - 2], begin + width - 1);
    if i == width - 2 {
      PickedPrefix(v', begin, width - 1, picks[..i], picks);
      GreatestPicksKeep(v', begin, width - 1, picks[..i]);
    } else {
      assert v' == v;
      OnePickExchanges(v, begin, width - 1, picks, i);
    }
  }

  // ---------- Every plan can be picked ----------

  /** The indices from lo up to hi, each once. */
  ghost predicate HasAll(s: seq<int>, lo: int, hi: int) {
    Distinct(s) && forall x :: x in s <==> lo <= x < hi
  }

  /** Two orders of the same elements. */
  lemma SameElements(a: seq<int>, b: seq<int>, lo: int, hi: int)
    requires HasAll(a, lo, hi) && HasAll(b, lo, hi)
    ensures multiset(a) == multiset(b)
  {
    forall x: int ensures multiset(a)[x] == multiset(b)[x] {
      DistinctCounts(a, x);
      DistinctCounts(b, x);
      assert x in multiset(a) <==> x in a;
      assert x in multiset(b) <==> x in b;
    }
  }

  lemma PicksFor<T>(a: seq<T>, b: seq<T>) returns (picks: seq<nat>)
    requires |a| == |b| && multiset(a) == multiset(b)
    ensures FitsWidth(picks, |a|) && Picked(a, 0, |a|, picks) == b
  {
    picks := EveryOrderIsPicked(a, b, 0, |a|);
  }

  /** With death test suites first, the order begins with all their indices and goes on with all others. */
  lemma DeathsAreFirst(suites: seq<int>, n: nat, d: nat)
    requires IsOrder(suites, n) && d <= n && DeathsComeFirst(suites, d - 1)
    ensures HasAll(suites[..d], 0, d) && HasAll(suites[d..], d, n)
  {
    forall x | 0 <= x < n ensures if x < d then x in suites[..d] else x in suites[d..] {
      var i := PlaceOf(suites, n, x);
      if i < d {
        assert suites[..d][i] == x;
      } else {
        assert suites[d..][i - d] == x;
      }
    }
  }

  lemma SamePart(a: seq<int>, b: seq<int>, lo: int, hi: int) returns (picks: seq<nat>)
    requires HasAll(a, lo, hi) && HasAll(b, lo, hi) && |a| == |b|
    ensures FitsWidth(picks, |a|) && Picked(a, 0, |a|, picks) == b
  {
    SameElements(a, b, lo, hi);
    picks := PicksFor(a, b);
  }

  lemma OrderHasAll(order: seq<int>, n: nat)
    requires IsOrder(order, n)
    ensures HasAll(order, 0, n)
  {
    forall x | 0 <= x < n ensures x in order {
      var i := PlaceOf(order, n, x);
    }
  }

  /** The first n lists of picks make the tests of r from those of q. */
  ghost predicate PicksTests(r: Plan, q: Plan, tests: seq<seq<nat>>, n: nat) {
    && |tests| == n <= |q.tests| == |r.tests|
    && forall k {:trigger tests[k]} :: 0 <= k < n
         ==> FitsWidth(tests[k], |q.tests[k]|) && r.tests[k] == Picked(q.tests[k], 0, |q.tests[k]|, tests[k])
  }

  lemma {:induction false} TestsArePicked(q: Plan, r: Plan, n: nat) returns (tests: seq<seq<nat>>)
    requires r.p == q.p && n <= |q.tests|
    ensures PicksTests(r, q, tests, n)
  {
    if n == 0 {
      tests := [];
    } else {
      var before := TestsArePicked(q, r, n - 1);
      var k := n - 1;
      OrderHasAll(q.tests[k], |q.p.lists[k]|);
      OrderHasAll(r.tests[k], |q.p.lists[k]|);
      var picks := SamePart(q.tests[k], r.tests[k], 0, |q.p.lists[k]|);
      tests := before + [picks];
    }
  }

  /** With free picks every plan is reached, that is every order of the suites with death test suites first, together
      with any order of the tests in each suite. */
  lemma EveryPlanIsPicked(q: Plan, r: Plan) returns (x: Picks)
    requires r.p == q.p
    ensures FitsPlan(x, q) && ArePickedParts(r, q, x)
  {
    var d, n := q.p.last + 1, |q.suites|;
    DeathsAreFirst(q.suites, n, d);
    DeathsAreFirst(r.suites, n, d);
    var deaths := SamePart(q.suites[..d], r.suites[..d], 0, d);
    var others := SamePart(q.suites[d..], r.suites[d..], d, n);
    var tests := TestsArePicked(q, r, |q.tests|);
    x := Picks(deaths, others, tests);
  }

  lemma SamePicks<T>(v: seq<T>, picks: seq<nat>, picks': seq<nat>)
    requires Distinct(v) && FitsWidth(picks, |v|) && FitsWidth(picks', |v|)
    requires Picked(v, 0, |v|, picks) == Picked(v, 0, |v|, picks')
    ensures picks == picks'
  {
    PicksAreDetermined(v, 0, |v|, picks, picks');
  }

  /** One choice of picks only reaches a plan. */
  lemma OnePickForPlan(q: Plan, r: Plan, x: Picks, x': Picks)
    requires FitsPlan(x, q) && FitsPlan(x', q) && ArePickedParts(r, q, x) && ArePickedParts(r, q, x')
    ensures x == x'
  {
    var d := q.p.last + 1;
    DeathsAreFirst(q.suites, |q.suites|, d);
    SamePicks(q.suites[..d], x.deaths, x'.deaths);
    SamePicks(q.suites[d..], x.others, x'.others);
    forall k | 0 <= k < |q.tests| ensures x.tests[k] == x'.tests[k] {
      assert |r.tests[k]| == |q.tests[k]|;
      SamePicks(q.tests[k], x.tests[k], x'.tests[k]);
    }
    assert x.tests == x'.tests;
  }
}
