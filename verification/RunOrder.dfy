/** The order in which the tests of a program run, as a function of what is registered and of the random seed. */
module RunOrder {
  import opened Shuffling
  import opened TestSelection
  import opened TestInfos
  import opened TestSuites

  // A test together with its suite, as it is run.
  type Executed = (TestSuite, TestInfo)

  // ---------- Death tests come first ----------

  /** The suites up to the last death test suite are the death test suites. */
  ghost predicate DeathsLead(suites: seq<TestSuite>, deaths: iset<string>, last: int) {
    && -1 <= last < |suites|
    && forall k :: 0 <= k < |suites| ==> (suites[k].name in deaths <==> k <= last)
  }

  /** The indices of the death test suites come before all others. */
  ghost predicate DeathsComeFirst(order: seq<int>, last: int) {
    forall i :: 0 <= i < |order| ==> (i <= last <==> order[i] <= last)
  }

  ghost predicate DeathsRunFirst(executed: seq<Executed>, deaths: iset<string>) {
    forall i, j :: 0 <= i < j < |executed| && executed[j].0.name in deaths ==> executed[i].0.name in deaths
  }

  /** Shuffling the indices up to the last death test suite, then the rest, keeps death test suites first. */
  lemma DeathsStayFirst(before: seq<int>, between: seq<int>, after: seq<int>, last: int)
    requires IsOrder(before, |before|) && -1 <= last < |before| && DeathsComeFirst(before, last)
    requires RearrangedWithin(before, between, 0, last + 1) && RearrangedWithin(between, after, last + 1, |before|)
    ensures IsOrder(after, |before|) && DeathsComeFirst(after, last)
  {
    RearrangedIsOrder(before, between, |before|, 0, last + 1);
    RearrangedIsOrder(between, after, |before|, last + 1, |before|);
    forall i | 0 <= i < |after| ensures i <= last <==> after[i] <= last {
      if i <= last {
        assert between[i] in before[..last + 1] && after[i] == between[i];
      } else {
        assert after[i] in between[last + 1..|before|];
        var k :| last < k < |between| && between[k] == after[i];
        assert between[k] == before[k];
      }
    }
  }

  // ---------- Orders ----------

  /** What is registered, and which of the tests are to run. */
  datatype Registry = Registry(suites: seq<TestSuite>, lists: seq<seq<TestInfo>>, deaths: iset<string>, last: int,
                               chosen: iset<TestInfo>) {
    ghost predicate Valid() {
      && |lists| == |suites| && Distinct(suites) && DeathsLead(suites, deaths, last)
      && forall k :: 0 <= k < |lists| ==> Distinct(lists[k])
    }

    ghost predicate Runs(k: nat)
      requires k < |lists|
    {
      exists x :: x in lists[k] && x in chosen
    }
  }

  // A registry in order, which may be empty.
  type Program = p: Registry | p.Valid() ghost witness Registry([], [], iset{}, -1, iset{})

  /** The order of the suites, and that of the tests in each suite. */
  datatype Orders = Orders(p: Program, suites: seq<int>, tests: seq<seq<int>>) {
    ghost predicate Valid() {
      && IsOrder(suites, |p.suites|) && DeathsComeFirst(suites, p.last)
      && |tests| == |p.lists|
      && forall k {:trigger tests[k]} :: 0 <= k < |tests| ==> IsOrder(tests[k], |p.lists[k]|)
    }
  }

  type Plan = q: Orders | q.Valid() ghost witness Orders(Registry([], [], iset{}, -1, iset{}), [], [])

  /** The order of registration. */
  ghost function Registered(p: Program): (q: Plan)
    ensures q.p == p
  {
    var q := Orders(p, Range(0, |p.suites|), seq(|p.lists|, k requires 0 <= k < |p.lists| => Range(0, |p.lists[k]|)));
    assert q.Valid() by {
      RangeIsOrder(|p.suites|);
      forall k | 0 <= k < |p.lists| ensures IsOrder(q.tests[k], |p.lists[k]|) {
        RangeIsOrder(|p.lists[k]|);
      }
    }
    q
  }

  ghost function EverySuite(p: Program): set<int> { set k | k in Range(0, |p.suites|) }

  /** The first n of the indices. */
  ghost function Firsts(order: seq<int>, n: nat): set<int>
    requires n <= |order|
  {
    if n == 0 then {} else Firsts(order, n - 1) + {order[n - 1]}
  }

  lemma FirstsGrow(order: seq<int>, n: nat, others: set<int>)
    requires n < |order|
    ensures others + Firsts(order, n + 1) == (others + Firsts(order, n)) + {order[n]}
  {
  }

  lemma {:induction false} FirstsHave(order: seq<int>, n: nat, i: nat)
    requires i < n <= |order|
    ensures order[i] in Firsts(order, n)
  {
    if i < n - 1 {
      FirstsHave(order, n - 1, i);
    }
  }

  lemma AllAreFirst(q: Plan)
    ensures forall k :: 0 <= k < |q.p.suites| ==> k in Firsts(q.suites, |q.p.suites|) && k in EverySuite(q.p)
  {
    forall k | 0 <= k < |q.p.suites| ensures k in Firsts(q.suites, |q.p.suites|) && k in EverySuite(q.p) {
      var i := PlaceOf(q.suites, |q.p.suites|, k);
      FirstsHave(q.suites, |q.p.suites|, i);
      assert Range(0, |q.p.suites|)[k] == k;
    }
  }

  /** The generator can shuffle everything. */
  ghost predicate Small(p: Program) {
    |p.suites| <= MAX_RANGE && forall k :: 0 <= k < |p.lists| ==> |p.lists[k]| <= MAX_RANGE
  }

  // ---------- Shuffling ----------

  /** The generator when the tests of suite k are shuffled, after those of the suites before it. */
  ghost function StateFor(tests: seq<seq<int>>, state: nat, k: nat): nat
    requires k <= |tests|
  {
    if k == 0 then state else StateAfter(StateFor(tests, state, k - 1), |tests[k - 1]|)
  }

  ghost function ShuffledEach(tests: seq<seq<int>>, state: nat): (r: seq<seq<int>>)
    ensures |r| == |tests|
  {
    seq(|tests|, k requires 0 <= k < |tests| => Shuffled(tests[k], 0, |tests[k]|, StateFor(tests, state, k)))
  }

  /** First the death test suites, then the other suites. */
  ghost function ShuffledSuites(suites: seq<int>, last: int, state: nat): (r: seq<int>)
    requires -1 <= last < |suites|
    ensures |r| == |suites|
  {
    var between := Shuffled(suites, 0, last + 1, state);
    Shuffled(between, last + 1, |suites| - last - 1, StateAfter(state, last + 1))
  }

  ghost function StateAfterSuites(n: nat, last: int, state: nat): nat
    requires -1 <= last < n
  {
    StateAfter(StateAfter(state, last + 1), n - last - 1)
  }

  lemma ShuffledSuitesAreOrder(suites: seq<int>, last: int, state: nat)
    requires IsOrder(suites, |suites|) && -1 <= last < |suites| && DeathsComeFirst(suites, last)
    ensures IsOrder(ShuffledSuites(suites, last, state), |suites|)
    ensures DeathsComeFirst(ShuffledSuites(suites, last, state), last)
  {
    var between := Shuffled(suites, 0, last + 1, state);
    ShuffledRearranges(suites, 0, last + 1, state);
    ShuffledRearranges(between, last + 1, |suites| - last - 1, StateAfter(state, last + 1));
    DeathsStayFirst(suites, between, ShuffledSuites(suites, last, state), last);
  }

  lemma ShuffledEachAreOrders(q: Plan, state: nat)
    ensures forall k :: 0 <= k < |q.tests| ==> IsOrder(ShuffledEach(q.tests, state)[k], |q.p.lists[k]|)
  {
    forall k | 0 <= k < |q.tests| ensures IsOrder(ShuffledEach(q.tests, state)[k], |q.p.lists[k]|) {
      ShuffledRearranges(q.tests[k], 0, |q.tests[k]|, StateFor(q.tests, state, k));
      RearrangedIsOrder(q.tests[k], ShuffledEach(q.tests, state)[k], |q.p.lists[k]|, 0, |q.tests[k]|);
    }
  }

  /** The suites are shuffled, then the tests in each suite. Death test suites stay first. */
  ghost function ShuffledPlan(q: Plan, state: nat): (r: Plan)
    ensures r.p == q.p
  {
    var from := StateAfterSuites(|q.suites|, q.p.last, state);
    ShuffledSuitesAreOrder(q.suites, q.p.last, state);
    ShuffledEachAreOrders(q, from);
    Orders(q.p, ShuffledSuites(q.suites, q.p.last, state), ShuffledEach(q.tests, from))
  }

  // ---------- Runs ----------

  function Tagged(suite: TestSuite, tests: seq<TestInfo>): (r: seq<Executed>)
    ensures |r| == |tests| && forall k :: 0 <= k < |r| ==> r[k] == (suite, tests[k])
  {
    seq(|tests|, k requires 0 <= k < |tests| => (suite, tests[k]))
  }

  /** The tests that a suite runs, in order. */
  datatype Piece = Piece(suite: TestSuite, tests: seq<TestInfo>)

  ghost function Joined(pieces: seq<Piece>, n: nat): seq<Executed>
    requires n <= |pieces|
  {
    if n == 0 then [] else Joined(pieces, n - 1) + Tagged(pieces[n - 1].suite, pieces[n - 1].tests)
  }

  /** What suite k runs. */
  ghost function PieceOf(q: Plan, k: nat): Piece
    requires k < |q.p.lists|
  {
    Piece(q.p.suites[k], ChosenOf(StableSort(q.p.lists[k]), q.tests[k], q.p.chosen))
  }

  /** The suites in their order. */
  ghost function PiecesOf(q: Plan): (pieces: seq<Piece>)
    ensures |pieces| == |q.p.suites|
  {
    seq(|q.p.suites|, i requires 0 <= i < |q.p.suites| => PieceOf(q, q.suites[i]))
  }

  /** The suites run in their order, each its chosen tests in their order. */
  ghost function RunOf(q: Plan): seq<Executed>
  {
    Joined(PiecesOf(q), |q.p.suites|)
  }

  /** The iteration that starts from these orders. */
  ghost function IterationFrom(q: Plan, shuffle: bool, seed: nat): seq<Executed> {
    RunOf(if shuffle then ShuffledPlan(q, seed) else q)
  }

  /** The iteration for this seed, all orders being those of registration. */
  ghost function IterationOf(p: Program, shuffle: bool, seed: nat): seq<Executed> {
    IterationFrom(Registered(p), shuffle, seed)
  }

  lemma TaggedHas(suite: TestSuite, tests: seq<TestInfo>, s: TestSuite, x: TestInfo)
    ensures (s, x) in Tagged(suite, tests) <==> s == suite && x in tests
  {
    if s == suite && x in tests {
      var k :| 0 <= k < |tests| && tests[k] == x;
      assert Tagged(suite, tests)[k] == (s, x);
    }
  }

  ghost predicate HasTest(piece: Piece, s: TestSuite, x: TestInfo) { piece.suite == s && x in piece.tests }

  lemma {:induction false} JoinedHas(pieces: seq<Piece>, n: nat, s: TestSuite, x: TestInfo)
    requires n <= |pieces|
    ensures (s, x) in Joined(pieces, n) <==> exists i :: 0 <= i < n && HasTest(pieces[i], s, x)
  {
    if n > 0 {
      JoinedHas(pieces, n - 1, s, x);
      TaggedHas(pieces[n - 1].suite, pieces[n - 1].tests, s, x);
      assert (s, x) in Tagged(pieces[n - 1].suite, pieces[n - 1].tests) <==> HasTest(pieces[n - 1], s, x);
    }
  }

  /** Different suites, each with different tests. */
  ghost predicate NoneTwice(pieces: seq<Piece>) {
    && (forall i, j :: 0 <= i < j < |pieces| ==> pieces[i].suite != pieces[j].suite)
    && (forall i :: 0 <= i < |pieces| ==> Distinct(pieces[i].tests))
  }

  lemma {:induction false} JoinedIsDistinct(pieces: seq<Piece>, n: nat)
    requires n <= |pieces| && NoneTwice(pieces)
    ensures Distinct(Joined(pieces, n))
  {
    if n > 0 {
      JoinedIsDistinct(pieces, n - 1);
      var run, suite := Joined(pieces, n - 1), pieces[n - 1].suite;
      forall i | 0 <= i < |run| ensures run[i].0 != suite {
        assert (run[i].0, run[i].1) in run;
        JoinedHas(pieces, n - 1, run[i].0, run[i].1);
      }
    }
  }

  lemma {:induction false} JoinedKeepsDeathsFirst(pieces: seq<Piece>, n: nat, deaths: iset<string>)
    requires n <= |pieces|
    requires forall i, j :: 0 <= i < j < |pieces| && pieces[j].suite.name in deaths ==> pieces[i].suite.name in deaths
    ensures DeathsRunFirst(Joined(pieces, n), deaths)
  {
    if n > 0 {
      JoinedKeepsDeathsFirst(pieces, n - 1, deaths);
      var run := Joined(pieces, n - 1);
      forall i | 0 <= i < |run| && pieces[n - 1].suite.name in deaths ensures run[i].0.name in deaths {
        assert (run[i].0, run[i].1) in run;
        JoinedHas(pieces, n - 1, run[i].0, run[i].1);
      }
    }
  }

  lemma PieceHas(q: Plan, k: nat, x: TestInfo)
    requires k < |q.p.lists|
    ensures x in PieceOf(q, k).tests <==> x in q.p.lists[k] && x in q.p.chosen
  {
    SortKeepsTests(q.p.lists[k]);
    ChosenHasAll(StableSort(q.p.lists[k]), q.tests[k], q.p.chosen);
  }

  lemma PieceIsDistinct(q: Plan, k: nat)
    requires k < |q.p.lists|
    ensures Distinct(PieceOf(q, k).tests)
  {
    SortKeepsTests(q.p.lists[k]);
    ChosenHasAll(StableSort(q.p.lists[k]), q.tests[k], q.p.chosen);
  }

  lemma PiecesAreDistinct(q: Plan)
    ensures NoneTwice(PiecesOf(q))
  {
    var pieces := PiecesOf(q);
    forall i | 0 <= i < |pieces| ensures Distinct(pieces[i].tests) {
      PieceIsDistinct(q, q.suites[i]);
    }
    forall i, j | 0 <= i < j < |pieces| ensures pieces[i].suite != pieces[j].suite {
      SuitesDiffer(q.p.suites, q.suites, i, j);
    }
  }

  lemma SuitesDiffer(suites: seq<TestSuite>, order: seq<int>, i: nat, j: nat)
    requires Distinct(suites) && IsOrder(order, |suites|) && i < j < |suites|
    ensures suites[order[i]] != suites[order[j]]
  {
    assert order[i] != order[j];
  }

  lemma PlaceOf(order: seq<int>, n: nat, k: nat) returns (i: nat)
    requires IsOrder(order, n) && k < n
    ensures i < n && order[i] == k
  {
    assert k in order;
    i :| 0 <= i < n && order[i] == k;
  }

  lemma RunHas(q: Plan, k: nat, j: nat)
    requires k < |q.p.lists| && j < |q.p.lists[k]|
    ensures (q.p.suites[k], q.p.lists[k][j]) in RunOf(q) <==> q.p.lists[k][j] in q.p.chosen
  {
    var s, x, pieces := q.p.suites[k], q.p.lists[k][j], PiecesOf(q);
    JoinedHas(pieces, |q.p.suites|, s, x);
    var i := PlaceOf(q.suites, |q.p.suites|, k);
    assert HasTest(pieces[i], s, x) <==> x in q.p.chosen by { PieceHas(q, k, x); }
    forall m | 0 <= m < |pieces| && HasTest(pieces[m], s, x) ensures x in q.p.chosen {
      PieceHas(q, q.suites[m], x);
    }
  }

  lemma RunHasOnly(q: Plan, e: Executed)
    requires e in RunOf(q)
    ensures exists k :: 0 <= k < |q.p.suites| && e.0 == q.p.suites[k] && e.1 in q.p.lists[k]
  {
    var pieces := PiecesOf(q);
    assert (e.0, e.1) in RunOf(q);
    JoinedHas(pieces, |q.p.suites|, e.0, e.1);
    var i :| 0 <= i < |q.p.suites| && HasTest(pieces[i], e.0, e.1);
    PieceHas(q, q.suites[i], e.1);
  }

  /** A run without repetition, death tests first, of exactly the chosen tests in their suites. */
  ghost predicate IsRightRun(run: seq<Executed>, p: Registry) {
    && Distinct(run) && DeathsRunFirst(run, p.deaths)
    && |p.suites| == |p.lists|
    && (forall e :: e in run ==> exists k :: 0 <= k < |p.suites| && e.0 == p.suites[k] && e.1 in p.lists[k])
    && (forall k, j :: 0 <= k < |p.suites| && 0 <= j < |p.lists[k]|
         ==> ((p.suites[k], p.lists[k][j]) in run <==> p.lists[k][j] in p.chosen))
  }

  /** Whatever the orders are, a run is right. */
  lemma RunIsRight(q: Plan)
    ensures IsRightRun(RunOf(q), q.p)
  {
    PiecesAreDistinct(q);
    JoinedIsDistinct(PiecesOf(q), |q.p.suites|);
    JoinedKeepsDeathsFirst(PiecesOf(q), |q.p.suites|, q.p.deaths);
    forall e | e in RunOf(q) ensures exists k :: 0 <= k < |q.p.suites| && e.0 == q.p.suites[k] && e.1 in q.p.lists[k] {
      RunHasOnly(q, e);
    }
    forall k, j | 0 <= k < |q.p.suites| && 0 <= j < |q.p.lists[k]|
      ensures (q.p.suites[k], q.p.lists[k][j]) in RunOf(q) <==> q.p.lists[k][j] in q.p.chosen
    {
      RunHas(q, k, j);
    }
  }

  lemma IterationIsRight(q: Plan, shuffle: bool, seed: nat)
    ensures IsRightRun(IterationFrom(q, shuffle, seed), q.p)
  {
    RunIsRight(if shuffle then ShuffledPlan(q, seed) else q);
  }

  lemma SomeSuiteRuns(p: Registry, run: seq<Executed>)
    requires IsRightRun(run, p) && run != []
    ensures exists k :: 0 <= k < |p.lists| && p.Runs(k)
  {
    assert run[0] in run;
    var k :| 0 <= k < |p.suites| && run[0].0 == p.suites[k] && run[0].1 in p.lists[k];
    var j :| 0 <= j < |p.lists[k]| && run[0].1 == p.lists[k][j];
    assert (p.suites[k], p.lists[k][j]) in run;
    assert p.Runs(k);
  }

  /** Nothing runs when nothing is chosen. */
  lemma NothingRuns(q: Plan, shuffle: bool, seed: nat)
    requires forall k :: 0 <= k < |q.p.lists| ==> !q.p.Runs(k)
    ensures IterationFrom(q, shuffle, seed) == []
  {
    IterationIsRight(q, shuffle, seed);
    if IterationFrom(q, shuffle, seed) != [] {
      SomeSuiteRuns(q.p, IterationFrom(q, shuffle, seed));
    }
  }

  // ---------- Seeds ----------

  const MAX_RANDOM_SEED := 99999

  type Seed = seed: int | 1 <= seed <= MAX_RANDOM_SEED witness 1

  /** The seed for a flag, or for the time when the flag is 0. */
  function GetRandomSeedFromFlag(flag: int, now: nat): Seed {
    var raw := (if flag == 0 then now else flag) % TWO_TO_THE_32;
    (raw - 1) % TWO_TO_THE_32 % MAX_RANDOM_SEED + 1
  }

  function GetNextRandomSeed(seed: Seed): Seed {
    if seed + 1 > MAX_RANDOM_SEED then 1 else seed + 1
  }

  /** A seed, given as the flag, is taken as it is. */
  lemma SeedIsItsOwnFlag(seed: Seed, now: nat)
    ensures GetRandomSeedFromFlag(seed, now) == seed
  {
  }

  /** The seed of iteration i: each shuffled iteration takes the next one. */
  ghost function SeedOf(shuffle: bool, start: Seed, i: nat): Seed {
    if i == 0 then start
    else
      var before := SeedOf(shuffle, start, i - 1);
      if shuffle then GetNextRandomSeed(before) else before
  }

  /** Iteration i, when the first takes this seed. */
  ghost function Iteration(p: Program, shuffle: bool, start: Seed): int -> seq<Executed> {
    i => if i < 0 then [] else IterationOf(p, shuffle, SeedOf(shuffle, start, i))
  }

  /** The iterations from this seed on. */
  ghost function Iterations(p: Program, shuffle: bool, start: Seed, repeat: nat): seq<seq<Executed>> {
    seq(repeat, Iteration(p, shuffle, start))
  }

  lemma GoesOn<T>(f: int -> T, n: nat)
    ensures seq(n + 1, f) == seq(n, f) + [f(n)]
  {
    assert forall i :: 0 <= i <= n ==> seq(n + 1, f)[i] == f(i);
  }

  lemma IterationsGoOn(p: Program, shuffle: bool, start: Seed, i: nat)
    ensures Iterations(p, shuffle, start, i + 1) ==
            Iterations(p, shuffle, start, i) + [IterationFrom(Registered(p), shuffle, SeedOf(shuffle, start, i))]
  {
    GoesOn(Iteration(p, shuffle, start), i);
  }

  ghost predicate AllRight(runs: seq<seq<Executed>>, p: Registry) {
    forall i :: 0 <= i < |runs| ==> IsRightRun(runs[i], p)
  }

  lemma IterationsAreRight(p: Program, shuffle: bool, start: Seed, repeat: nat)
    ensures AllRight(Iterations(p, shuffle, start, repeat), p)
  {
    forall i | 0 <= i < repeat ensures IsRightRun(Iterations(p, shuffle, start, repeat)[i], p) {
      IterationIsRight(Registered(p), shuffle, SeedOf(shuffle, start, i));
    }
  }

  /** An iteration can be repeated alone, without those before it: its seed, given as the flag, is enough. */
  lemma IterationStandsAlone(p: Program, shuffle: bool, start: Seed, repeat: nat, i: nat, later: nat)
    requires i < repeat
    ensures var flag := SeedOf(shuffle, start, i);
      Iterations(p, shuffle, GetRandomSeedFromFlag(flag, later), 1) == [Iterations(p, shuffle, start, repeat)[i]]
  {
    var seed := SeedOf(shuffle, start, i);
    SeedIsItsOwnFlag(seed, later);
    assert SeedOf(shuffle, seed, 0) == seed;
  }

  // ---------- What the filter and the shard choose ----------

  ghost function NamesIn(suites: seq<TestSuite>, lists: seq<seq<TestInfo>>): seq<SuiteNames>
    requires |suites| == |lists|
  {
    seq(|suites|, k requires 0 <= k < |suites| => SuiteNames(suites[k].name, NamesOf(lists[k])))
  }

  /** No test is in two places. */
  ghost predicate Apart(lists: seq<seq<TestInfo>>) {
    && (forall k :: 0 <= k < |lists| ==> Distinct(lists[k]))
    && (forall k, k', x :: 0 <= k < k' < |lists| && x in lists[k] ==> x !in lists[k'])
  }

  ghost predicate HasShape(lists: seq<seq<TestInfo>>, names: seq<SuiteNames>) {
    |lists| == |names| && forall k :: 0 <= k < |lists| ==> |lists[k]| == |names[k].tests|
  }

  /** The tests that the filter and the shard select. */
  ghost function ChosenBy(lists: seq<seq<TestInfo>>, names: seq<SuiteNames>, c: Choice, share: Share): iset<TestInfo>
    requires HasShape(lists, names)
  {
    iset k: int, j: int | 0 <= k < |lists| && 0 <= j < |lists[k]| && Selects(c, share, names, k, j) :: lists[k][j]
  }

  lemma ChosenIsSelected(lists: seq<seq<TestInfo>>, names: seq<SuiteNames>, c: Choice, share: Share, k: nat, j: nat)
    requires Apart(lists) && HasShape(lists, names) && k < |lists| && j < |lists[k]|
    ensures lists[k][j] in ChosenBy(lists, names, c, share) <==> Selects(c, share, names, k, j)
  {
    if lists[k][j] in ChosenBy(lists, names, c, share) {
      var k', j' :| 0 <= k' < |lists| && 0 <= j' < |lists[k']| && Selects(c, share, names, k', j')
                    && lists[k'][j'] == lists[k][j];
      assert lists[k'][j'] in lists[k] && lists[k][j] in lists[k'];
    }
  }

  /** The program that runs what the filter and the shard select of these suites and tests. */
  ghost function Selected(suites: seq<TestSuite>, lists: seq<seq<TestInfo>>, deaths: iset<string>, last: int,
                          c: Choice, share: Share): Registry
    requires |suites| == |lists|
  {
    Registry(suites, lists, deaths, last, ChosenBy(lists, NamesIn(suites, lists), c, share))
  }

  /** The program chooses exactly the selected tests. */
  ghost predicate Chooses(p: Registry, names: seq<SuiteNames>, c: Choice, share: Share) {
    && HasShape(p.lists, names)
    && forall k, j :: 0 <= k < |p.lists| && 0 <= j < |p.lists[k]|
         ==> (p.lists[k][j] in p.chosen <==> Selects(c, share, names, k, j))
  }

  lemma SelectedChooses(suites: seq<TestSuite>, lists: seq<seq<TestInfo>>, deaths: iset<string>, last: int,
                        c: Choice, share: Share)
    requires |suites| == |lists| && Apart(lists)
    ensures Chooses(Selected(suites, lists, deaths, last, c, share), NamesIn(suites, lists), c, share)
  {
    var p, names := Selected(suites, lists, deaths, last, c, share), NamesIn(suites, lists);
    forall k, j | 0 <= k < |lists| && 0 <= j < |lists[k]|
      ensures lists[k][j] in p.chosen <==> Selects(c, share, names, k, j)
    {
      ChosenIsSelected(lists, names, c, share, k, j);
    }
  }

  /** A process without load runs no suite. */
  lemma NothingSelected(p: Registry, names: seq<SuiteNames>, c: Choice, share: Share)
    requires Chooses(p, names, c, share) && Load(share, RunnableBefore(c, names, |names|)) == 0
    ensures forall k :: 0 <= k < |p.lists| ==> !p.Runs(k)
  {
    forall k | 0 <= k < |p.lists| ensures !p.Runs(k) {
      if p.Runs(k) {
        var x :| x in p.lists[k] && x in p.chosen;
        var j :| 0 <= j < |p.lists[k]| && p.lists[k][j] == x;
        SelectedIsLoad(c, share, names, k, j);
      }
    }
  }

  ghost predicate RunsTest(run: seq<Executed>, p: Registry, k: nat, j: nat) {
    k < |p.suites| && k < |p.lists| && j < |p.lists[k]| && (p.suites[k], p.lists[k][j]) in run
  }

  /** One process for each shard, all with the same registered names: a test that can run at all runs
      in exactly one of them, and no other test runs anywhere. */
  lemma EachTestOnOneShard(runs: seq<seq<Executed>>, programs: seq<Registry>, names: seq<SuiteNames>, c: Choice,
                           k: nat, j: nat)
    requires |runs| == |programs| > 0 && k < |names| && j < |names[k].tests|
    requires forall i :: 0 <= i < |runs| ==>
      IsRightRun(runs[i], programs[i]) && Chooses(programs[i], names, c, OneOf(|runs|, i))
    ensures (names[k].name, names[k].tests[j]) in c <==>
              exists i :: 0 <= i < |runs| && RunsTest(runs[i], programs[i], k, j)
    ensures forall i, i' | 0 <= i < |runs| && 0 <= i' < |runs|
        && RunsTest(runs[i], programs[i], k, j) && RunsTest(runs[i'], programs[i'], k, j) :: i == i'
  {
    ShardsPartition(c, names, |runs|, k, j);
    forall i | 0 <= i < |runs|
      ensures RunsTest(runs[i], programs[i], k, j) <==> Selects(c, OneOf(|runs|, i), names, k, j)
    {
      assert |programs[i].lists[k]| == |names[k].tests|;
    }
  }
}
