/** Registering, filtering, shuffling and running all tests, after UnitTestImpl in gtest.cc. */
module UnitTests {
  import opened Shuffling
  import opened TestSelection
  import opened TestInfos
  import opened TestSuites
  import opened RunOrder
  import opened Wrappers
  import TestFilter

  ghost predicate AreDeathNames(names: iset<string>) {
    forall n {:trigger IsDeathName(n)} :: IsDeathName(n) <==> n in names
  }

  method IsDeathTestSuite(suiteName: string, ghost deaths: iset<string>) returns (isDeath: bool)
    requires AreDeathNames(deaths)
    ensures isDeath <==> suiteName in deaths
  {
    var deathTestSuiteFilter := TestFilter.MakeUnitTestFilter(DEATH_TEST_SUITE_FILTER);
    isDeath := deathTestSuiteFilter.MatchesName(suiteName);
    assert isDeath <==> IsDeathName(suiteName);
  }

  /** What the filters of a process say, by the meaning of the filter strings. */
  ghost function VerdictsOf(o: Options): Verdicts {
    Verdicts((iset p: (string, string) | IsDisabled(p.0, p.1)),
             (iset p: (string, string) | TestFilter.Wanted(o.filter, p.0 + "." + p.1)),
             ChoiceOf(o))
  }

  /** The map finds exactly the suites in the list, by their names. */
  ghost predicate IsDirectory(byName: map<string, TestSuite>, suites: seq<TestSuite>) {
    && (forall s :: s in suites ==> s.name in byName && byName[s.name] == s)
    && (forall n :: n in byName ==> byName[n] in suites && byName[n].name == n)
  }

  /** The suites are distinct, and no test is in two places. */
  ghost predicate Separate(suites: seq<TestSuite>)
    reads suites`testInfoList
  {
    && Distinct(suites)
    && (forall s :: s in suites ==> Distinct(s.testInfoList))
    && (forall s, t, x :: s in suites && t in suites && x in s.testInfoList && x in t.testInfoList ==> s == t)
  }

  lemma DirectoryGrows(byName: map<string, TestSuite>, before: seq<TestSuite>, suite: TestSuite, after: seq<TestSuite>)
    requires IsDirectory(byName, before) && suite.name !in byName
    requires forall s :: s in after <==> s in before || s == suite
    ensures IsDirectory(byName[suite.name := suite], after)
  {
  }

  lemma DeathsLeadStill(before: seq<TestSuite>, deaths: iset<string>, last: int, suite: TestSuite,
                        after: seq<TestSuite>)
    requires DeathsLead(before, deaths, last)
    requires var at := if suite.name in deaths then last + 1 else |before|;
      after == before[..at] + [suite] + before[at..]
    ensures DeathsLead(after, deaths, if suite.name in deaths then last + 1 else last)
  {
  }

  lemma InsertedSeparate(before: seq<TestSuite>, suite: TestSuite, at: nat, after: seq<TestSuite>)
    requires Separate(before) && suite !in before && suite.testInfoList == []
    requires at <= |before| && after == before[..at] + [suite] + before[at..]
    ensures Separate(after) && |after| == |before| + 1
    ensures forall s :: s in after <==> s in before || s == suite
  {
    forall i, j | 0 <= i < j < |after| ensures after[i] != after[j] {
      assert i != at ==> after[i] == before[if i < at then i else i - 1];
      assert j != at ==> after[j] == before[if j < at then j else j - 1];
    }
  }

  /** A new suite in its place keeps what holds of the registered suites. */
  lemma InsertionKeeps(before: seq<TestSuite>, suite: TestSuite, after: seq<TestSuite>, byName: map<string, TestSuite>,
                       deaths: iset<string>, last: int)
    requires Separate(before) && IsDirectory(byName, before) && DeathsLead(before, deaths, last)
    requires suite !in before && suite.name !in byName && suite.testInfoList == []
    requires var at := if suite.name in deaths then last + 1 else |before|;
      after == before[..at] + [suite] + before[at..]
    ensures Separate(after) && IsDirectory(byName[suite.name := suite], after)
    ensures DeathsLead(after, deaths, if suite.name in deaths then last + 1 else last)
    ensures IsOrder(Range(0, |after|), |after|) && |after| == |before| + 1
    ensures forall s :: s in after <==> s in before || s == suite
  {
    InsertedSeparate(before, suite, if suite.name in deaths then last + 1 else |before|, after);
    DirectoryGrows(byName, before, suite, after);
    DeathsLeadStill(before, deaths, last, suite, after);
    RangeIsOrder(|after|);
  }

  // ---------- Filtering ----------

  lemma VerdictsAgree(o: Options, flagFilter: TestFilter.PositiveAndNegativeUnitTestFilter,
                      disableFilter: TestFilter.UnitTestFilter)
    requires forall name :: flagFilter.Selects(name) <==> TestFilter.Wanted(o.filter, name)
    requires forall name :: disableFilter.Selects(name) <==> TestFilter.Accepts(DISABLE_TEST_FILTER, name)
    ensures VerdictsOf(o).Agrees(o, flagFilter, disableFilter)
  {
    var v := VerdictsOf(o);
    forall s, t ensures (s, t) in v.disabled <==> disableFilter.Selects(s) || disableFilter.Selects(t) {
      assert (s, t) in v.disabled <==> IsDisabled(s, t);
    }
    forall s, t ensures (s, t) in v.wanted <==> flagFilter.Selects(s + "." + t) {
      assert (s, t) in v.wanted <==> TestFilter.Wanted(o.filter, s + "." + t);
    }
  }

  ghost predicate Within(lists: seq<seq<TestInfo>>, all: set<TestInfo>) {
    forall k, x :: 0 <= k < |lists| && x in lists[k] ==> x in all
  }

  /** The suites hold these tests. */
  ghost predicate Hold(suites: seq<TestSuite>, lists: seq<seq<TestInfo>>)
    reads suites`testInfoList
  {
    |suites| == |lists| && forall k {:trigger suites[k]} :: 0 <= k < |suites| ==> suites[k].testInfoList == lists[k]
  }

  /** The names under which suites and tests are registered. */
  ghost predicate Registers(suites: seq<TestSuite>, lists: seq<seq<TestInfo>>, names: seq<SuiteNames>) {
    && |names| == |suites| == |lists|
    && forall k {:trigger suites[k]} :: 0 <= k < |suites| ==> names[k] == SuiteNames(suites[k].name, NamesOf(lists[k]))
  }

  /** Every test of suite k has its flags, the numbers going on from the suites before it. */
  ghost predicate DecidedUpTo(suites: seq<TestSuite>, lists: seq<seq<TestInfo>>, names: seq<SuiteNames>, v: Verdicts,
                              share: Share, all: set<TestInfo>, n: nat)
    requires n <= |suites| == |lists| == |names| && Within(lists, all)
    reads suites, all
  {
    forall k {:trigger suites[k]} :: 0 <= k < n ==>
      DecidedAs(suites[k], lists[k], v, share, RunnableBefore(v.runnable, names, k))
  }

  ghost predicate DecidedAs(suite: TestSuite, tests: seq<TestInfo>, v: Verdicts, share: Share, first: nat)
    reads suite, tests
  {
    suite.testInfoList == tests && suite.Decided(v, share, first)
  }

  twostate lemma StaysDecided(suite: TestSuite, new v: Verdicts, new share: Share, new first: nat)
    requires old(suite.Decided(v, share, first))
    requires unchanged(suite) && forall x :: x in suite.testInfoList ==> unchanged(x)
    ensures suite.Decided(v, share, first)
  {
    var tests := suite.testInfoList;
    forall j | 0 <= j < |tests| ensures DecidedAt(tests, suite.name, v, share, first, j) {
      assert tests[j] in tests;
      assert old(DecidedAt(tests, suite.name, v, share, first, j));
    }
    assert forall x :: x in tests ==> x.shouldRun == old(x.shouldRun);
  }

  method FilterSuite(suites: seq<TestSuite>, ghost lists: seq<seq<TestInfo>>, ghost all: set<TestInfo>, k: nat,
                     numRunnable: nat, numSelected: nat, o: Options, shard: Option<Shard>,
                     ghost v: Verdicts, ghost share: Share, ghost names: seq<SuiteNames>,
                     flagFilter: TestFilter.PositiveAndNegativeUnitTestFilter,
                     disableFilter: TestFilter.UnitTestFilter)
    returns (runnable: nat, selected: nat)
    requires Distinct(suites) && Hold(suites, lists) && Apart(lists) && Registers(suites, lists, names)
    requires k < |suites| && v.Agrees(o, flagFilter, disableFilter)
    requires ValidShard(shard) && forall id {:trigger OnShard(shard, id)} :: id in share <==> OnShard(shard, id)
    requires numRunnable == RunnableBefore(v.runnable, names, k) && numSelected == Load(share, numRunnable)
    requires Within(lists, all) && DecidedUpTo(suites, lists, names, v, share, all, k)
    modifies {suites[k]}`shouldRun, lists[k]
    ensures DecidedUpTo(suites, lists, names, v, share, all, k + 1)
    ensures runnable == RunnableBefore(v.runnable, names, k + 1) && selected == Load(share, runnable)
  {
    runnable, selected := suites[k].FilterTests(o, shard, numRunnable, v, share, names[k], flagFilter, disableFilter);
    forall m | 0 <= m < k
      ensures DecidedAs(suites[m], lists[m], v, share, RunnableBefore(v.runnable, names, m))
    {
      assert suites[m] != suites[k];
      assert old(DecidedAs(suites[m], lists[m], v, share, RunnableBefore(v.runnable, names, m)));
      StaysDecided(suites[m], v, share, RunnableBefore(v.runnable, names, m));
    }
    runnable, selected := numRunnable + runnable, numSelected + selected;
  }

  // ---------- Running ----------

  /** The flags say what the program chooses. */
  ghost predicate Marked(p: Program, all: set<TestInfo>)
    requires Within(p.lists, all)
    reads all
  {
    forall k :: 0 <= k < |p.lists| ==> Marks(p.lists[k], p.chosen)
  }

  lemma TestIsMarked(suite: TestSuite, p: Program, k: nat, j: nat, names: seq<SuiteNames>, v: Verdicts, share: Share)
    requires k < |p.lists| && j < |p.lists[k]| && Chooses(p, names, v.runnable, share)
    requires names[k] == SuiteNames(suite.name, NamesOf(p.lists[k]))
    requires DecidedAt(p.lists[k], suite.name, v, share, RunnableBefore(v.runnable, names, k), j)
    ensures p.lists[k][j].shouldRun <==> p.lists[k][j] in p.chosen
  {
    assert p.lists[k][j] in p.chosen <==> Selects(v.runnable, share, names, k, j);
  }

  lemma DecidedIsMarked(suite: TestSuite, p: Program, k: nat, names: seq<SuiteNames>, v: Verdicts, share: Share)
    requires k < |p.lists| && Chooses(p, names, v.runnable, share)
    requires names[k] == SuiteNames(suite.name, NamesOf(p.lists[k]))
    requires DecidedAs(suite, p.lists[k], v, share, RunnableBefore(v.runnable, names, k))
    ensures Marks(p.lists[k], p.chosen) && (suite.shouldRun <==> p.Runs(k))
  {
    var tests := p.lists[k];
    forall x | x in tests ensures x.shouldRun <==> x in p.chosen {
      var j :| 0 <= j < |tests| && tests[j] == x;
      TestIsMarked(suite, p, k, j, names, v, share);
    }
  }

  /** Suite k has its registered tests, sorted if it ran, its indices stand in this order, and its flag is right. */
  ghost predicate Stands(q: Plan, ran: set<int>, k: int)
    requires 0 <= k < |q.p.suites|
    reads q.p.suites[k]
  {
    && q.p.suites[k].testIndices == q.tests[k]
    && q.p.suites[k].testInfoList == ListAfter(q.p.lists[k], k in ran && q.p.Runs(k))
    && (q.p.suites[k].shouldRun <==> q.p.Runs(k))
  }

  ghost predicate AllStand(q: Plan, ran: set<int>)
    reads q.p.suites
  {
    forall k :: 0 <= k < |q.p.suites| ==> Stands(q, ran, k)
  }

  /** For a suite that does not run, it does not matter whether it is said to have run. */
  lemma SameStand(q: Plan, ran: set<int>, ran': set<int>)
    requires AllStand(q, ran)
    requires forall k :: 0 <= k < |q.p.suites| && q.p.Runs(k) ==> (k in ran <==> k in ran')
    ensures AllStand(q, ran')
  {
    forall k | 0 <= k < |q.p.suites| ensures Stands(q, ran', k) {
      assert Stands(q, ran, k);
    }
  }

  lemma AllRan(q: Plan, ran: set<int>)
    requires AllStand(q, ran + Firsts(q.suites, |q.suites|))
    ensures AllStand(q, EverySuite(q.p))
  {
    AllAreFirst(q);
    SameStand(q, ran + Firsts(q.suites, |q.suites|), EverySuite(q.p));
  }

  lemma IndicesFit(q: Plan, ran: set<int>)
    requires AllStand(q, ran)
    ensures forall k {:trigger q.p.suites[k]} :: 0 <= k < |q.p.suites| ==>
      && q.p.suites[k].testIndices == q.tests[k]
      && |q.p.suites[k].testIndices| == |q.p.suites[k].testInfoList| == |Registered(q.p).tests[k]|
  {
    forall k | 0 <= k < |q.p.suites|
      ensures q.p.suites[k].testIndices == q.tests[k]
      ensures |q.p.suites[k].testIndices| == |q.p.suites[k].testInfoList| == |Registered(q.p).tests[k]|
    {
      assert Stands(q, ran, k);
    }
  }

  /** Sorting again what a run has sorted changes nothing. */
  lemma ReadyToRun(q: Plan, ran: set<int>, k: int)
    requires 0 <= k < |q.p.suites|
    requires Stands(q, ran, k) && Marks(q.p.lists[k], q.p.chosen)
    ensures var s := q.p.suites[k];
      && |s.testInfoList| == |q.p.lists[k]| && Marks(s.testInfoList, q.p.chosen)
      && (s.shouldRun <==> exists x :: x in s.testInfoList && x in q.p.chosen)
      && StableSort(s.testInfoList) == StableSort(q.p.lists[k])
  {
    SortKeepsTests(q.p.lists[k]);
    SortsOnce(q.p.lists[k], k in ran && q.p.Runs(k));
  }

  /** Runs one suite. */
  method RunSuite(suite: TestSuite, ghost q: Plan, ghost ran: set<int>, ghost k: int)
    returns (executed: seq<TestInfo>)
    requires 0 <= k < |q.p.suites| && suite == q.p.suites[k]
    requires AllStand(q, ran) && Marks(q.p.lists[k], q.p.chosen)
    modifies suite`testInfoList
    ensures AllStand(q, ran + {k})
    ensures Piece(suite, executed) == PieceOf(q, k)
  {
    assert Stands(q, ran, k);
    ReadyToRun(q, ran, k);
    executed := suite.Run(q.p.chosen);
    forall m | 0 <= m < |q.p.suites| ensures Stands(q, ran + {k}, m) {
      assert old(Stands(q, ran, m));
      assert m != k ==> q.p.suites[m] != suite;
    }
  }

  lemma RegisteredApart(suites: seq<TestSuite>, lists: seq<seq<TestInfo>>)
    requires Separate(suites) && Hold(suites, lists)
    ensures Apart(lists)
  {
    forall k | 0 <= k < |lists| ensures Distinct(lists[k]) {
      assert suites[k] in suites;
    }
    forall k, k', x | 0 <= k < k' < |lists| && x in lists[k] ensures x !in lists[k'] {
      assert suites[k] in suites && suites[k'] in suites;
    }
  }

  /** Filtered and unshuffled, the suites stand as registered. */
  lemma StandAtFirst(p: Program)
    requires Hold(p.suites, p.lists)
    requires forall k :: 0 <= k < |p.suites| ==> (p.suites[k].shouldRun <==> p.Runs(k)) && p.suites[k].Unshuffled()
    ensures AllStand(Registered(p), {})
  {
    forall k | 0 <= k < |p.suites| ensures Stands(Registered(p), {}, k) {
      assert p.suites[k].testInfoList == p.lists[k];
    }
  }

  lemma StandingIsValid(q: Plan, ran: set<int>, k: int)
    requires 0 <= k < |q.p.suites| && Stands(q, ran, k)
    ensures q.p.suites[k].Valid() && forall x :: x in q.p.suites[k].testInfoList ==> x in q.p.lists[k]
  {
    SortKeepsTests(q.p.lists[k]);
  }

  /** The order of the tests of suite k is that of registration. */
  ghost predicate InRegisteredOrder(p: Registry, k: int)
    requires 0 <= k < |p.suites| == |p.lists|
    reads p.suites[k]
  {
    p.suites[k].Unshuffled() && p.suites[k].testInfoList == p.lists[k]
  }

  /** What a caller finds after the last iteration. Unshuffling has restored the order of registration of a suite
      exactly when nothing has sorted it, or when that order is sorted. */
  lemma StandingAfter(p: Program, repeat: nat)
    requires AllStand(Registered(p), if repeat == 0 then {} else EverySuite(p))
    ensures forall k :: 0 <= k < |p.suites| ==>
      && p.suites[k].Unshuffled() && p.suites[k].testInfoList == ListAfter(p.lists[k], repeat > 0 && p.Runs(k))
      && (InRegisteredOrder(p, k) <==> repeat == 0 || !p.Runs(k) || Sorted(p.lists[k]))
  {
    forall k | 0 <= k < |p.suites|
      ensures p.suites[k].Unshuffled()
      ensures p.suites[k].testInfoList == ListAfter(p.lists[k], repeat > 0 && p.Runs(k))
      ensures InRegisteredOrder(p, k) <==> repeat == 0 || !p.Runs(k) || Sorted(p.lists[k])
    {
      OrderIsRestored(p.lists[k], repeat > 0 && p.Runs(k));
      assert Range(0, |p.suites|)[k] == k;
      assert Stands(Registered(p), if repeat == 0 then {} else EverySuite(p), k);
    }
  }

  /** Sorting the tests of each suite keeps tests apart. */
  lemma StandingIsSeparate(q: Plan, ran: set<int>)
    requires AllStand(q, ran) && Apart(q.p.lists)
    ensures Separate(q.p.suites) && forall s :: s in q.p.suites ==> s.Valid()
  {
    var suites := q.p.suites;
    forall k | 0 <= k < |suites|
      ensures suites[k].Valid() && forall x :: x in suites[k].testInfoList ==> x in q.p.lists[k]
    {
      assert Stands(q, ran, k);
      StandingIsValid(q, ran, k);
    }
    forall s, t, x | s in suites && t in suites && x in s.testInfoList && x in t.testInfoList ensures s == t {
      var k :| 0 <= k < |suites| && suites[k] == s;
      var m :| 0 <= m < |suites| && suites[m] == t;
      assert x in q.p.lists[k] && x in q.p.lists[m];
    }
  }

  /** Only indices have changed. */
  twostate lemma Reordered(q: Plan, new q': Plan, new ran: set<int>)
    requires q'.p == q.p && old(AllStand(q, ran))
    requires forall k {:trigger q.p.suites[k]} :: 0 <= k < |q.p.suites| ==> q.p.suites[k].testIndices == q'.tests[k]
    requires forall s :: s in q.p.suites ==> s.testInfoList == old(s.testInfoList) && s.shouldRun == old(s.shouldRun)
    ensures AllStand(q', ran)
  {
    forall k | 0 <= k < |q.p.suites| ensures Stands(q', ran, k) {
      assert old(Stands(q, ran, k));
    }
  }

  /** Shuffles the tests inside each suite, one suite after the other. */
  method ShuffleEach(suites: seq<TestSuite>, random: Random, ghost tests: seq<seq<int>>)
    requires Distinct(suites) && |tests| == |suites|
    requires forall k {:trigger suites[k]} :: 0 <= k < |suites| ==> suites[k].testIndices == tests[k]
    requires forall k :: 0 <= k < |tests| ==> |tests[k]| <= MAX_RANGE
    modifies random, suites`testIndices
    ensures forall k {:trigger suites[k]} :: 0 <= k < |suites| ==>
      suites[k].testIndices == ShuffledEach(tests, old(random.state))[k]
  {
    ghost var start := random.state;
    for k := 0 to |suites|
      invariant random.state == StateFor(tests, start, k)
      invariant forall m {:trigger suites[m]} :: k <= m < |suites| ==> suites[m].testIndices == tests[m]
      invariant forall m {:trigger suites[m]} :: 0 <= m < k ==> suites[m].testIndices == ShuffledEach(tests, start)[m]
    {
      suites[k].ShuffleTests(random);
    }
  }

  class UnitTestImpl {
    var testSuites: seq<TestSuite>
    var testSuitesByName: map<string, TestSuite>
    var testSuiteIndices: seq<int>
    var lastDeathTestSuite: int
    ghost const deaths: iset<string>

    ghost predicate Valid()
      reads this, testSuites`testInfoList, testSuites`testIndices
    {
      && Separate(testSuites)
      && (forall s :: s in testSuites ==> s.Valid())
      && IsDirectory(testSuitesByName, testSuites)
      && DeathsLead(testSuites, deaths, lastDeathTestSuite)
      && IsOrder(testSuiteIndices, |testSuites|)
      && DeathsComeFirst(testSuiteIndices, lastDeathTestSuite)
    }

    ghost predicate Unshuffled()
      reads `testSuites, `testSuiteIndices
    {
      testSuiteIndices == Range(0, |testSuites|)
    }

    constructor ()
      ensures Valid() && Unshuffled() && testSuites == [] && AreDeathNames(deaths)
    {
      testSuites, testSuitesByName, testSuiteIndices, lastDeathTestSuite := [], map[], [], -1;
      deaths := iset n: string | IsDeathName(n);
    }

    /** Trying the newest suite first gives what the map says. */
    method FindTestSuite(testSuiteName: string) returns (found: TestSuite?)
      requires Valid()
      ensures found == if testSuiteName in testSuitesByName then testSuitesByName[testSuiteName] else null
    {
      if testSuites != [] && testSuites[|testSuites| - 1].name == testSuiteName {
        return testSuites[|testSuites| - 1];
      }
      if testSuiteName in testSuitesByName {
        return testSuitesByName[testSuiteName];
      }
      return null;
    }

    /** Finds the suite of that name, trying the newest one first, or creates it: a death test suite
        behind the last death test suite, any other at the end. */
    method GetTestSuite(testSuiteName: string) returns (suite: TestSuite)
      requires Valid() && Unshuffled() && AreDeathNames(deaths)
      modifies this
      ensures forall s :: s in testSuites <==> s in old(testSuites) || s == suite
      ensures Valid() && Unshuffled() && suite in testSuites && suite.name == testSuiteName
      ensures testSuiteName in old(testSuitesByName) ==>
                suite == old(testSuitesByName)[testSuiteName] && testSuites == old(testSuites)
      ensures testSuiteName !in old(testSuitesByName) ==>
          && fresh(suite) && suite.testInfoList == []
          && var at := if testSuiteName in deaths then old(lastDeathTestSuite) + 1 else |old(testSuites)|;
             testSuites == old(testSuites)[..at] + [suite] + old(testSuites)[at..]
    {
      var found := FindTestSuite(testSuiteName);
      if found != null {
        return found;
      }
      suite := new TestSuite(testSuiteName);
      var isDeath := IsDeathTestSuite(testSuiteName, deaths);
      InsertSuite(suite, isDeath);
    }

    /** Registers a test, with its suite when that is new. */
    method AddTestInfo(testSuiteName: string, testInfo: TestInfo)
      requires Valid() && Unshuffled() && AreDeathNames(deaths)
      requires forall s :: s in testSuites ==> s.Unshuffled() && testInfo !in s.testInfoList
      modifies this, testSuites
      ensures Valid() && Unshuffled() && forall s :: s in testSuites ==> s.Unshuffled()
      ensures testSuiteName in testSuitesByName
      ensures testSuitesByName[testSuiteName].testInfoList
           == (if testSuiteName in old(testSuitesByName) then old(testSuitesByName[testSuiteName].testInfoList)
               else []) + [testInfo]
      ensures forall s :: s in old(testSuites) ==>
        s in testSuites && (s.name != testSuiteName ==> s.testInfoList == old(s.testInfoList))
    {
      var suite := GetTestSuite(testSuiteName);
      AppendTest(suite, testInfo);
    }

    method AppendTest(suite: TestSuite, testInfo: TestInfo)
      requires Valid() && suite in testSuites
      requires forall s :: s in testSuites ==> s.Unshuffled() && testInfo !in s.testInfoList
      modifies suite
      ensures Valid() && forall s :: s in testSuites ==> s.Unshuffled()
      ensures testSuitesByName[suite.name] == suite && suite.testInfoList == old(suite.testInfoList) + [testInfo]
      ensures forall s :: s in testSuites && s != suite ==> s.testInfoList == old(s.testInfoList)
    {
      suite.AddTestInfo(testInfo);
    }

    method InsertSuite(suite: TestSuite, isDeath: bool)
      requires Valid() && Unshuffled() && (isDeath <==> suite.name in deaths)
      requires suite !in testSuites && suite.name !in testSuitesByName && suite.Valid() && suite.testInfoList == []
      modifies this
      ensures Valid() && Unshuffled() && forall s :: s in testSuites <==> s in old(testSuites) || s == suite
      ensures var at := if isDeath then old(lastDeathTestSuite) + 1 else |old(testSuites)|;
        testSuites == old(testSuites)[..at] + [suite] + old(testSuites)[at..]
    {
      ghost var before := testSuites;
      testSuitesByName := testSuitesByName[suite.name := suite];
      if isDeath {
        lastDeathTestSuite := lastDeathTestSuite + 1;
        testSuites := testSuites[..lastDeathTestSuite] + [suite] + testSuites[lastDeathTestSuite..];
      } else {
        testSuites := testSuites + [suite];
      }
      testSuiteIndices := testSuiteIndices + [|testSuiteIndices|];
      ghost var at := if isDeath then lastDeathTestSuite else |before|;
      assert testSuites == before[..at] + [suite] + before[at..];
      assert testSuiteIndices == Range(0, |testSuites|);
      InsertionKeeps(before, suite, testSuites, old(testSuitesByName), deaths, old(lastDeathTestSuite));
    }

    /** Decides for every registered test whether this process runs it; counts those it runs. */
    method FilterTests(o: Options, shard: Option<Shard>, ghost v: Verdicts, ghost share: Share,
                       ghost lists: seq<seq<TestInfo>>, ghost names: seq<SuiteNames>, ghost all: set<TestInfo>,
                       flagFilter: TestFilter.PositiveAndNegativeUnitTestFilter,
                       disableFilter: TestFilter.UnitTestFilter)
      returns (numSelected: nat)
      requires Distinct(testSuites) && Hold(testSuites, lists) && Apart(lists) && Registers(testSuites, lists, names)
      requires v.Agrees(o, flagFilter, disableFilter) && Within(lists, all)
      requires ValidShard(shard) && forall id {:trigger OnShard(shard, id)} :: id in share <==> OnShard(shard, id)
      modifies testSuites`shouldRun, all
      ensures numSelected == Load(share, RunnableBefore(v.runnable, names, |names|))
      ensures DecidedUpTo(testSuites, lists, names, v, share, all, |names|)
    {
      var numRunnable := 0;
      numSelected := 0;
      for k := 0 to |testSuites|
        invariant numRunnable == RunnableBefore(v.runnable, names, k)
        invariant numSelected == Load(share, numRunnable)
        invariant DecidedUpTo(testSuites, lists, names, v, share, all, k)
      {
        numRunnable, numSelected := FilterSuite(testSuites, lists, all, k, numRunnable, numSelected, o, shard,
                                                v, share, names, flagFilter, disableFilter);
      }
    }

    /** Makes the filters and decides which tests run. */
    method Prepare(o: Options, shard: Option<Shard>, ghost p: Program, ghost names: seq<SuiteNames>,
                   ghost all: set<TestInfo>)
      returns (hasTestsToRun: bool)
      requires testSuites == p.suites && Apart(p.lists) && Hold(testSuites, p.lists)
      requires Registers(testSuites, p.lists, names) && ValidShard(shard)
      requires Chooses(p, names, ChoiceOf(o), ShareOf(shard)) && Within(p.lists, all)
      modifies testSuites`shouldRun, all
      ensures Marked(p, all) && forall k :: 0 <= k < |p.suites| ==> (p.suites[k].shouldRun <==> p.Runs(k))
      ensures !hasTestsToRun ==> forall k :: 0 <= k < |p.suites| ==> !p.Runs(k)
    {
      var flagFilter := TestFilter.MakePositiveAndNegativeFilter(o.filter);
      var disableFilter := TestFilter.MakeUnitTestFilter(DISABLE_TEST_FILTER);
      VerdictsAgree(o, flagFilter, disableFilter);
      ghost var v, share := VerdictsOf(o), ShareOf(shard);
      var numSelected := FilterTests(o, shard, v, share, p.lists, names, all, flagFilter, disableFilter);
      forall k | 0 <= k < |p.suites|
        ensures Marks(p.lists[k], p.chosen) && (p.suites[k].shouldRun <==> p.Runs(k))
      {
        DecidedIsMarked(p.suites[k], p, k, names, v, share);
      }
      if numSelected == 0 {
        NothingSelected(p, names, v.runnable, share);
      }
      hasTestsToRun := numSelected > 0;
    }

    /** The program is registered here, and its indices stand in these orders. */
    ghost predicate State(q: Plan, ran: set<int>)
        reads this, q.p.suites
    {
      && testSuites == q.p.suites && testSuiteIndices == q.suites && lastDeathTestSuite == q.p.last
      && AllStand(q, ran)
    }

    /** Shuffles the death test suites, the other suites, and the tests inside each suite. */
    method ShuffleTests(random: Random, ghost tests: seq<seq<int>>)
      requires Distinct(testSuites) && -1 <= lastDeathTestSuite < |testSuites| == |testSuiteIndices| <= MAX_RANGE
      requires |tests| == |testSuites|
      requires forall k {:trigger testSuites[k]} :: 0 <= k < |testSuites| ==> testSuites[k].testIndices == tests[k]
      requires forall k :: 0 <= k < |tests| ==> |tests[k]| <= MAX_RANGE
      modifies `testSuiteIndices, random, testSuites`testIndices
      ensures testSuiteIndices == ShuffledSuites(old(testSuiteIndices), lastDeathTestSuite, old(random.state))
      ensures var from := StateAfterSuites(|testSuites|, lastDeathTestSuite, old(random.state));
        forall k {:trigger testSuites[k]} :: 0 <= k < |testSuites| ==>
          testSuites[k].testIndices == ShuffledEach(tests, from)[k]
    {
      var between := ShuffleRange(random, 0, lastDeathTestSuite + 1, testSuiteIndices);
      testSuiteIndices := ShuffleRange(random, lastDeathTestSuite + 1, |testSuites|, between);
      assert random.state == StateAfterSuites(|testSuites|, lastDeathTestSuite, old(random.state));
      ShuffleEach(testSuites, random, tests);
    }

    /** Restores the order of all indices. */
    method UnshuffleTests()
      requires |testSuiteIndices| == |testSuites|
      requires forall k :: 0 <= k < |testSuites| ==> |testSuites[k].testIndices| == |testSuites[k].testInfoList|
      modifies `testSuiteIndices, testSuites`testIndices
      ensures Unshuffled() && forall k :: 0 <= k < |testSuites| ==> testSuites[k].Unshuffled()
    {
      for i := 0 to |testSuites|
        invariant |testSuiteIndices| == |testSuites|
        invariant forall k :: 0 <= k < i ==> testSuiteIndices[k] == k && testSuites[k].Unshuffled()
        invariant forall k :: 0 <= k < |testSuites| ==> |testSuites[k].testIndices| == |testSuites[k].testInfoList|
      {
        testSuites[i].UnshuffleTests();
        testSuiteIndices := testSuiteIndices[i := i];
      }
      assert testSuiteIndices == Range(0, |testSuites|);
    }

    function GetMutableSuiteCase(i: int): TestSuite
      requires IsOrder(testSuiteIndices, |testSuites|) && 0 <= i < |testSuites|
      reads `testSuites, `testSuiteIndices
    {
      testSuites[GetElementOr(testSuiteIndices, i, -1)]
    }

    /** Runs the suite whose turn it is. */
    method RunNext(i: int, ghost q: Plan, ghost ran: set<int>, ghost all: set<TestInfo>)
      returns (executed: seq<Executed>)
      requires 0 <= i < |testSuites| && testSuites == q.p.suites && testSuiteIndices == q.suites
      requires AllStand(q, ran + Firsts(q.suites, i)) && Within(q.p.lists, all) && Marked(q.p, all)
      modifies testSuites`testInfoList
      ensures AllStand(q, ran + Firsts(q.suites, i + 1))
      ensures executed == Tagged(PiecesOf(q)[i].suite, PiecesOf(q)[i].tests)
    {
      var suite := GetMutableSuiteCase(i);
      var tests := RunSuite(suite, q, ran + Firsts(q.suites, i), q.suites[i]);
      FirstsGrow(q.suites, i, ran);
      executed := Tagged(suite, tests);
    }

    /** Runs the suites in the order of their indices. */
    method RunSuites(ghost q: Plan, ghost ran: set<int>, ghost all: set<TestInfo>)
      returns (executed: seq<Executed>)
      requires testSuites == q.p.suites && testSuiteIndices == q.suites && AllStand(q, ran)
      requires Within(q.p.lists, all) && Marked(q.p, all)
      modifies testSuites`testInfoList
      ensures executed == RunOf(q) && AllStand(q, EverySuite(q.p))
    {
      assert ran + Firsts(q.suites, 0) == ran;
      executed := [];
      for i := 0 to |testSuites|
        invariant executed == Joined(PiecesOf(q), i)
        invariant AllStand(q, ran + Firsts(q.suites, i))
      {
        var next := RunNext(i, q, ran, all);
        executed := executed + next;
      }
      AllRan(q, ran);
    }

    /** Shuffles everything for this seed. */
    method Shuffle(seed: nat, random: Random, ghost q: Plan, ghost ran: set<int>)
      requires State(q, ran) && Small(q.p)
      modifies `testSuiteIndices, random, testSuites`testIndices
      ensures State(ShuffledPlan(q, seed), ran)
    {
      random.Reseed(seed);
      IndicesFit(q, ran);
      ShuffleTests(random, q.tests);
      Reordered(q, ShuffledPlan(q, seed), ran);
    }

    /** Puts all indices back. */
    method Restore(ghost q: Plan, ghost ran: set<int>)
      requires State(q, ran)
      modifies `testSuiteIndices, testSuites`testIndices
      ensures State(Registered(q.p), ran)
    {
      IndicesFit(q, ran);
      UnshuffleTests();
      Reordered(q, Registered(q.p), ran);
    }

    /** Shuffles, runs and restores. */
    method RunIteration(hasTestsToRun: bool, shuffle: bool, seed: nat, random: Random,
                        ghost q: Plan, ghost ran: set<int>, ghost all: set<TestInfo>)
      returns (executed: seq<Executed>)
      requires State(q, ran) && Small(q.p) && Within(q.p.lists, all) && Marked(q.p, all)
      requires !hasTestsToRun ==> forall k :: 0 <= k < |q.p.suites| ==> !q.p.Runs(k)
      modifies `testSuiteIndices, random, testSuites`testIndices, testSuites`testInfoList
      ensures State(Registered(q.p), EverySuite(q.p))
      ensures executed == IterationFrom(q, shuffle, seed)
    {
      ghost var plan := q;
      executed := [];
      if hasTestsToRun && shuffle {
        Shuffle(seed, random, q, ran);
        plan := ShuffledPlan(q, seed);
      }
      if hasTestsToRun {
        executed := RunSuites(plan, ran, all);
      } else {
        NothingRuns(q, shuffle, seed);
        SameStand(q, ran, EverySuite(q.p));
      }
      Restore(plan, EverySuite(q.p));
    }

    /** The loop over the iterations, each taking the next seed. */
    method Repeat(hasTestsToRun: bool, shuffle: bool, start: Seed, repeat: nat, random: Random, ghost p: Program,
                  ghost all: set<TestInfo>)
      returns (iterations: seq<seq<Executed>>)
      requires State(Registered(p), {}) && Small(p) && Within(p.lists, all) && Marked(p, all)
      requires !hasTestsToRun ==> forall k :: 0 <= k < |p.suites| ==> !p.Runs(k)
      modifies `testSuiteIndices, random, testSuites`testIndices, testSuites`testInfoList
      ensures iterations == Iterations(p, shuffle, start, repeat)
      ensures State(Registered(p), if repeat == 0 then {} else EverySuite(p))
    {
      var randomSeed := start;
      ghost var plan, ran := Registered(p), {};
      iterations := [];
      for i := 0 to repeat
        invariant testSuites == old(testSuites)
        invariant State(plan, ran) && ran == if i == 0 then {} else EverySuite(p)
        invariant randomSeed == SeedOf(shuffle, start, i)
        invariant iterations == Iterations(p, shuffle, start, i)
      {
        var executed := RunIteration(hasTestsToRun, shuffle, randomSeed, random, plan, ran, all);
        ran := EverySuite(p);
        IterationsGoOn(p, shuffle, start, i);
        iterations := iterations + [executed];
        if shuffle {
          randomSeed := GetNextRandomSeed(randomSeed);
        }
      }
    }

    /** The tests that the options and the shard select of those registered here. */
    ghost function Selection(lists: seq<seq<TestInfo>>, o: Options, shard: Option<Shard>): Registry
      requires |lists| == |testSuites| && ValidShard(shard)
      reads `testSuites, `lastDeathTestSuite
    {
      Selected(testSuites, lists, deaths, lastDeathTestSuite, ChoiceOf(o), ShareOf(shard))
    }

    method RunSelected(o: Options, shard: Option<Shard>, shuffle: bool, flag: int, now: nat, repeat: nat,
                       random: Random, ghost p: Program, ghost all: set<TestInfo>)
      returns (iterations: seq<seq<Executed>>)
      requires testSuites == p.suites && testSuiteIndices == Registered(p).suites && lastDeathTestSuite == p.last
      requires Hold(p.suites, p.lists) && Apart(p.lists) && Within(p.lists, all) && ValidShard(shard) && Small(p)
      requires Chooses(p, NamesIn(p.suites, p.lists), ChoiceOf(o), ShareOf(shard))
      requires forall k :: 0 <= k < |p.suites| ==> p.suites[k].Unshuffled()
      modifies `testSuiteIndices, random, testSuites, all
      ensures iterations == Iterations(p, shuffle, GetRandomSeedFromFlag(flag, now), repeat) && AllRight(iterations, p)
      ensures State(Registered(p), if repeat == 0 then {} else EverySuite(p))
    {
      var hasTestsToRun := Prepare(o, shard, p, NamesIn(p.suites, p.lists), all);
      StandAtFirst(p);
      var start := GetRandomSeedFromFlag(flag, now);
      iterations := Repeat(hasTestsToRun, shuffle, start, repeat, random, p, all);
      IterationsAreRight(p, shuffle, start, repeat);
    }

    /** Runs exactly the selected tests in each iteration, each once and death tests first, in an order that only
        the registered tests and the seed of the iteration decide. Afterwards the lists of the suites that ran
        are sorted. */
    method RunAllTests(o: Options, shard: Option<Shard>, shuffle: bool, flag: int, now: nat, repeat: nat,
                       random: Random, ghost lists: seq<seq<TestInfo>>, ghost all: set<TestInfo>)
      returns (iterations: seq<seq<Executed>>)
      requires Valid() && Unshuffled() && forall k :: 0 <= k < |testSuites| ==> testSuites[k].Unshuffled()
      requires Hold(testSuites, lists) && Within(lists, all) && ValidShard(shard)
      requires |lists| <= MAX_RANGE && forall k :: 0 <= k < |lists| ==> |lists[k]| <= MAX_RANGE
      modifies `testSuiteIndices, random, testSuites, all
      ensures Valid() && Unshuffled() && forall k :: 0 <= k < |testSuites| ==> testSuites[k].Unshuffled()
      ensures var p := Selection(lists, o, shard);
        && p.Valid() && Chooses(p, NamesIn(testSuites, lists), ChoiceOf(o), ShareOf(shard))
        && iterations == Iterations(p, shuffle, GetRandomSeedFromFlag(flag, now), repeat) && AllRight(iterations, p)
        && forall k :: 0 <= k < |testSuites| ==>
             && testSuites[k].testInfoList == ListAfter(lists[k], repeat > 0 && p.Runs(k))
             && (InRegisteredOrder(p, k) <==> repeat == 0 || !p.Runs(k) || Sorted(lists[k]))
    {
      RegisteredApart(testSuites, lists);
      ghost var p := Selection(lists, o, shard);
      SelectedChooses(testSuites, lists, deaths, lastDeathTestSuite, ChoiceOf(o), ShareOf(shard));
      iterations := RunSelected(o, shard, shuffle, flag, now, repeat, random, p, all);
      StandingIsSeparate(Registered(p), if repeat == 0 then {} else EverySuite(p));
      StandingAfter(p, repeat);
    }
  }
}
