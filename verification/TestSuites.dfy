/** Test suites, after TestSuite in gtest.cc. */
module TestSuites {
  import opened Shuffling
  import opened TestSelection
  import opened TestInfos
  import opened Wrappers
  import TestFilter

  method Judge(suite: string, test: string, ghost v: Verdicts, o: Options,
               flagFilter: TestFilter.PositiveAndNegativeUnitTestFilter, disableFilter: TestFilter.UnitTestFilter)
    returns (isDisabled: bool, matchesFilter: bool)
    requires v.Agrees(o, flagFilter, disableFilter)
    ensures isDisabled == ((suite, test) in v.disabled) && matchesFilter == ((suite, test) in v.wanted)
    ensures (suite, test) in v.runnable <==> (o.alsoRunDisabled || !isDisabled) && matchesFilter
  {
    isDisabled := disableFilter.MatchesName(suite);
    if !isDisabled {
      isDisabled := disableFilter.MatchesName(test);
    }
    ghost var bySuite, byTest := disableFilter.Selects(suite), disableFilter.Selects(test);
    matchesFilter := flagFilter.MatchesName(suite + "." + test);
  }

  /** The element, or the default outside the range. */
  function GetElementOr(v: seq<int>, i: int, default: int): int {
    if i < 0 || i >= |v| then default else v[i]
  }

  /** Test j of a suite has the flags that its verdicts and its number ask for. */
  ghost predicate DecidedAt(tests: seq<TestInfo>, suite: string, v: Verdicts, share: Share, first: nat, j: nat)
    requires j < |tests|
    reads tests[j]
  {
    tests[j].HasFlags(suite, v, first + RunnableIn(v.runnable, SuiteNames(suite, NamesOf(tests)), j) in share)
  }

  class TestSuite {
    const name: string
    var testInfoList: seq<TestInfo>
    var testIndices: seq<int>
    var shouldRun: bool

    ghost predicate Valid()
      reads `testInfoList, `testIndices
    {
      IsOrder(testIndices, |testInfoList|) && Distinct(testInfoList)
    }

    ghost predicate Unshuffled()
      reads `testInfoList, `testIndices
    {
      testIndices == Range(0, |testInfoList|)
    }

    constructor (name: string)
      ensures Valid() && Unshuffled() && this.name == name && testInfoList == []
    {
      this.name := name;
      testInfoList, testIndices, shouldRun := [], [], false;
    }

    method AddTestInfo(testInfo: TestInfo)
      requires Valid() && Unshuffled() && testInfo !in testInfoList
      modifies this
      ensures Valid() && Unshuffled() && testInfoList == old(testInfoList) + [testInfo]
    {
      testInfoList := testInfoList + [testInfo];
      testIndices := testIndices + [|testIndices|];
      assert testIndices == Range(0, |testInfoList|);
      RangeIsOrder(|testInfoList|);
    }

    /** Shuffles the indices; the state of the generator decides how. */
    method ShuffleTests(random: Random)
      requires |testIndices| <= MAX_RANGE
      modifies `testIndices, random
      ensures testIndices == Shuffled(old(testIndices), 0, |old(testIndices)|, old(random.state))
      ensures random.state == StateAfter(old(random.state), |testIndices|)
    {
      testIndices := ShuffleRange(random, 0, |testIndices|, testIndices);
    }

    method UnshuffleTests()
      requires |testIndices| == |testInfoList|
      modifies `testIndices
      ensures Unshuffled() && IsOrder(testIndices, |testInfoList|)
    {
      for i := 0 to |testIndices|
        invariant |testIndices| == |testInfoList|
        invariant forall k :: 0 <= k < i ==> testIndices[k] == k
      {
        testIndices := testIndices[i := i];
      }
      assert testIndices == Range(0, |testInfoList|);
      RangeIsOrder(|testInfoList|);
    }

    /** Decides for each test, in registration order, whether this process runs it. */
    method FilterTests(o: Options, shard: Option<Shard>, first: nat,
                       ghost v: Verdicts, ghost share: Share, ghost names: SuiteNames,
                       flagFilter: TestFilter.PositiveAndNegativeUnitTestFilter,
                       disableFilter: TestFilter.UnitTestFilter)
      returns (runnable: nat, selected: nat)
      requires Distinct(testInfoList) && names == Names() && v.Agrees(o, flagFilter, disableFilter)
      requires ValidShard(shard) && forall id {:trigger OnShard(shard, id)} :: id in share <==> OnShard(shard, id)
      modifies `shouldRun, testInfoList
      ensures runnable == RunnableIn(v.runnable, names, |names.tests|)
      ensures Load(share, first) + selected == Load(share, first + runnable)
      ensures Decided(v, share, first)
    {
      var tests, any := testInfoList, false;
      runnable, selected := 0, 0;
      for i := 0 to |tests|
        invariant runnable == RunnableIn(v.runnable, names, i)
        invariant Load(share, first) + selected == Load(share, first + runnable)
        invariant forall j :: 0 <= j < i ==> DecidedAt(tests, name, v, share, first, j)
        invariant any <==> exists j :: 0 <= j < i && tests[j].shouldRun
      {
        var isRunnable, isSelected :=
          FilterTest(tests[i], o, shard, first + runnable, v, share, flagFilter, disableFilter);
        runnable := runnable + if isRunnable then 1 else 0;
        selected := selected + if isSelected then 1 else 0;
        any := any || isSelected;
      }
      shouldRun := any;
    }

    /** Decides whether this process runs the test. */
    method FilterTest(testInfo: TestInfo, o: Options, shard: Option<Shard>, number: nat,
                      ghost v: Verdicts, ghost share: Share,
                      flagFilter: TestFilter.PositiveAndNegativeUnitTestFilter,
                      disableFilter: TestFilter.UnitTestFilter)
      returns (isRunnable: bool, isSelected: bool)
      requires v.Agrees(o, flagFilter, disableFilter) && ValidShard(shard)
      requires (number in share <==> OnShard(shard, number))
      modifies testInfo
      ensures isRunnable <==> (name, testInfo.name) in v.runnable
      ensures testInfo.HasFlags(name, v, number in share) && isSelected == testInfo.shouldRun
    {
      var isDisabled, matchesFilter := Judge(name, testInfo.name, v, o, flagFilter, disableFilter);
      isRunnable := (o.alsoRunDisabled || !isDisabled) && matchesFilter;
      var isInAnotherShard := !OnShard(shard, number);
      isSelected := isRunnable && !isInAnotherShard;
      testInfo.SetFlags(isDisabled, matchesFilter, isInAnotherShard, isSelected);
    }

    /** Every test has the flags that its verdicts and its number ask for, the first number being `first`. */
    ghost predicate Decided(v: Verdicts, share: Share, first: nat)
      reads `shouldRun, `testInfoList, testInfoList
    {
      && (forall j :: 0 <= j < |testInfoList| ==> DecidedAt(testInfoList, name, v, share, first, j))
      && (shouldRun <==> exists x :: x in testInfoList && x.shouldRun)
    }

    ghost function Names(): SuiteNames
      reads `testInfoList
    {
      SuiteNames(name, NamesOf(testInfoList))
    }

    function GetMutableTestInfo(i: int): TestInfo
      requires IsOrder(testIndices, |testInfoList|) && 0 <= i < |testIndices|
      reads `testIndices, `testInfoList
    {
      testInfoList[GetElementOr(testIndices, i, -1)]
    }

    /** Sorts the tests by their position in the source, then runs the chosen ones in the order of the indices. */
    method Run(ghost chosen: iset<TestInfo>) returns (executed: seq<TestInfo>)
      requires IsOrder(testIndices, |testInfoList|) && Marks(testInfoList, chosen)
      requires shouldRun <==> exists x :: x in testInfoList && x in chosen
      modifies `testInfoList
      ensures testInfoList == ListAfter(old(testInfoList), shouldRun)
      ensures executed == ChosenOf(StableSort(old(testInfoList)), testIndices, chosen)
    {
      ghost var tests := testInfoList;
      SortKeepsTests(tests);
      if !shouldRun {
        NoneChosen(StableSort(tests), testIndices, |testIndices|, chosen);
        return [];
      }
      testInfoList := StableSort(testInfoList);
      executed := [];
      for i := 0 to |testIndices|
        invariant executed == Chosen(testInfoList, testIndices, i, chosen)
      {
        var testInfo := GetMutableTestInfo(i);
        if testInfo.shouldRun {
          executed := executed + [testInfo];
        }
      }
    }
  }
}
