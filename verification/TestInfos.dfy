/** Tests, and the order into which a suite sorts them, after TestInfo and TestSuite::Run in gtest.cc. */
module TestInfos {
  import opened Shuffling
  import opened TestSelection
  import TestFilter

  /** What the filters say of a test, by suite and test name. */
  datatype Verdicts = Verdicts(disabled: Choice, wanted: Choice, runnable: Choice) {
    ghost predicate Agrees(o: Options, flagFilter: TestFilter.PositiveAndNegativeUnitTestFilter,
                           disableFilter: TestFilter.UnitTestFilter)
    {
      && (forall s, t {:trigger disableFilter.Selects(s), disableFilter.Selects(t)} ::
           (s, t) in disabled <==> disableFilter.Selects(s) || disableFilter.Selects(t))
      && (forall s, t {:trigger flagFilter.Selects(s + "." + t)} ::
           (s, t) in wanted <==> flagFilter.Selects(s + "." + t))
      && (forall s, t {:trigger (s, t) in wanted} ::
           (s, t) in runnable <==> (o.alsoRunDisabled || (s, t) !in disabled) && (s, t) in wanted)
    }
  }

  class TestInfo {
    const name: string
    const file: string
    const line: int
    var isDisabled: bool
    var matchesFilter: bool
    var isInAnotherShard: bool
    var shouldRun: bool

    constructor (name: string, file: string, line: int)
      ensures this.name == name && this.file == file && this.line == line
    {
      this.name, this.file, this.line := name, file, line;
    }

    method SetFlags(isDisabled: bool, matchesFilter: bool, isInAnotherShard: bool, shouldRun: bool)
      modifies this
      ensures this.isDisabled == isDisabled && this.matchesFilter == matchesFilter
      ensures this.isInAnotherShard == isInAnotherShard && this.shouldRun == shouldRun
    {
      this.isDisabled, this.matchesFilter := isDisabled, matchesFilter;
      this.isInAnotherShard, this.shouldRun := isInAnotherShard, shouldRun;
    }

    /** The flags that the verdicts ask for, with `here` saying whether its number falls to this shard. */
    ghost predicate HasFlags(suite: string, v: Verdicts, here: bool)
      reads this
    {
      && isDisabled == ((suite, name) in v.disabled) && matchesFilter == ((suite, name) in v.wanted)
      && isInAnotherShard == !here && shouldRun == (((suite, name) in v.runnable) && here)
    }
  }

  // ---------- Sorting by position ----------

  /** Three-way comparison of file names, character by character. */
  function CompareFiles(a: string, b: string): int {
    if a == "" && b == "" then 0
    else if a == "" then -1
    else if b == "" then 1
    else if a[0] != b[0] then (a[0] as int) - (b[0] as int)
    else CompareFiles(a[1..], b[1..])
  }

  /** By file, then by line. */
  predicate Precedes(a: TestInfo, b: TestInfo) {
    var c := CompareFiles(a.file, b.file);
    if c != 0 then c < 0 else a.line < b.line
  }

  function Insert(x: TestInfo, sorted: seq<TestInfo>): (r: seq<TestInfo>)
    ensures |r| == |sorted| + 1
  {
    if sorted == [] || !Precedes(sorted[0], x) then [x] + sorted
    else [sorted[0]] + Insert(x, sorted[1..])
  }

  /** Inserts the tests one by one, the last first. */
  function StableSort(tests: seq<TestInfo>): (r: seq<TestInfo>)
    ensures |r| == |tests|
  {
    if tests == [] then [] else Insert(tests[0], StableSort(tests[1..]))
  }

  lemma {:induction false} InsertKeepsTests(x: TestInfo, sorted: seq<TestInfo>)
    ensures multiset(Insert(x, sorted)) == multiset{x} + multiset(sorted)
  {
    if sorted != [] && Precedes(sorted[0], x) {
      InsertKeepsTests(x, sorted[1..]);
      assert sorted == [sorted[0]] + sorted[1..];
    }
  }

  /** Sorting only rearranges. */
  lemma {:induction false} SortKeepsTests(tests: seq<TestInfo>)
    ensures multiset(StableSort(tests)) == multiset(tests)
    ensures forall x :: x in StableSort(tests) <==> x in tests
    ensures Distinct(tests) ==> Distinct(StableSort(tests))
  {
    if tests != [] {
      SortKeepsTests(tests[1..]);
      InsertKeepsTests(tests[0], StableSort(tests[1..]));
      assert tests == [tests[0]] + tests[1..];
    }
    PermutedIsDistinct(StableSort(tests), tests);
    PermutedIsDistinct(tests, StableSort(tests));
  }

  /** No test stands behind one that it precedes. */
  ghost predicate Sorted(tests: seq<TestInfo>) {
    forall i, j :: 0 <= i < j < |tests| ==> !Precedes(tests[j], tests[i])
  }

  lemma {:induction false} CompareBack(a: string, b: string)
    ensures CompareFiles(a, b) < 0 <==> CompareFiles(b, a) > 0
    ensures CompareFiles(a, b) == 0 <==> a == b
    ensures CompareFiles(b, a) == 0 <==> a == b
  {
    if a != "" && b != "" && a[0] == b[0] {
      CompareBack(a[1..], b[1..]);
      assert a == [a[0]] + a[1..] && b == [b[0]] + b[1..];
    }
  }

  lemma {:induction false} CompareOn(a: string, b: string, c: string)
    requires CompareFiles(a, b) <= 0 && CompareFiles(b, c) <= 0
    ensures CompareFiles(a, c) <= 0
  {
    if a != "" && b != "" && c != "" && a[0] == b[0] == c[0] {
      CompareOn(a[1..], b[1..], c[1..]);
    }
  }

  /** Precedence orders the tests, those of the same position standing level. */
  lemma PrecedesOrders(a: TestInfo, b: TestInfo, c: TestInfo)
    ensures !Precedes(a, a) && !(Precedes(a, b) && Precedes(b, a))
    ensures !Precedes(b, a) && !Precedes(c, b) ==> !Precedes(c, a)
  {
    CompareBack(a.file, a.file);
    CompareBack(a.file, b.file);
    CompareBack(b.file, c.file);
    CompareBack(a.file, c.file);
    if !Precedes(b, a) && !Precedes(c, b) {
      CompareOn(a.file, b.file, c.file);
    }
  }

  lemma {:induction false} InsertSorts(x: TestInfo, sorted: seq<TestInfo>)
    requires Sorted(sorted)
    ensures Sorted(Insert(x, sorted))
  {
    if sorted != [] {
      if Precedes(sorted[0], x) {
        InsertSorts(x, sorted[1..]);
        InsertedBehind(sorted[0], x, sorted[1..]);
      } else {
        forall k | 0 <= k < |sorted| ensures !Precedes(sorted[k], x) {
          PrecedesOrders(x, sorted[0], sorted[k]);
        }
      }
    }
  }

  lemma InsertedBehind(first: TestInfo, x: TestInfo, rest: seq<TestInfo>)
    requires Precedes(first, x) && forall k :: 0 <= k < |rest| ==> !Precedes(rest[k], first)
    ensures forall k :: 0 <= k < |Insert(x, rest)| ==> !Precedes(Insert(x, rest)[k], first)
  {
    PrecedesOrders(first, x, x);
    InsertKeepsTests(x, rest);
    forall k | 0 <= k < |Insert(x, rest)| ensures !Precedes(Insert(x, rest)[k], first) {
      assert Insert(x, rest)[k] in multiset{x} + multiset(rest);
    }
  }

  lemma {:induction false} SortSorts(tests: seq<TestInfo>)
    ensures Sorted(StableSort(tests))
  {
    if tests != [] {
      SortSorts(tests[1..]);
      InsertSorts(tests[0], StableSort(tests[1..]));
    }
  }

  lemma {:induction false} SortedStays(tests: seq<TestInfo>)
    requires Sorted(tests)
    ensures StableSort(tests) == tests
  {
    if tests != [] {
      SortedStays(tests[1..]);
      assert |tests| > 1 ==> !Precedes(tests[1], tests[0]);
    }
  }

  /** Exactly the lists without an inversion are left alone. */
  lemma SortKeepsExactlySorted(tests: seq<TestInfo>)
    ensures StableSort(tests) == tests <==> Sorted(tests)
  {
    SortSorts(tests);
    if Sorted(tests) {
      SortedStays(tests);
    }
  }

  lemma SortedAgain(tests: seq<TestInfo>)
    ensures StableSort(StableSort(tests)) == StableSort(tests)
  {
    SortSorts(tests);
    SortedStays(StableSort(tests));
  }

  /** Test a stands before test b. */
  ghost predicate InOrder(r: seq<TestInfo>, a: TestInfo, b: TestInfo) {
    exists i, j :: 0 <= i < j < |r| && r[i] == a && r[j] == b
  }

  lemma {:induction false} InsertKeepsOrder(x: TestInfo, sorted: seq<TestInfo>, a: TestInfo, b: TestInfo)
    requires InOrder(sorted, a, b)
    ensures InOrder(Insert(x, sorted), a, b)
  {
    var i, j :| 0 <= i < j < |sorted| && sorted[i] == a && sorted[j] == b;
    var r := Insert(x, sorted);
    if !Precedes(sorted[0], x) {
      assert r[i + 1] == a && r[j + 1] == b;
    } else if i > 0 {
      assert sorted[1..][i - 1] == a && sorted[1..][j - 1] == b;
      InsertKeepsOrder(x, sorted[1..], a, b);
      var i', j' :| 0 <= i' < j' < |r| - 1 && r[1..][i'] == a && r[1..][j'] == b;
      assert r[i' + 1] == a && r[j' + 1] == b;
    } else {
      InsertKeepsTests(x, sorted[1..]);
      assert b == sorted[1..][j - 1] && b in multiset(r[1..]);
      var j' :| 0 <= j' < |r| - 1 && r[1..][j'] == b;
      assert r[0] == a && r[j' + 1] == b;
    }
  }

  lemma {:induction false} InsertStandsBefore(x: TestInfo, sorted: seq<TestInfo>, b: TestInfo)
    requires b in sorted && Sorted(sorted) && !Precedes(b, x)
    ensures InOrder(Insert(x, sorted), x, b)
  {
    var j :| 0 <= j < |sorted| && sorted[j] == b;
    var r := Insert(x, sorted);
    if !Precedes(sorted[0], x) {
      assert r[0] == x && r[j + 1] == b;
    } else {
      assert b == sorted[1..][j - 1];
      InsertStandsBefore(x, sorted[1..], b);
      var i', j' :| 0 <= i' < j' < |r| - 1 && r[1..][i'] == x && r[1..][j'] == b;
      assert r[i' + 1] == x && r[j' + 1] == b;
    }
  }

  /** Of two tests the one registered first stays first, unless the other precedes it. */
  lemma {:induction false} SortIsStable(tests: seq<TestInfo>, i: nat, j: nat)
    requires i < j < |tests| && !Precedes(tests[j], tests[i])
    ensures InOrder(StableSort(tests), tests[i], tests[j])
  {
    var rest := StableSort(tests[1..]);
    if i > 0 {
      SortIsStable(tests[1..], i - 1, j - 1);
      InsertKeepsOrder(tests[0], rest, tests[i], tests[j]);
    } else {
      SortSorts(tests[1..]);
      SortKeepsTests(tests[1..]);
      assert tests[j] == tests[1..][j - 1] && tests[j] in multiset(rest);
      InsertStandsBefore(tests[0], rest, tests[j]);
    }
  }

  /** The list of a suite after it ran, or did not run. */
  function ListAfter(tests: seq<TestInfo>, ran: bool): (r: seq<TestInfo>)
    ensures |r| == |tests|
  {
    if ran then StableSort(tests) else tests
  }

  /** Running sorts the list, and unshuffling restores only the indices: the order is that of registration
      exactly when the suite did not run, or no test was registered before one that it follows. */
  lemma OrderIsRestored(tests: seq<TestInfo>, ran: bool)
    ensures ListAfter(tests, ran) == tests <==> !ran || Sorted(tests)
  {
    SortKeepsExactlySorted(tests);
  }

  /** Two tests of one file, the one further down registered first, change places for good. */
  lemma OrderIsNotRestored(a: TestInfo, b: TestInfo)
    requires a.file == b.file && b.line < a.line
    ensures ListAfter([a, b], true) == [b, a] != [a, b]
  {
    CompareBack(a.file, b.file);
    assert [a, b][1..] == [b] && StableSort([b]) == [b];
    assert [b][1..] == [] && Insert(a, [b]) == [b, a];
  }

  /** Once sorted, the list stays as it is in further runs. */
  lemma SortsOnce(tests: seq<TestInfo>, ran: bool)
    ensures StableSort(ListAfter(tests, ran)) == StableSort(tests)
  {
    SortedAgain(tests);
  }

  // ---------- Which tests run ----------

  ghost function NamesOf(tests: seq<TestInfo>): seq<string> {
    seq(|tests|, i requires 0 <= i < |tests| => tests[i].name)
  }

  /** Exactly the chosen tests should run. */
  ghost predicate Marks(tests: seq<TestInfo>, chosen: iset<TestInfo>)
    reads tests
  {
    forall x :: x in tests ==> (x.shouldRun <==> x in chosen)
  }

  /** The chosen ones of the first n tests, in the order of the indices. */
  ghost function Chosen(tests: seq<TestInfo>, order: seq<int>, n: nat, chosen: iset<TestInfo>): seq<TestInfo>
    requires IsOrder(order, |tests|) && n <= |order|
  {
    if n == 0 then []
    else
      var x := tests[order[n - 1]];
      Chosen(tests, order, n - 1, chosen) + if x in chosen then [x] else []
  }

  lemma {:induction false} ChosenUpTo(tests: seq<TestInfo>, order: seq<int>, n: nat, chosen: iset<TestInfo>)
    requires Distinct(tests) && IsOrder(order, |tests|) && n <= |order|
    ensures Distinct(Chosen(tests, order, n, chosen))
    ensures forall x :: x in Chosen(tests, order, n, chosen) <==>
      x in chosen && exists i :: 0 <= i < n && x == tests[order[i]]
  {
    if n > 0 {
      ChosenUpTo(tests, order, n - 1, chosen);
    }
  }

  lemma {:induction false} NoneChosen(tests: seq<TestInfo>, order: seq<int>, n: nat, chosen: iset<TestInfo>)
    requires IsOrder(order, |tests|) && n <= |order| && forall x :: x in tests ==> x !in chosen
    ensures Chosen(tests, order, n, chosen) == []
  {
    if n > 0 {
      NoneChosen(tests, order, n - 1, chosen);
    }
  }

  /** All chosen tests, in the order of the indices. */
  ghost function ChosenOf(tests: seq<TestInfo>, order: seq<int>, chosen: iset<TestInfo>): seq<TestInfo>
    requires IsOrder(order, |tests|)
  {
    Chosen(tests, order, |order|, chosen)
  }

  /** Every chosen test, each once. */
  lemma ChosenHasAll(tests: seq<TestInfo>, order: seq<int>, chosen: iset<TestInfo>)
    requires Distinct(tests) && IsOrder(order, |tests|)
    ensures Distinct(ChosenOf(tests, order, chosen))
    ensures forall x :: x in ChosenOf(tests, order, chosen) <==> x in tests && x in chosen
  {
    ChosenUpTo(tests, order, |order|, chosen);
    forall x | x in tests ensures exists i :: 0 <= i < |order| && x == tests[order[i]] {
      var m :| 0 <= m < |tests| && tests[m] == x;
      assert m in order;
    }
  }
}
