/** The order in which the tests of a plan run, and the seeds of the iterations, said by positions alone. */
module RunLaws {
  import opened Shuffling
  import opened TestInfos
  import opened TestSuites
  import opened RunOrder
  import opened ShuffleLaws

  // ---------- Seeds ----------

  /** Shuffled iterations take the seeds in turn, from the first one on and around. */
  lemma {:induction false} SeedsGoAround(start: Seed, i: nat)
    ensures SeedOf(true, start, i) == (start - 1 + i) % 99999 + 1
    ensures SeedOf(false, start, i) == start
  {
    if i > 0 {
      SeedsGoAround(start, i - 1);
      AroundOnce(start - 1 + i - 1);
    }
  }

  lemma AroundOnce(n: nat)
    ensures (n + 1) % 99999 == if n % 99999 == 99998 then 0 else n % 99999 + 1
  {
  }

  /** The flag, or the time for the flag 0, is brought into range. */
  lemma FlagsGiveSeeds(raw: nat, now: nat)
    requires 0 < raw < 0x1_0000_0000
    ensures GetRandomSeedFromFlag(raw, now) == (raw - 1) % 99999 + 1 == GetRandomSeedFromFlag(0, raw)
  {
  }

  // ---------- Positions of tests in files ----------

  /** The names agree up to k, where a ends or has the smaller character. */
  ghost predicate DiffersAt(a: string, b: string, k: int) {
    && 0 <= k <= |a| && k < |b| && (forall i :: 0 <= i < k ==> a[i] == b[i])
    && (k < |a| ==> a[k] < b[k])
  }

  lemma {:induction false} FirstDifference(a: string, b: string, k: int)
    requires DiffersAt(a, b, k)
    ensures CompareFiles(a, b) < 0
  {
    if k > 0 {
      assert a[0] == b[0];
      forall i | 0 <= i < k - 1 ensures a[1..][i] == b[1..][i] {
        assert a[i + 1] == b[i + 1];
      }
      FirstDifference(a[1..], b[1..], k - 1);
    }
  }

  lemma {:induction false} FindDifference(a: string, b: string) returns (k: int)
    requires CompareFiles(a, b) < 0
    ensures DiffersAt(a, b, k)
  {
    k := 0;
    if a != "" && a[0] == b[0] {
      var j := FindDifference(a[1..], b[1..]);
      k := j + 1;
      forall i | 0 <= i < k ensures a[i] == b[i] {
        assert i > 0 ==> a[1..][i - 1] == b[1..][i - 1];
      }
    }
  }

  /** A test precedes another exactly when its file has the smaller name, by the first difference, or when it is
      further up in the same file. */
  lemma PrecedesByPosition(a: TestInfo, b: TestInfo)
    ensures Precedes(a, b) <==> (exists k :: DiffersAt(a.file, b.file, k)) || (a.file == b.file && a.line < b.line)
  {
    CompareBack(a.file, b.file);
    if CompareFiles(a.file, b.file) < 0 {
      var k := FindDifference(a.file, b.file);
    }
    if k :| DiffersAt(a.file, b.file, k) {
      FirstDifference(a.file, b.file, k);
    }
  }

  // ---------- Earlier and later ----------

  ghost predicate Before<T>(s: seq<T>, x: T, y: T) {
    exists i, j :: 0 <= i < j < |s| && s[i] == x && s[j] == y
  }

  lemma BeforeInBoth<T>(s: seq<T>, t: seq<T>, x: T, y: T)
    ensures Before(s, x, y) ==> Before(s + t, x, y)
    ensures Before(t, x, y) ==> Before(s + t, x, y)
    ensures x in s && y in t ==> Before(s + t, x, y)
  {
    var all := s + t;
    if i, j :| 0 <= i < j < |s| && s[i] == x && s[j] == y {
      assert all[i] == x && all[j] == y;
    }
    if i, j :| 0 <= i < j < |t| && t[i] == x && t[j] == y {
      assert all[|s| + i] == x && all[|s| + j] == y;
    }
    if x in s && y in t {
      var i :| 0 <= i < |s| && s[i] == x;
      var j :| 0 <= j < |t| && t[j] == y;
      assert all[i] == x && all[|s| + j] == y;
    }
  }

  /** Chosen tests stand as in the order of the indices. */
  lemma {:induction false} ChosenInOrder(tests: seq<TestInfo>, order: seq<int>, n: nat, chosen: iset<TestInfo>,
                                         a: nat, b: nat)
    requires Distinct(tests) && IsOrder(order, |tests|) && a < b < n <= |order|
    requires tests[order[a]] in chosen && tests[order[b]] in chosen
    ensures Before(Chosen(tests, order, n, chosen), tests[order[a]], tests[order[b]])
  {
    var x := tests[order[n - 1]];
    var before, last := Chosen(tests, order, n - 1, chosen), if x in chosen then [x] else [];
    if b == n - 1 {
      ChosenUpTo(tests, order, n - 1, chosen);
      assert tests[order[a]] in before && tests[order[b]] in last;
    } else {
      ChosenInOrder(tests, order, n - 1, chosen, a, b);
    }
    BeforeInBoth(before, last, tests[order[a]], tests[order[b]]);
  }

  lemma TaggedInOrder(suite: TestSuite, tests: seq<TestInfo>, x: TestInfo, y: TestInfo)
    requires Before(tests, x, y)
    ensures Before(Tagged(suite, tests), (suite, x), (suite, y))
  {
    var i, j :| 0 <= i < j < |tests| && tests[i] == x && tests[j] == y;
    assert Tagged(suite, tests)[i] == (suite, x) && Tagged(suite, tests)[j] == (suite, y);
  }

  /** Pieces are run one after the other. */
  lemma {:induction false} JoinedInOrder(pieces: seq<Piece>, n: nat, i: nat, j: nat, x: TestInfo, y: TestInfo)
    requires i <= j < n <= |pieces| && x in pieces[i].tests && y in pieces[j].tests
    requires i == j ==> Before(pieces[i].tests, x, y)
    ensures Before(Joined(pieces, n), (pieces[i].suite, x), (pieces[j].suite, y))
  {
    var e, e' := (pieces[i].suite, x), (pieces[j].suite, y);
    var before, last := Joined(pieces, n - 1), Tagged(pieces[n - 1].suite, pieces[n - 1].tests);
    if j < n - 1 {
      JoinedInOrder(pieces, n - 1, i, j, x, y);
    } else if i < j {
      JoinedHas(pieces, n - 1, pieces[i].suite, x);
      assert HasTest(pieces[i], pieces[i].suite, x);
      TaggedHas(pieces[j].suite, pieces[j].tests, pieces[j].suite, y);
    } else {
      TaggedInOrder(pieces[j].suite, pieces[j].tests, x, y);
    }
    BeforeInBoth(before, last, e, e');
  }

  // ---------- A whole plan ----------

  /** Place a among the tests of place i among the suites. */
  ghost predicate IsPlace(q: Plan, i: nat, a: nat) { i < |q.suites| && a < |q.tests[q.suites[i]]| }

  /** The test at this place: the index at place a counts through the tests of the suite, sorted by position. */
  ghost function TestAt(q: Plan, i: nat, a: nat): TestInfo
    requires IsPlace(q, i, a)
  {
    var k := q.suites[i];
    StableSort(q.p.lists[k])[q.tests[k][a]]
  }

  ghost function SuiteAt(q: Plan, i: nat): TestSuite
    requires i < |q.suites|
  {
    q.p.suites[q.suites[i]]
  }

  /** The chosen tests run by the place of the suite, then by the place of the test in it. */
  lemma RunFollowsPlan(q: Plan, i: nat, a: nat, j: nat, b: nat)
    requires IsPlace(q, i, a) && IsPlace(q, j, b) && (i < j || (i == j && a < b))
    requires TestAt(q, i, a) in q.p.chosen && TestAt(q, j, b) in q.p.chosen
    ensures Before(RunOf(q), (SuiteAt(q, i), TestAt(q, i, a)), (SuiteAt(q, j), TestAt(q, j, b)))
  {
    PlaceHasTest(q, i, a);
    PlaceHasTest(q, j, b);
    if i == j {
      var k := q.suites[i];
      SortKeepsTests(q.p.lists[k]);
      ChosenInOrder(StableSort(q.p.lists[k]), q.tests[k], |q.tests[k]|, q.p.chosen, a, b);
    }
    JoinedInOrder(PiecesOf(q), |q.p.suites|, i, j, TestAt(q, i, a), TestAt(q, j, b));
  }

  lemma PlaceHasTest(q: Plan, i: nat, a: nat)
    requires IsPlace(q, i, a) && TestAt(q, i, a) in q.p.chosen
    ensures i < |PiecesOf(q)| && PiecesOf(q)[i].suite == SuiteAt(q, i) && TestAt(q, i, a) in PiecesOf(q)[i].tests
  {
    var k := q.suites[i];
    SortKeepsTests(q.p.lists[k]);
    ChosenHasAll(StableSort(q.p.lists[k]), q.tests[k], q.p.chosen);
  }

  // ---------- All iterations ----------

  /** Suites and tests stand as registered. */
  ghost predicate StandsAsRegistered(q: Plan) {
    && (forall i :: 0 <= i < |q.suites| ==> q.suites[i] == i)
    && forall k {:trigger q.tests[k]} :: 0 <= k < |q.tests| ==> forall j :: 0 <= j < |q.tests[k]| ==> q.tests[k][j] == j
  }

  /** What an iteration runs: the order of registration, or with shuffling what the generator picks from it for the
      seed of this iteration. */
  lemma IterationsAreDrawn(p: Program, shuffle: bool, start: Seed, repeat: nat, i: nat) returns (q: Plan, r: Plan)
    requires i < repeat
    ensures q.p == p && StandsAsRegistered(q) && Iterations(p, shuffle, start, repeat)[i] == RunOf(r)
    ensures !shuffle ==> r == q
    ensures shuffle ==> ArePickedParts(r, q, DrawnPicks(q, (start - 1 + i) % 99999 + 1))
  {
    q := Registered(p);
    SeedsGoAround(start, i);
    var seed := SeedOf(shuffle, start, i);
    r := if shuffle then ShuffledPlan(q, seed) else q;
    if shuffle {
      ShuffledPlanIsDrawn(q, seed);
    }
  }
}
