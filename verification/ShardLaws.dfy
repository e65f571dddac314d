/** How the runnable tests of a program are numbered, and how many of them a shard takes. */
module ShardLaws {
  import opened TestSelection

  // The place of a test: that of its suite, and its own in the suite.
  type Place = (int, int)

  /** Those of the places that come before test j of suite k. */
  ghost function Below(all: seq<SuiteNames>, places: iset<Place>, k: int, j: int): set<Place> {
    set k', j' | 0 <= k' < |all| && 0 <= j' < |all[k'].tests| && (k', j') in places && (k' < k || (k' == k && j' < j))
      :: (k', j')
  }

  lemma NextTest(all: seq<SuiteNames>, places: iset<Place>, k: int, j: int)
    requires 0 <= k < |all| && 0 <= j < |all[k].tests|
    ensures |Below(all, places, k, j + 1)| == |Below(all, places, k, j)| + if (k, j) in places then 1 else 0
  {
    var before, after := Below(all, places, k, j), Below(all, places, k, j + 1);
    if (k, j) in places {
      assert after == before + {(k, j)} && (k, j) !in before;
    } else {
      assert after == before;
    }
  }

  lemma NextSuite(all: seq<SuiteNames>, places: iset<Place>, k: int)
    requires 0 <= k < |all|
    ensures Below(all, places, k + 1, 0) == Below(all, places, k, |all[k].tests|)
  {
  }

  ghost function Runnables(c: Choice, all: seq<SuiteNames>): iset<Place> {
    iset k: int, j: int | 0 <= k < |all| && 0 <= j < |all[k].tests| && (all[k].name, all[k].tests[j]) in c :: (k, j)
  }

  ghost function Taken(c: Choice, share: Share, all: seq<SuiteNames>): iset<Place> {
    iset k: int, j: int | 0 <= k < |all| && 0 <= j < |all[k].tests| && Selects(c, share, all, k, j) :: (k, j)
  }

  /** The number of a test is that of the runnable tests before it. */
  lemma {:induction false} NumbersAreCounts(c: Choice, all: seq<SuiteNames>, k: nat, j: nat)
    requires k < |all| && j <= |all[k].tests|
    ensures RunnableBefore(c, all, k) + RunnableIn(c, all[k], j) == |Below(all, Runnables(c, all), k, j)|
    decreases k, j
  {
    if j > 0 {
      NumbersAreCounts(c, all, k, j - 1);
      NextTest(all, Runnables(c, all), k, j - 1);
    } else {
      SuitesAreCounted(c, all, k);
    }
  }

  lemma SuitesAreCounted(c: Choice, all: seq<SuiteNames>, k: nat)
    requires k <= |all|
    ensures RunnableBefore(c, all, k) == |Below(all, Runnables(c, all), k, 0)|
    decreases k, -1
  {
    if k > 0 {
      NumbersAreCounts(c, all, k - 1, |all[k - 1].tests|);
      NextSuite(all, Runnables(c, all), k - 1);
    } else {
      assert Below(all, Runnables(c, all), 0, 0) == {};
    }
  }

  /** The load is the number of tests taken. */
  lemma {:induction false} LoadsAreCounts(c: Choice, share: Share, all: seq<SuiteNames>, k: nat, j: nat)
    requires k < |all| && j <= |all[k].tests|
    ensures Load(share, RunnableBefore(c, all, k) + RunnableIn(c, all[k], j)) ==
            |Below(all, Taken(c, share, all), k, j)|
    decreases k, j
  {
    if j > 0 {
      LoadsAreCounts(c, share, all, k, j - 1);
      NextTest(all, Taken(c, share, all), k, j - 1);
    } else {
      SuiteLoadsAreCounts(c, share, all, k);
    }
  }

  lemma SuiteLoadsAreCounts(c: Choice, share: Share, all: seq<SuiteNames>, k: nat)
    requires k <= |all|
    ensures Load(share, RunnableBefore(c, all, k)) == |Below(all, Taken(c, share, all), k, 0)|
    decreases k, -1
  {
    if k > 0 {
      LoadsAreCounts(c, share, all, k - 1, |all[k - 1].tests|);
      NextSuite(all, Taken(c, share, all), k - 1);
    } else {
      assert Below(all, Taken(c, share, all), 0, 0) == {};
    }
  }

  /** Every place of the program that is in the set. */
  ghost function Everywhere(all: seq<SuiteNames>, places: iset<Place>): set<Place> { Below(all, places, |all|, 0) }

  /** A test is taken by a shard exactly when it is runnable and the number of runnable tests before it leaves the index
      of the shard when divided by the number of shards. */
  lemma TakenByNumber(c: Choice, all: seq<SuiteNames>, total: nat, index: nat, k: nat, j: nat)
    requires index < total && k < |all| && j < |all[k].tests|
    ensures (k, j) in Taken(c, OneOf(total, index), all) <==>
      (all[k].name, all[k].tests[j]) in c && |Below(all, Runnables(c, all), k, j)| % total == index
  {
    NumbersAreCounts(c, all, k, j);
  }

  /** Of n runnable tests a shard takes n / total, and one more if its index is below the remainder. */
  lemma ShardTakesItsPart(c: Choice, all: seq<SuiteNames>, total: nat, index: nat)
    requires index < total
    ensures var n := |Everywhere(all, Runnables(c, all))|;
      |Everywhere(all, Taken(c, OneOf(total, index), all))| == n / total + if index < n % total then 1 else 0
  {
    SuitesAreCounted(c, all, |all|);
    SuiteLoadsAreCounts(c, OneOf(total, index), all, |all|);
    LoadOfShard(total, index, RunnableBefore(c, all, |all|));
  }
}
