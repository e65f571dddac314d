/** Which tests a process selects by filter and shard, after FilterTests in gtest.cc. */
module TestSelection {
  import TestFilter
  import opened Wrappers

  const DISABLE_TEST_FILTER := "DISABLED_*:*/DISABLED_*"
  const DEATH_TEST_SUITE_FILTER := "*DeathTest:*DeathTest/*"

  ghost predicate IsDeathName(suiteName: string) { TestFilter.Accepts(DEATH_TEST_SUITE_FILTER, suiteName) }

  // ---------- Which tests a process selects ----------

  datatype Shard = Shard(total: nat, index: nat)

  datatype Options = Options(filter: string, alsoRunDisabled: bool)

  ghost predicate ValidShard(shard: Option<Shard>) { shard.Some? ==> shard.value.index < shard.value.total }

  ghost predicate IsDisabled(suite: string, test: string) {
    TestFilter.Accepts(DISABLE_TEST_FILTER, suite) || TestFilter.Accepts(DISABLE_TEST_FILTER, test)
  }

  ghost predicate IsRunnable(o: Options, suite: string, test: string) {
    (o.alsoRunDisabled || !IsDisabled(suite, test)) && TestFilter.Wanted(o.filter, suite + "." + test)
  }

  predicate ShouldRunTestOnShard(total: nat, index: nat, testId: nat)
    requires total > 0
  {
    testId % total == index
  }

  predicate OnShard(shard: Option<Shard>, id: nat)
    requires shard.Some? ==> shard.value.total > 0
  {
    shard.Some? ==> ShouldRunTestOnShard(shard.value.total, shard.value.index, id)
  }

  // The numbers of the runnable tests that a process takes.
  type Share = iset<nat>

  ghost function ShareOf(shard: Option<Shard>): Share
    requires ValidShard(shard)
  {
    iset id: nat | OnShard(shard, id)
  }

  // The registered names of a suite and its tests.
  datatype SuiteNames = SuiteNames(name: string, tests: seq<string>)

  // Which tests can run at all, by suite and test name.
  type Choice = iset<(string, string)>

  ghost function ChoiceOf(o: Options): Choice { iset p: (string, string) | IsRunnable(o, p.0, p.1) }

  /** How many of the first j tests of a suite are runnable. */
  ghost function RunnableIn(c: Choice, s: SuiteNames, j: nat): nat
    requires j <= |s.tests|
  {
    if j == 0 then 0 else RunnableIn(c, s, j - 1) + if (s.name, s.tests[j - 1]) in c then 1 else 0
  }

  /** How many tests of the first k suites are runnable. */
  ghost function RunnableBefore(c: Choice, all: seq<SuiteNames>, k: nat): nat
    requires k <= |all|
  {
    if k == 0 then 0 else RunnableBefore(c, all, k - 1) + RunnableIn(c, all[k - 1], |all[k - 1].tests|)
  }

  /** Test j of suite k is runnable, and its number, the count of runnable tests before it, is in the share. */
  ghost predicate Selects(c: Choice, share: Share, all: seq<SuiteNames>, k: nat, j: nat)
    requires k < |all| && j < |all[k].tests|
  {
    (all[k].name, all[k].tests[j]) in c && RunnableBefore(c, all, k) + RunnableIn(c, all[k], j) in share
  }

  /** How many of the numbers below n are in the share. */
  ghost function Load(share: Share, n: nat): nat {
    if n == 0 then 0 else Load(share, n - 1) + if n - 1 in share then 1 else 0
  }

  lemma {:induction false} RunnableInGrows(c: Choice, s: SuiteNames, i: nat, j: nat)
    requires i <= j <= |s.tests|
    ensures RunnableIn(c, s, i) <= RunnableIn(c, s, j)
  {
    if i < j { RunnableInGrows(c, s, i, j - 1); }
  }

  lemma {:induction false} RunnableBeforeGrows(c: Choice, all: seq<SuiteNames>, i: nat, j: nat)
    requires i <= j <= |all|
    ensures RunnableBefore(c, all, i) <= RunnableBefore(c, all, j)
  {
    if i < j { RunnableBeforeGrows(c, all, i, j - 1); }
  }

  lemma {:induction false} LoadSees(share: Share, n: nat, id: nat)
    requires id < n && id in share
    ensures Load(share, n) > 0
  {
    if id < n - 1 { LoadSees(share, n - 1, id); }
  }

  /** A process that selects a test has a load. */
  lemma SelectedIsLoad(c: Choice, share: Share, all: seq<SuiteNames>, k: nat, j: nat)
    requires k < |all| && j < |all[k].tests| && Selects(c, share, all, k, j)
    ensures Load(share, RunnableBefore(c, all, |all|)) > 0
  {
    RunnableInGrows(c, all[k], j + 1, |all[k].tests|);
    RunnableBeforeGrows(c, all, k + 1, |all|);
    LoadSees(share, RunnableBefore(c, all, |all|), RunnableBefore(c, all, k) + RunnableIn(c, all[k], j));
  }

  // ---------- Across shards ----------

  ghost function OneOf(total: nat, index: nat): Share
    requires index < total
  {
    ShareOf(Some(Shard(total, index)))
  }

  /** Each runnable test is selected on exactly one of the shards 0 to total - 1, other tests on none. */
  lemma ShardsPartition(c: Choice, all: seq<SuiteNames>, total: nat, k: nat, j: nat)
    requires total > 0 && k < |all| && j < |all[k].tests|
    ensures (all[k].name, all[k].tests[j]) in c <==>
              exists i :: 0 <= i < total && Selects(c, OneOf(total, i), all, k, j)
    ensures forall i, i' ::
        0 <= i < total && 0 <= i' < total
        && Selects(c, OneOf(total, i), all, k, j) && Selects(c, OneOf(total, i'), all, k, j)
        ==> i == i'
  {
    var id := RunnableBefore(c, all, k) + RunnableIn(c, all[k], j);
    assert id in OneOf(total, id % total);
  }

  /** A shard takes every total-th number. */
  lemma {:induction false} LoadOfShard(total: nat, index: nat, n: nat)
    requires index < total
    ensures Load(OneOf(total, index), n) == n / total + if index < n % total then 1 else 0
  {
    if n > 0 {
      LoadOfShard(total, index, n - 1);
      NextDivision(n - 1, total);
    }
  }

  lemma NextDivision(n: nat, d: nat)
    requires d > 0
    ensures if n % d == d - 1 then (n + 1) / d == n / d + 1 && (n + 1) % d == 0
            else (n + 1) / d == n / d && (n + 1) % d == n % d + 1
  {
    var q, r := n / d, n % d;
    assert n == q * d + r;
    if r == d - 1 {
      assert n + 1 == (q + 1) * d;
      DivisionUnique(n + 1, d, q + 1, 0);
    } else {
      DivisionUnique(n + 1, d, q, r + 1);
    }
  }

  lemma DivisionUnique(n: nat, d: nat, q: nat, r: nat)
    requires r < d && n == q * d + r
    ensures n / d == q && n % d == r
  {
    var q' := n / d;
    assert n == q' * d + n % d;
    MulOrder(q' + 1, q, d);
    MulOrder(q + 1, q', d);
  }

  lemma MulOrder(a: nat, b: nat, d: nat)
    ensures a <= b ==> a * d <= b * d
  {
  }

  /** The loads of any two shards differ by at most one. */
  lemma LoadsAreBalanced(total: nat, index: nat, index': nat, n: nat)
    requires index < total && index' < total
    ensures Load(OneOf(total, index), n) <= Load(OneOf(total, index'), n) + 1
  {
    LoadOfShard(total, index, n);
    LoadOfShard(total, index', n);
  }
}
