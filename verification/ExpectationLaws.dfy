/** What calls leave behind: counts, excess calls and retirement, over whole runs. */
module ExpectationLaws {
  import opened Prerequisites
  import opened ExpectationRuns

  // ---------- Cardinalities ----------

  /** The satisfied counts are those from the least to the greatest number of calls, and a count is saturated exactly
      when no further call can satisfy. */
  lemma CardinalityMeaning(c: Cardinality, count: nat)
    requires c.min <= c.max
    ensures c.IsSatisfiedBy(count) <==> c.min <= count <= c.max
    ensures c.IsSaturatedBy(count) <==> forall later | later > count :: !c.IsSatisfiedBy(later)
  {
    assert c.IsSatisfiedBy(c.max) && (count < c.max ==> !c.IsSaturatedBy(count));
  }

  // ---------- Which calls are handled ----------

  ghost predicate IsWithin(s: State, i: nat) {
    i < |s.es| && s.es[i].cardinality.min <= s.es[i].calls <= s.es[i].cardinality.max
  }

  /** A call of e takes s to s'. */
  ghost predicate CallOf(s: State, s': State, e: nat) {
    Next(s, s') && |s'.log| == |s.log| + 1 && s'.log[|s.log|].id == e
  }

  /** An expectation handles a call exactly when it is active and every prerequisite, immediate or not, has had
      a number of calls within its bounds. */
  lemma ActiveHandles(s: State, e: nat)
    ensures (exists s' :: CallOf(s, s', e)) <==>
      e < |s.es| && !s.es[e].retired && forall i :: Requires(GraphOf(s), e, i) ==> IsWithin(s, i)
  {
    assert forall i: nat :: i in Satisfied(s) <==> IsWithin(s, i);
    if s' :| CallOf(s, s', e) {
      assert Handle(s, s');
    }
    if ShouldHandle(s, e) {
      assert Handle(s, Called(s, e)) && CallOf(s, Called(s, e), e);
    }
  }

  // ---------- Counts ----------

  ghost function CallsIn(log: seq<Call>, i: nat): nat {
    if log == [] then 0 else CallsIn(log[..|log| - 1], i) + if log[|log| - 1].id == i then 1 else 0
  }

  ghost function ExcessIn(log: seq<Call>, i: nat): nat {
    if log == [] then 0
    else ExcessIn(log[..|log| - 1], i) + if log[|log| - 1].id == i && log[|log| - 1].excess then 1 else 0
  }

  /** The calls in excess are those beyond the greatest number allowed. */
  ghost predicate CountsAreRight(s: State, i: nat)
    requires i < |s.es|
  {
    var calls, max := s.es[i].calls, s.es[i].cardinality.max;
    calls == CallsIn(s.log, i) && ExcessIn(s.log, i) == if calls <= max then 0 else calls - max
  }

  ghost predicate Counted(s: State) {
    && (forall c :: c in s.log ==> c.id < |s.es|)
    && forall i :: 0 <= i < |s.es| ==> CountsAreRight(s, i)
  }

  lemma {:induction false} NotCalled(log: seq<Call>, i: nat)
    requires forall c :: c in log ==> c.id < i
    ensures CallsIn(log, i) == 0 == ExcessIn(log, i)
  {
    if log != [] {
      assert log[|log| - 1] in log;
      NotCalled(log[..|log| - 1], i);
    }
  }

  lemma CreateCounts(s: State, s': State)
    requires Counted(s) && Create(s, s')
    ensures Counted(s')
  {
    NotCalled(s.log, |s.es|);
    forall i | 0 <= i < |s'.es| ensures CountsAreRight(s', i) {
      assert i < |s.es| ==> s'.es[i] == s.es[i] && CountsAreRight(s, i);
    }
  }

  /** Only the order of the newest expectation changes. */
  ghost predicate OnlyOrders(s: State, s': State) {
    && |s'.es| == |s.es| && s'.log == s.log && InProgress(s)
    && (forall i :: 0 <= i < |s.es| - 1 ==> s'.es[i] == s.es[i])
    && s'.es[|s.es| - 1] == s.es[|s.es| - 1].(prerequisites := s'.es[|s.es| - 1].prerequisites)
  }

  lemma OrderingOnlyOrders(s: State, s': State)
    requires After(s, s') || InSequence(s, s')
    ensures OnlyOrders(s, s')
  {
  }

  lemma OrderingCounts(s: State, s': State)
    requires Counted(s) && OnlyOrders(s, s')
    ensures Counted(s')
  {
    forall i | 0 <= i < |s'.es| ensures CountsAreRight(s', i) {
      assert CountsAreRight(s, i) && s'.es[i] == s.es[i].(prerequisites := s'.es[i].prerequisites);
    }
  }

  lemma CalledLog(s: State, e: nat)
    requires e < |s.es|
    ensures Called(s, e).log == s.log + [Call(e, s.es[e].calls >= s.es[e].cardinality.max)]
  {
  }

  lemma CallCounts(s: State, e: nat)
    requires Counted(s) && e < |s.es|
    ensures Counted(Called(s, e))
  {
    var s' := Called(s, e);
    CalledLog(s, e);
    assert s'.log[..|s'.log| - 1] == s.log;
    forall i | 0 <= i < |s.es| ensures CountsAreRight(s', i) {
      CalledFields(s, e, i);
      assert CountsAreRight(s, i);
    }
  }

  // ---------- Retirement ----------

  /** Some call of it was within the greatest number allowed. */
  ghost predicate WasCalledProperly(s: State, j: nat) {
    j < |s.es| && s.es[j].calls > 0 && s.es[j].cardinality.max > 0
  }

  /** Expectation i is required by one that has been properly called, or it retires on saturation and has been called
      as often as it may be. */
  ghost predicate MustBeRetired(s: State, i: nat)
    requires i < |s.es|
  {
    || (exists j :: WasCalledProperly(s, j) && Requires(GraphOf(s), j, i))
    || (s.es[i].retiresOnSaturation && s.es[i].calls >= s.es[i].cardinality.max > 0)
  }

  ghost predicate IsRight(s: State, i: nat)
    requires i < |s.es|
  {
    && (s.es[i].retired <==> MustBeRetired(s, i))
    && (s.es[i].retiresOnSaturation && s.es[i].cardinality.max > 0 ==> s.es[i].calls <= s.es[i].cardinality.max)
  }

  ghost predicate RightlyRetired(s: State) {
    forall i :: 0 <= i < |s.es| ==> IsRight(s, i)
  }

  /** The expectations called before stay, with their prerequisites and those of all older ones. */
  ghost predicate KeepsCalled(s: State, s': State) {
    && |s.es| <= |s'.es|
    && (forall j :: WasCalledProperly(s', j) <==> WasCalledProperly(s, j))
    && (forall j, k :: WasCalledProperly(s, j) && 0 <= k <= j ==> s'.es[k].prerequisites == s.es[k].prerequisites)
  }

  lemma RequiresStays(s: State, s': State, i: nat, j: nat)
    requires Older(s) && i < |s.es| <= |s'.es| && Requires(GraphOf(s), i, j)
    requires forall k :: 0 <= k <= i ==> s'.es[k].prerequisites == s.es[k].prerequisites
    ensures Requires(GraphOf(s'), i, j)
  {
    var p :| IsPath(GraphOf(s), i, j, p);
    forall k | 0 <= k < |p| - 1 ensures p[k] in GraphOf(s') && p[k + 1] in GraphOf(s')[p[k]] {
      if k > 0 {
        OlderPath(s, p, k);
      }
      assert p[k + 1] in GraphOf(s)[p[k]];
    }
    assert IsPath(GraphOf(s'), i, j, p);
  }

  lemma KeepsRetired(s: State, s': State, i: nat)
    requires Older(s) && Older(s') && KeepsCalled(s, s') && i < |s.es|
    requires s'.es[i] == s.es[i].(prerequisites := s'.es[i].prerequisites)
    ensures MustBeRetired(s', i) <==> MustBeRetired(s, i)
  {
    forall j | WasCalledProperly(s, j) ensures Requires(GraphOf(s'), j, i) <==> Requires(GraphOf(s), j, i) {
      if Requires(GraphOf(s), j, i) {
        RequiresStays(s, s', j, i);
      }
      if Requires(GraphOf(s'), j, i) {
        RequiresUnchanged(s, s', j, i);
      }
    }
  }

  lemma CreateRetires(s: State, s': State)
    requires Inv(s) && Inv(s') && RightlyRetired(s) && Create(s, s')
    ensures RightlyRetired(s')
  {
    assert forall i :: 0 <= i < |s.es| ==> s'.es[i] == s.es[i];
    forall i | 0 <= i < |s'.es| ensures IsRight(s', i) {
      if i < |s.es| {
        assert IsRight(s, i);
        KeepsRetired(s, s', i);
      } else if j :| WasCalledProperly(s', j) && Requires(GraphOf(s'), j, i) {
        RequiresOlder(s', j, i);
      }
    }
  }

  lemma OrderingRetires(s: State, s': State)
    requires Inv(s) && Inv(s') && RightlyRetired(s) && OnlyOrders(s, s')
    ensures RightlyRetired(s')
  {
    forall i | 0 <= i < |s'.es| ensures IsRight(s', i) {
      assert IsRight(s, i);
      KeepsRetired(s, s', i);
    }
  }

  lemma CallRetires(s: State, e: nat)
    requires Inv(s) && RightlyRetired(s) && ShouldHandle(s, e)
    ensures RightlyRetired(Called(s, e))
  {
    var s', g := Called(s, e), GraphOf(s);
    CalledGraph(s, e);
    forall j: nat
      ensures WasCalledProperly(s', j) <==> WasCalledProperly(s, j) || (j == e && s.es[e].cardinality.max > 0)
    {
      if j < |s.es| {
        CalledFields(s, e, j);
      }
    }
    assert IsRight(s, e);
    forall i | 0 <= i < |s'.es| ensures IsRight(s', i) {
      CalledFields(s, e, i);
      assert IsRight(s, i);
    }
  }

  // ---------- Whole runs ----------

  lemma {:induction false} RunCountsAndRetires(trace: seq<State>, k: nat)
    requires Run(trace) && k < |trace|
    ensures Counted(trace[k]) && RightlyRetired(trace[k])
  {
    if k > 0 {
      var s, s' := trace[k - 1], trace[k];
      RunCountsAndRetires(trace, k - 1);
      RunKeeps(trace, k - 1);
      RunKeeps(trace, k);
      assert Next(trace[k - 1], trace[k - 1 + 1]);
      if Create(s, s') {
        CreateCounts(s, s');
        CreateRetires(s, s');
      } else if Handle(s, s') {
        var e :| ShouldHandle(s, e) && s' == Called(s, e);
        CallCounts(s, e);
        CallRetires(s, e);
      } else {
        OrderingOnlyOrders(s, s');
        OrderingCounts(s, s');
        OrderingRetires(s, s');
      }
    }
  }

  /** In every run each expectation has as many calls as were handled for it, and those in excess are exactly the ones
      beyond the greatest number allowed. */
  lemma CallsAreCounted(trace: seq<State>, k: nat, i: nat)
    requires Run(trace) && k < |trace| && i < |trace[k].es|
    ensures var x, log := trace[k].es[i], trace[k].log;
      && x.calls == CallsIn(log, i)
      && ExcessIn(log, i) == if x.calls <= x.cardinality.max then 0 else x.calls - x.cardinality.max
  {
    RunCountsAndRetires(trace, k);
    assert CountsAreRight(trace[k], i);
  }

  /** In every run exactly those are retired that a properly called one requires, or that retire on saturation and are
      saturated by a call. One that retires on saturation has no call in excess, unless no call is allowed at all. */
  lemma RetiredExactly(trace: seq<State>, k: nat, i: nat)
    requires Run(trace) && k < |trace| && i < |trace[k].es|
    ensures var s := trace[k]; s.es[i].retired <==>
      || (exists j: nat :: j < |s.es| && s.es[j].calls > ExcessIn(s.log, j) && Requires(GraphOf(s), j, i))
      || (s.es[i].retiresOnSaturation && s.es[i].calls >= s.es[i].cardinality.max > 0)
    ensures var s := trace[k];
      s.es[i].retiresOnSaturation && s.es[i].cardinality.max > 0 ==> ExcessIn(s.log, i) == 0
  {
    RunCountsAndRetires(trace, k);
    var s := trace[k];
    assert CountsAreRight(s, i);
    forall j: nat | j < |s.es| ensures s.es[j].calls > ExcessIn(s.log, j) <==> WasCalledProperly(s, j) {
      assert CountsAreRight(s, j);
    }
    assert IsRight(s, i);
  }
}
