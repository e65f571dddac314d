/** Whole runs of mock expectations: set up by EXPECT_CALL, After and InSequence, then called.

    Expectations are numbered in the order of their EXPECT_CALL statements. */
module ExpectationRuns {
  import opened Prerequisites

  datatype Expectation = Expectation(cardinality: Cardinality, retiresOnSaturation: bool,
                                     prerequisites: set<nat>, calls: nat, retired: bool)
  {
    predicate IsSatisfied() { cardinality.IsSatisfiedBy(calls) }
    predicate IsSaturated() { cardinality.IsSaturatedBy(calls) }
  }

  // A handled call; an excess one came when the expectation was already saturated.
  datatype Call = Call(id: nat, excess: bool)

  datatype State = State(es: seq<Expectation>, sequences: map<nat, seq<nat>>, log: seq<Call>)

  ghost function GraphOf(s: State): Graph { map i | 0 <= i < |s.es| :: s.es[i].prerequisites }

  ghost function Retired(s: State): set<nat> { set i | 0 <= i < |s.es| && s.es[i].retired }

  ghost function Satisfied(s: State): set<nat> { set i | 0 <= i < |s.es| && s.es[i].IsSatisfied() }

  ghost function Uncalled(s: State): set<nat> { set i | 0 <= i < |s.es| && s.es[i].calls == 0 }

  // ---------- Steps ----------

  /** EXPECT_CALL starts a new expectation. */
  ghost predicate Create(s: State, s': State) {
    exists c: Cardinality, r :: c.min <= c.max && s' == s.(es := s.es + [Expectation(c, r, {}, 0, false)])
  }

  /** The statement in progress may still order its expectation, the newest one. */
  ghost predicate InProgress(s: State) {
    s.es != [] && s.es[|s.es| - 1].calls == 0 && !s.es[|s.es| - 1].retired
  }

  function WithPrerequisites(s: State, more: set<nat>): State
    requires s.es != []
  {
    var n := |s.es| - 1;
    s.(es := s.es[n := s.es[n].(prerequisites := s.es[n].prerequisites + more)])
  }

  ghost predicate AreOlder(s: State, older: set<nat>) { forall i :: i in older ==> i < |s.es| - 1 }

  /** .After(older). */
  ghost predicate After(s: State, s': State) {
    InProgress(s) && exists older :: AreOlder(s, older) && s' == WithPrerequisites(s, older)
  }

  /** .InSequence(q): the newest expectation goes behind the last one of q, unless it is that one. */
  function AddToSequence(s: State, q: nat): State
    requires s.es != []
  {
    var n := |s.es| - 1;
    var members := if q in s.sequences then s.sequences[q] else [];
    if members != [] && members[|members| - 1] == n then s
    else
      var t := if members == [] then s else WithPrerequisites(s, {members[|members| - 1]});
      t.(sequences := s.sequences[q := members + [n]])
  }

  ghost predicate InSequence(s: State, s': State) {
    InProgress(s) && exists q :: s' == AddToSequence(s, q)
  }

  /** An expectation handles calls while it is active and all its prerequisites are satisfied. */
  ghost predicate ShouldHandle(s: State, e: nat) {
    && e < |s.es| && !s.es[e].retired
    && forall i :: Requires(GraphOf(s), e, i) ==> i in Satisfied(s)
  }

  /** A handled call: an excess one is only counted; any other retires all prerequisites, and the
      expectation itself if that is what it does on saturation. */
  ghost function Called(s: State, e: nat): State
    requires e < |s.es|
  {
    var counted := s.es[e].(calls := s.es[e].calls + 1);
    if s.es[e].IsSaturated() then s.(es := s.es[e := counted], log := s.log + [Call(e, true)])
    else
      var g := GraphOf(s);
      var own := counted.(retired := counted.retired || Requires(g, e, e)
                                     || (counted.retiresOnSaturation && counted.IsSaturated()));
      State(seq(|s.es|, i requires 0 <= i < |s.es| =>
              if i == e then own else s.es[i].(retired := s.es[i].retired || Requires(g, e, i))),
            s.sequences, s.log + [Call(e, false)])
  }

  ghost predicate Handle(s: State, s': State) {
    exists e :: ShouldHandle(s, e) && s' == Called(s, e)
  }

  ghost predicate Next(s: State, s': State) {
    Create(s, s') || After(s, s') || InSequence(s, s') || Handle(s, s')
  }

  // ---------- The invariant ----------

  /** Prerequisites are older, so the graph has no cycle. */
  ghost predicate Older(s: State) {
    forall i, j :: 0 <= i < |s.es| && j in s.es[i].prerequisites ==> j < i
  }

  /** The prerequisites of a retired expectation, and of a called and satisfied one, are retired;
      a retired expectation is satisfied. */
  ghost predicate Settled(s: State) {
    && (forall i :: 0 <= i < |s.es| ==> s.es[i].cardinality.min <= s.es[i].cardinality.max)
    && (forall i, j :: 0 <= i < |s.es| && s.es[i].retired && j in s.es[i].prerequisites ==> j in Retired(s))
    && (forall i :: 0 <= i < |s.es| && s.es[i].retired ==> s.es[i].IsSatisfied())
    && (forall i, j :: 0 <= i < |s.es| && s.es[i].calls > 0 && s.es[i].IsSatisfied() && j in s.es[i].prerequisites
          ==> j in Retired(s))
  }

  /** Each member of a sequence has the one before it as a prerequisite. */
  ghost predicate Chained(s: State) {
    forall q :: q in s.sequences ==> IsChain(s, s.sequences[q])
  }

  ghost predicate IsChain(s: State, members: seq<nat>) {
    && (forall k :: 0 <= k < |members| ==> members[k] < |s.es|)
    && (forall k :: 0 <= k < |members| - 1 ==>
         members[k] < members[k + 1] && members[k] in s.es[members[k + 1]].prerequisites)
  }

  /** Logged expectations have been called; a proper call has retired their prerequisites. */
  ghost predicate Logged(s: State) {
    forall a :: 0 <= a < |s.log| ==>
      var c := s.log[a];
      && c.id < |s.es| && s.es[c.id].calls > 0
      && (!c.excess ==> s.es[c.id].prerequisites <= Retired(s))
  }

  /** After a proper call of an expectation none of its prerequisites is called again. */
  ghost predicate CallsInOrder(s: State) {
    forall a, b :: 0 <= a < b < |s.log| && !s.log[a].excess ==> !Requires(GraphOf(s), s.log[a].id, s.log[b].id)
  }

  ghost predicate Inv(s: State) {
    Older(s) && Settled(s) && Chained(s) && Logged(s) && CallsInOrder(s)
  }

  // ---------- Graph facts ----------

  lemma OlderPath(s: State, p: seq<nat>, k: nat)
    requires Older(s) && Path(GraphOf(s), p) && 0 < k < |p|
    ensures p[k] < p[0]
  {
    if k > 1 {
      OlderPath(s, p, k - 1);
    }
    assert p[k - 1 + 1] in GraphOf(s)[p[k - 1]];
  }

  lemma RequiresOlder(s: State, i: nat, j: nat)
    requires Older(s) && Requires(GraphOf(s), i, j)
    ensures j < i < |s.es|
  {
    var p :| IsPath(GraphOf(s), i, j, p);
    OlderPath(s, p, |p| - 1);
    assert p[0 + 1] in GraphOf(s)[p[0]];
  }

  lemma OlderIsAcyclic(s: State)
    requires Older(s)
    ensures Acyclic(GraphOf(s)) && Numbered(GraphOf(s), |s.es|)
  {
    forall i ensures !Requires(GraphOf(s), i, i) {
      if Requires(GraphOf(s), i, i) {
        RequiresOlder(s, i, i);
      }
    }
  }

  /** Ordering the newest expectation changes nothing for the others. */
  lemma RequiresUnchanged(s: State, s': State, i: nat, j: nat)
    requires Older(s') && i < |s.es| <= |s'.es|
    requires forall k :: 0 <= k <= i ==> s'.es[k].prerequisites == s.es[k].prerequisites
    requires Requires(GraphOf(s'), i, j)
    ensures Requires(GraphOf(s), i, j)
  {
    var p :| IsPath(GraphOf(s'), i, j, p);
    forall k | 0 <= k < |p| - 1 ensures p[k] in GraphOf(s) && p[k + 1] in GraphOf(s)[p[k]] {
      if k > 0 {
        OlderPath(s', p, k);
      }
      assert p[k + 1] in GraphOf(s')[p[k]];
    }
    assert IsPath(GraphOf(s), i, j, p);
  }

  /** Retired expectations are closed under prerequisites. */
  lemma RetiredClosed(s: State, i: nat, j: nat)
    requires Older(s) && Settled(s) && i < |s.es| && s.es[i].prerequisites <= Retired(s)
    requires Requires(GraphOf(s), i, j)
    ensures j in Retired(s)
  {
    RequiresStaysIn(GraphOf(s), Retired(s), i, j);
  }

  // ---------- Every step keeps the invariant ----------

  lemma CreateKeeps(s: State, s': State)
    requires Inv(s) && Create(s, s')
    ensures Inv(s')
  {
    assert forall i :: 0 <= i < |s.es| ==> s'.es[i] == s.es[i];
    assert Retired(s') == Retired(s);
    forall a, b | 0 <= a < b < |s'.log| && !s'.log[a].excess
      ensures !Requires(GraphOf(s'), s'.log[a].id, s'.log[b].id)
    {
      if Requires(GraphOf(s'), s'.log[a].id, s'.log[b].id) {
        RequiresUnchanged(s, s', s'.log[a].id, s'.log[b].id);
      }
    }
  }

  lemma PrerequisitesKeep(s: State, more: set<nat>)
    requires Inv(s) && InProgress(s) && AreOlder(s, more)
    ensures Inv(WithPrerequisites(s, more))
  {
    var s', n := WithPrerequisites(s, more), |s.es| - 1;
    assert forall i :: 0 <= i < n ==> s'.es[i] == s.es[i];
    assert Retired(s') == Retired(s);
    forall q | q in s'.sequences ensures IsChain(s', s'.sequences[q]) {
      assert IsChain(s, s.sequences[q]);
    }
    forall a, b | 0 <= a < b < |s'.log| && !s'.log[a].excess
      ensures !Requires(GraphOf(s'), s'.log[a].id, s'.log[b].id)
    {
      if Requires(GraphOf(s'), s'.log[a].id, s'.log[b].id) {
        RequiresUnchanged(s, s', s'.log[a].id, s'.log[b].id);
      }
    }
  }

  lemma ChainGrows(s: State, members: seq<nat>, n: nat)
    requires IsChain(s, members) && n < |s.es|
    requires members != [] ==> members[|members| - 1] < n && members[|members| - 1] in s.es[n].prerequisites
    ensures IsChain(s, members + [n])
  {
  }

  /** Only the chains depend on the sequences. */
  lemma ChainReplaced(s: State, q: nat, members: seq<nat>)
    requires Inv(s) && IsChain(s, members)
    ensures Inv(s.(sequences := s.sequences[q := members]))
  {
    var s' := s.(sequences := s.sequences[q := members]);
    assert GraphOf(s') == GraphOf(s) && Retired(s') == Retired(s);
    forall r | r in s'.sequences ensures IsChain(s', s'.sequences[r]) {
      assert r != q ==> IsChain(s, s.sequences[r]);
    }
  }

  lemma InSequenceKeeps(s: State, q: nat)
    requires Inv(s) && InProgress(s)
    ensures Inv(AddToSequence(s, q))
  {
    var n := |s.es| - 1;
    var members := if q in s.sequences then s.sequences[q] else [];
    assert IsChain(s, members);
    if members == [] {
      ChainGrows(s, [], n);
      assert [] + [n] == [n];
      ChainReplaced(s, q, [n]);
    } else if members[|members| - 1] != n {
      var last := members[|members| - 1];
      var t := WithPrerequisites(s, {last});
      assert Inv(t) by { PrerequisitesKeep(s, {last}); }
      assert IsChain(t, members) by { assert q in t.sequences && t.sequences[q] == members; }
      assert IsChain(t, members + [n]) by { ChainGrows(t, members, n); }
      assert AddToSequence(s, q) == t.(sequences := t.sequences[q := members + [n]]);
      ChainReplaced(t, q, members + [n]);
    }
  }

  // ---------- Calls ----------

  lemma CalledFields(s: State, e: nat, i: nat)
    requires e < |s.es| && i < |s.es|
    ensures var t := Called(s, e).es[i];
      && |Called(s, e).es| == |s.es|
      && t.cardinality == s.es[i].cardinality && t.prerequisites == s.es[i].prerequisites
      && t.calls == s.es[i].calls + (if i == e then 1 else 0)
      && (t.retired <==>
            || s.es[i].retired
            || (!s.es[e].IsSaturated() && Requires(GraphOf(s), e, i))
            || (!s.es[e].IsSaturated() && i == e && s.es[e].retiresOnSaturation && t.IsSaturated()))
  {
  }

  lemma CalledGraph(s: State, e: nat)
    requires e < |s.es|
    ensures GraphOf(Called(s, e)) == GraphOf(s) && Retired(s) <= Retired(Called(s, e))
  {
    forall i | 0 <= i < |s.es| ensures Called(s, e).es[i].prerequisites == s.es[i].prerequisites {
      CalledFields(s, e, i);
    }
    forall i | i in Retired(s) ensures i in Retired(Called(s, e)) {
      CalledFields(s, e, i);
    }
  }

  /** A proper call leaves all prerequisites retired. */
  lemma CalledRetires(s: State, e: nat)
    requires e < |s.es| && Older(s) && !s.es[e].IsSaturated()
    ensures s.es[e].prerequisites <= Retired(Called(s, e))
  {
    forall j | j in s.es[e].prerequisites ensures j in Retired(Called(s, e)) {
      RequiresImmediate(GraphOf(s), e, j);
      CalledFields(s, e, j);
    }
  }

  lemma CallKeepsSettled(s: State, e: nat)
    requires Inv(s) && ShouldHandle(s, e)
    ensures Settled(Called(s, e))
  {
    var s' := Called(s, e);
    CalledGraph(s, e);
    OlderIsAcyclic(s);
    forall i | 0 <= i < |s'.es|
      ensures s'.es[i].cardinality.min <= s'.es[i].cardinality.max
      ensures s'.es[i].retired ==> s'.es[i].IsSatisfied() && s'.es[i].prerequisites <= Retired(s')
      ensures s'.es[i].calls > 0 && s'.es[i].IsSatisfied() ==> s'.es[i].prerequisites <= Retired(s')
    {
      CalledFields(s, e, i);
      if i == e {
        if !s.es[e].IsSaturated() {
          CalledRetires(s, e);
        }
      } else if s'.es[i].retired && !s.es[i].retired {
        forall j | j in s.es[i].prerequisites ensures j in Retired(s') {
          RequiresVia(GraphOf(s), e, i, j);
          CalledFields(s, e, j);
        }
      }
    }
  }

  lemma CallKeepsLogged(s: State, e: nat)
    requires Inv(s) && ShouldHandle(s, e)
    ensures Logged(Called(s, e))
  {
    var s' := Called(s, e);
    CalledGraph(s, e);
    forall a | 0 <= a < |s'.log|
      ensures s'.log[a].id < |s'.es| && s'.es[s'.log[a].id].calls > 0
      ensures !s'.log[a].excess ==> s'.es[s'.log[a].id].prerequisites <= Retired(s')
    {
      if a < |s.log| {
        assert s'.log[a] == s.log[a];
        CalledFields(s, e, s.log[a].id);
      } else {
        CalledFields(s, e, e);
        if !s'.log[a].excess {
          CalledRetires(s, e);
        }
      }
    }
  }

  lemma CallKeepsOrder(s: State, e: nat)
    requires Inv(s) && ShouldHandle(s, e)
    ensures CallsInOrder(Called(s, e))
  {
    var s' := Called(s, e);
    CalledGraph(s, e);
    forall a, b | 0 <= a < b < |s'.log| && !s'.log[a].excess
      ensures !Requires(GraphOf(s'), s'.log[a].id, s'.log[b].id)
    {
      assert s'.log[a] == s.log[a];
      if b < |s.log| {
        assert s'.log[b] == s.log[b];
      } else if Requires(GraphOf(s), s.log[a].id, e) {
        RetiredClosed(s, s.log[a].id, e);
      }
    }
  }

  lemma CallKeeps(s: State, e: nat)
    requires Inv(s) && ShouldHandle(s, e)
    ensures Inv(Called(s, e))
  {
    var s' := Called(s, e);
    CallKeepsSettled(s, e);
    CallKeepsLogged(s, e);
    CallKeepsOrder(s, e);
    forall i | 0 <= i < |s.es| ensures s'.es[i].prerequisites == s.es[i].prerequisites {
      CalledFields(s, e, i);
    }
    forall q | q in s'.sequences ensures IsChain(s', s'.sequences[q]) {
      assert IsChain(s, s.sequences[q]);
    }
  }

  lemma NextKeeps(s: State, s': State)
    requires Inv(s) && Next(s, s')
    ensures Inv(s')
  {
    if Create(s, s') {
      CreateKeeps(s, s');
    } else if After(s, s') {
      var older :| AreOlder(s, older) && s' == WithPrerequisites(s, older);
      PrerequisitesKeep(s, older);
    } else if InSequence(s, s') {
      var q :| s' == AddToSequence(s, q);
      InSequenceKeeps(s, q);
    } else {
      var e :| ShouldHandle(s, e) && s' == Called(s, e);
      CallKeeps(s, e);
    }
  }

  // ---------- Whole runs ----------

  ghost predicate Run(trace: seq<State>) {
    && trace != [] && trace[0] == State([], map[], [])
    && forall k :: 0 <= k < |trace| - 1 ==> Next(trace[k], trace[k + 1])
  }

  lemma {:induction false} RunKeeps(trace: seq<State>, k: nat)
    requires Run(trace) && k < |trace|
    ensures Inv(trace[k])
  {
    if k > 0 {
      RunKeeps(trace, k - 1);
      assert Next(trace[k - 1], trace[k - 1 + 1]);
      NextKeeps(trace[k - 1], trace[k]);
    }
  }

  /** However expectations are ordered, the graph stays acyclic, and each member of a sequence
      transitively requires all earlier members. */
  lemma SequencesAreOrdered(trace: seq<State>, k: nat, q: nat, a: nat, b: nat)
    requires Run(trace) && k < |trace| && q in trace[k].sequences && a < b < |trace[k].sequences[q]|
    ensures Acyclic(GraphOf(trace[k]))
    ensures Requires(GraphOf(trace[k]), trace[k].sequences[q][b], trace[k].sequences[q][a])
  {
    RunKeeps(trace, k);
    OlderIsAcyclic(trace[k]);
    ChainRequires(trace[k], trace[k].sequences[q], a, b);
  }

  lemma {:induction false} ChainRequires(s: State, members: seq<nat>, a: nat, b: nat)
    requires IsChain(s, members) && a < b < |members|
    ensures Requires(GraphOf(s), members[b], members[a])
  {
    assert members[b - 1] in s.es[members[b - 1 + 1]].prerequisites;
    RequiresImmediate(GraphOf(s), members[b], members[b - 1]);
    if a < b - 1 {
      ChainRequires(s, members, a, b - 1);
      RequiresTrans(GraphOf(s), members[b], members[b - 1], members[a]);
    }
  }

  /** What is retired, and what is satisfied and has been called, has only satisfied prerequisites, and
      the retired ones have only retired prerequisites. */
  lemma CalledAreSettled(trace: seq<State>, k: nat)
    requires Run(trace) && k < |trace|
    ensures Downwards(GraphOf(trace[k]), Retired(trace[k]))
    ensures Retired(trace[k]) <= Satisfied(trace[k])
    ensures CalledSettled(GraphOf(trace[k]), Satisfied(trace[k]), Uncalled(trace[k]))
  {
    RunKeeps(trace, k);
    var s := trace[k];
    forall i, j | i in Satisfied(s) && i !in Uncalled(s) && Requires(GraphOf(s), i, j) ensures j in Satisfied(s) {
      RetiredClosed(s, i, j);
    }
  }

  /** Once a member of a sequence has been properly called, no earlier member is called again; and a
      call is handled only when all its prerequisites are satisfied. */
  lemma CallsFollowSequences(trace: seq<State>, k: nat, q: nat, a: nat, b: nat, m: nat, n: nat)
    requires Run(trace) && k < |trace| && q in trace[k].sequences && a < b < |trace[k].sequences[q]|
    requires m < n < |trace[k].log| && !trace[k].log[m].excess && trace[k].log[m].id == trace[k].sequences[q][b]
    ensures trace[k].log[n].id != trace[k].sequences[q][a]
  {
    RunKeeps(trace, k);
    SequencesAreOrdered(trace, k, q, a, b);
  }

  lemma CallsFindSatisfied(trace: seq<State>, k: nat, i: nat)
    requires Run(trace) && k + 1 < |trace| && |trace[k + 1].log| > |trace[k].log|
    ensures var e := trace[k + 1].log[|trace[k].log|].id;
      Requires(GraphOf(trace[k]), e, i) ==> i in Satisfied(trace[k])
  {
    assert Next(trace[k], trace[k + 1]);
    var s, s' := trace[k], trace[k + 1];
    if Handle(s, s') {
      var e :| ShouldHandle(s, e) && s' == Called(s, e);
    }
  }
}
