/** What holds when a call of the mutex of gtest-port.cc returns, and that calls go on. */
module MutexCalls {
  import opened StaticMutex

  // ---------- Calls ----------

  /** How often thread t has entered the critical section without leaving it. */
  function DepthOf(s: State, t: nat): nat {
    if s.section.Live? && s.section.holder == Id(t) then s.section.depth else 0
  }

  predicate InCall(pc: PC) { pc != Idle }

  /** The operation that a pc names, if it does. */
  function OpNamed(pc: PC): Op {
    match pc
    case Claim(op) => op
    case ClearOwner(op) => op
    case Allocate(op) => op
    case Initialize(op) => op
    case Publish(op) => op
    case Spin(op) => op
    case Ready(op) => op
    case _ => AssertHeld
  }

  // The pcs of one thread, state by state.
  type History = seq<PC>

  /** Where the call that is in progress at k has just begun. */
  function CallBegin(h: History, k: nat): (b: nat)
    requires k < |h|
    ensures b <= k
  {
    if k == 0 || !InCall(h[k - 1]) then k else CallBegin(h, k - 1)
  }

  /** The operation of that call: the one that it began with. */
  function OpAt(h: History, k: nat): Op
    requires k < |h|
  {
    OpNamed(h[CallBegin(h, k)])
  }

  /** The call that was in progress at k - 1 has returned at k. */
  predicate Returns(h: History, k: nat)
    requires k < |h|
  {
    k > 0 && InCall(h[k - 1]) && !InCall(h[k])
  }

  /** The calls of Lock that have returned, less those of Unlock. */
  function Balance(h: History, k: nat): int
    requires k < |h|
  {
    if k == 0 then 0 else Balance(h, k - 1) + if Returns(h, k) then Change(OpAt(h, k - 1)) else 0
  }

  function Change(op: Op): int {
    match op
    case Lock => 1
    case Unlock => -1
    case AssertHeld => 0
  }

  // ---------- One step ----------

  /** Where a call of this operation may be. */
  predicate IsStageOf(pc: PC, op: Op) {
    match pc
    case TakeOwnership => op == Lock
    case Leave => op == Unlock
    case Aborted => op == AssertHeld
    case Idle => false
    case Broken => false
    case _ => OpNamed(pc) == op
  }

  /** Entered already, but the call of Lock has not returned. */
  function Entered(pc: PC): nat { if pc == TakeOwnership then 1 else 0 }

  /** What the calls of thread t that have returned make of its depth. */
  function NetDepth(s: State, t: nat): int
    requires t < |s.pcs|
  {
    DepthOf(s, t) - Entered(s.pcs[t])
  }

  lemma OthersKeepDepth(s: State, u: nat, s': State, recursive: bool, t: nat)
    requires Inv(s) && StepBy(s, u, s', recursive) && t < |s.pcs| && t != u
    ensures |s'.pcs| == |s.pcs| && s'.pcs[t] == s.pcs[t] && DepthOf(s', t) == DepthOf(s, t)
  {
  }

  lemma CallBegins(s: State, s': State, recursive: bool, t: nat)
    requires StepBy(s, t, s', recursive) && s.pcs[t] == Idle
    ensures InCall(s'.pcs[t]) && IsStageOf(s'.pcs[t], OpNamed(s'.pcs[t])) && NetDepth(s', t) == NetDepth(s, t)
  {
  }

  /** What the step that returns from a call has done. */
  predicate HasDone(s: State, s': State, t: nat, op: Op)
    requires t < |s.pcs| && t < |s'.pcs|
  {
    && NetDepth(s', t) == NetDepth(s, t) + Change(op)
    && match op
       case Lock => s'.owner == HolderOf(s') == Id(t)
       case Unlock => s'.owner == 0
       case AssertHeld => s.owner == HolderOf(s') == Id(t)
  }

  /** A step inside a call keeps to its operation; the step that returns has done what the operation is for. */
  lemma CallGoesOn(s: State, s': State, recursive: bool, t: nat, op: Op)
    requires Inv(s) && Inv(s') && StepBy(s, t, s', recursive) && IsStageOf(s.pcs[t], op)
    ensures InCall(s'.pcs[t]) ==> IsStageOf(s'.pcs[t], op) && NetDepth(s', t) == NetDepth(s, t)
    ensures !InCall(s'.pcs[t]) ==> HasDone(s, s', t, op)
  {
  }

  /** Whoever makes the step. */
  lemma AnyStep(s: State, s': State, recursive: bool, t: nat, op: Op)
    requires Inv(s) && Inv(s') && Next(s, s', recursive) && t < |s.pcs| && t < |s'.pcs|
    requires InCall(s.pcs[t]) ==> IsStageOf(s.pcs[t], op)
    ensures InCall(s.pcs[t]) && InCall(s'.pcs[t]) ==> IsStageOf(s'.pcs[t], op)
    ensures !InCall(s.pcs[t]) && InCall(s'.pcs[t]) ==> IsStageOf(s'.pcs[t], OpNamed(s'.pcs[t]))
    ensures InCall(s.pcs[t]) && !InCall(s'.pcs[t]) ==> HasDone(s, s', t, op)
    ensures !InCall(s.pcs[t]) || InCall(s'.pcs[t]) ==> NetDepth(s', t) == NetDepth(s, t)
  {
    var u :| StepBy(s, u, s', recursive);
    if u != t {
      OthersKeepDepth(s, u, s', recursive, t);
    } else if s.pcs[t] == Idle {
      CallBegins(s, s', recursive, t);
    } else {
      CallGoesOn(s, s', recursive, t, op);
    }
  }

  // ---------- Whole runs ----------

  lemma {:induction false} SameThreads(trace: seq<State>, recursive: bool, k: nat)
    requires Run(trace, recursive) && k < |trace|
    ensures |trace[k].pcs| == |trace[0].pcs|
  {
    if k > 0 {
      SameThreads(trace, recursive, k - 1);
      assert StepAt(trace, k - 1, recursive);
    }
  }

  /** The history of thread t in this run. */
  ghost predicate IsHistory(h: History, trace: seq<State>, t: nat) {
    |h| == |trace| && forall i {:trigger h[i]} :: 0 <= i < |h| ==> t < |trace[i].pcs| && h[i] == trace[i].pcs[t]
  }

  lemma HistoryOf(trace: seq<State>, recursive: bool, t: nat) returns (h: History)
    requires Run(trace, recursive) && t < |trace[0].pcs|
    ensures IsHistory(h, trace, t)
  {
    forall i | 0 <= i < |trace| ensures t < |trace[i].pcs| {
      SameThreads(trace, recursive, i);
    }
    h := seq(|trace|, i requires 0 <= i < |trace| => trace[i].pcs[t]);
  }

  /** Thread t is on the course of its call, if it is in one, and as deep as its calls that have returned say. */
  ghost predicate OnCourse(s: State, t: nat, pc: PC, op: Op, balance: int) {
    t < |s.pcs| && s.pcs[t] == pc && NetDepth(s, t) == balance && (InCall(pc) ==> IsStageOf(pc, op))
  }

  lemma StepOnCourse(s: State, s': State, recursive: bool, t: nat, pc: PC, pc': PC, op: Op, balance: int)
    requires Inv(s) && Inv(s') && Next(s, s', recursive) && OnCourse(s, t, pc, op, balance)
    requires t < |s'.pcs| && pc' == s'.pcs[t]
    ensures OnCourse(s', t, pc', if InCall(pc) then op else OpNamed(pc'),
                     balance + if InCall(pc) && !InCall(pc') then Change(op) else 0)
    ensures InCall(pc) && !InCall(pc') ==> HasDone(s, s', t, op)
  {
    AnyStep(s, s', recursive, t, op);
  }

  lemma StepOfRun(trace: seq<State>, recursive: bool, k: nat)
    requires Run(trace, recursive) && 0 < k < |trace|
    ensures Inv(trace[k - 1]) && Inv(trace[k]) && Next(trace[k - 1], trace[k], recursive)
  {
    RunInv(trace, recursive, k - 1);
    RunInv(trace, recursive, k);
    assert StepAt(trace, k - 1, recursive);
  }

  lemma StepInRun(trace: seq<State>, recursive: bool, t: nat, k: nat, pc: PC, pc': PC, op: Op, balance: int)
    requires Run(trace, recursive) && 0 < k < |trace| && OnCourse(trace[k - 1], t, pc, op, balance)
    requires t < |trace[k].pcs| && pc' == trace[k].pcs[t]
    ensures OnCourse(trace[k], t, pc', if InCall(pc) then op else OpNamed(pc'),
                     balance + if InCall(pc) && !InCall(pc') then Change(op) else 0)
    ensures InCall(pc) && !InCall(pc') ==> HasDone(trace[k - 1], trace[k], t, op)
  {
    StepOfRun(trace, recursive, k);
    StepOnCourse(trace[k - 1], trace[k], recursive, t, pc, pc', op, balance);
  }

  /** The depth of every thread is the number of its calls of Lock that have returned less that of Unlock, and
      one more when it has entered and the call of Lock has yet to return. */
  lemma {:induction false} DepthIsBalance(trace: seq<State>, recursive: bool, t: nat, h: History, k: nat)
    requires Run(trace, recursive) && IsHistory(h, trace, t) && k < |h|
    ensures OnCourse(trace[k], t, h[k], OpAt(h, k), Balance(h, k))
  {
    if k == 0 {
      assert Start(trace[0]);
    } else {
      DepthIsBalance(trace, recursive, t, h, k - 1);
      StepInRun(trace, recursive, t, k, h[k - 1], h[k], OpAt(h, k - 1), Balance(h, k - 1));
      HistoryStep(h, k, OpAt(h, k - 1), Balance(h, k - 1));
    }
  }

  lemma HistoryStep(h: History, k: nat, op: Op, last: int)
    requires 0 < k < |h| && op == OpAt(h, k - 1) && last == Balance(h, k - 1)
    ensures OpAt(h, k) == if InCall(h[k - 1]) then op else OpNamed(h[k])
    ensures Balance(h, k) == last + if InCall(h[k - 1]) && !InCall(h[k]) then Change(op) else 0
  {
  }

  /** While a call is in progress nothing is counted. */
  lemma {:induction false} BalanceInCall(h: History, k: nat)
    requires k < |h| && InCall(h[k]) && !InCall(h[0])
    ensures var b := CallBegin(h, k);
      && b > 0 && !InCall(h[b - 1]) && Balance(h, k) == Balance(h, b - 1)
      && forall i :: b <= i <= k ==> InCall(h[i])
  {
    if InCall(h[k - 1]) {
      BalanceInCall(h, k - 1);
    }
  }

  /** What the return from the call of this operation means for a thread, from the state before the call on. */
  ghost predicate HasReturned(before: State, last: State, after: State, t: nat, op: Op) {
    match op
    case Lock => DepthOf(after, t) == DepthOf(before, t) + 1 && after.owner == HolderOf(after) == Id(t)
    case Unlock => DepthOf(after, t) == DepthOf(before, t) - 1 && after.owner == 0
    case AssertHeld => DepthOf(after, t) == DepthOf(before, t) > 0 && last.owner == HolderOf(after) == Id(t)
  }

  /** A thread whose pc goes back to idle has finished the call that it began. After Lock it is the recorded
      holder, one deeper than before the call; after Unlock it is one less deep; after AssertHeld it was the
      recorded owner and holds the mutex as before. */
  lemma CallReturns(trace: seq<State>, recursive: bool, t: nat, h: History, k: nat)
    requires Run(trace, recursive) && IsHistory(h, trace, t) && k < |h| && Returns(h, k)
    ensures var b := CallBegin(h, k - 1);
      && b > 0 && !InCall(h[b - 1]) && (forall i :: b <= i < k ==> InCall(h[i]))
      && HasReturned(trace[b - 1], trace[k - 1], trace[k], t, OpAt(h, k - 1))
  {
    var b, op, balance := CallBegin(h, k - 1), OpAt(h, k - 1), Balance(h, k - 1);
    assert h[0] == Idle by { assert Start(trace[0]); }
    BalanceInCall(h, k - 1);
    DepthIsBalance(trace, recursive, t, h, b - 1);
    DepthIsBalance(trace, recursive, t, h, k - 1);
    StepInRun(trace, recursive, t, k, h[k - 1], h[k], op, balance);
    HolderInRun(trace, recursive, t, k);
    ReturnMeans(trace[b - 1], trace[k - 1], trace[k], t, h[b - 1], h[k - 1], h[k], op, balance);
  }

  lemma ReturnMeans(before: State, last: State, after: State, t: nat, pc0: PC, pc: PC, pc': PC, op: Op, balance: int)
    requires OnCourse(last, t, pc, op, balance) && t < |before.pcs| && before.pcs[t] == pc0 && !InCall(pc0)
    requires NetDepth(before, t) == balance && t < |after.pcs| && after.pcs[t] == pc' && !InCall(pc')
    requires HasDone(last, after, t, op) && (HolderOf(after) == Id(t) ==> DepthOf(after, t) > 0)
    ensures HasReturned(before, last, after, t, op)
  {
  }

  lemma HolderInRun(trace: seq<State>, recursive: bool, t: nat, k: nat)
    requires Run(trace, recursive) && k < |trace|
    ensures HolderOf(trace[k]) == Id(t) ==> DepthOf(trace[k], t) > 0
  {
    RunInv(trace, recursive, k);
  }

  /** Of two threads at most one has had more calls of Lock return than calls of Unlock. */
  lemma OneHasLocked(trace: seq<State>, recursive: bool, t: nat, h: History, u: nat, g: History, k: nat)
    requires Run(trace, recursive) && IsHistory(h, trace, t) && IsHistory(g, trace, u) && k < |trace|
    ensures Balance(h, k) >= 0
    ensures Balance(h, k) > 0 && Balance(g, k) > 0 ==> t == u
  {
    DepthIsBalance(trace, recursive, t, h, k);
    DepthIsBalance(trace, recursive, u, g, k);
    RunInv(trace, recursive, k);
  }

  // ---------- Progress ----------

  /** Once the phase is 2, a thread at the lazy initialisation goes on to the operation that it came for. */
  lemma InitialisedGoesOn(s: State, t: nat, op: Op, recursive: bool)
    requires s.phase == 2 && t < |s.pcs| && (s.pcs[t] == Claim(op) || s.pcs[t] == Spin(op))
    ensures StepBy(s, t, Goto(s, t, Ready(op)), recursive)
    ensures forall s' :: StepBy(s, t, s', recursive) ==> s' == Goto(s, t, Ready(op))
  {
  }

  /** Thread t is inside a call and has a step that changes the state. */
  ghost predicate CanGoOn(s: State, t: nat, recursive: bool) {
    t < |s.pcs| && InCall(s.pcs[t]) && exists s' :: s' != s && StepBy(s, t, s', recursive)
  }

  lemma StepChanges(s: State, t: nat, recursive: bool)
    requires Inv(s) && t < |s.pcs| && InCall(s.pcs[t]) && !s.pcs[t].Aborted?
    requires s.kind == Static ==> s.phase == 2 || !s.pcs[t].Spin?
    requires s.pcs[t] == Ready(Lock) ==> HolderOf(s) == 0 || HolderOf(s) == Id(t)
    ensures CanGoOn(s, t, recursive)
  {
    var pc, depth := s.pcs[t], if s.section.Live? then s.section.depth else 0;
    var s' := s;
    match pc {
      case Claim(op) =>
        s' := if s.phase == 0 then Goto(s, t, ClearOwner(op)).(phase := 1)
              else Goto(s, t, if s.phase == 1 then Spin(op) else Ready(op));
      case ClearOwner(op) => s' := Goto(s, t, Allocate(op)).(owner := 0);
      case Allocate(op) => s' := Goto(s, t, Initialize(op)).(section := Raw);
      case Initialize(op) => s' := Goto(s, t, Publish(op)).(section := Live(0, 0), inits := s.inits + 1);
      case Publish(op) => s' := Goto(s, t, Ready(op)).(phase := 2);
      case Spin(op) => s' := Goto(s, t, Ready(op));
      case Ready(Lock) => s' := Goto(s, t, TakeOwnership).(section := Live(Id(t), depth + 1));
      case Ready(Unlock) => s' := Goto(s, t, Leave).(owner := 0);
      case Ready(AssertHeld) => s' := Goto(s, t, if s.owner == Id(t) then Idle else Aborted);
      case TakeOwnership => s' := Goto(s, t, Idle).(owner := Id(t));
      case Leave =>
        s' := Goto(s, t, Idle).(section := if depth <= 1 then Live(0, 0) else Live(Id(t), depth - 1));
      case _ =>
    }
    assert s'.pcs[t] != pc && StepBy(s, t, s', recursive);
  }

  /** No deadlock: in every state of every run, as long as some thread is inside a call, some thread inside a call
      can go on, unless the holder is not in a call, or was aborted. */
  lemma NoDeadlock(trace: seq<State>, recursive: bool, t: nat, k: nat)
    requires Run(trace, recursive) && k < |trace| && t < |trace[k].pcs|
    requires InCall(trace[k].pcs[t]) && !trace[k].pcs[t].Aborted?
    ensures (exists u :: CanGoOn(trace[k], u, recursive))
            || (0 < HolderOf(trace[k]) <= |trace[k].pcs| && trace[k].pcs[HolderOf(trace[k]) - 1] in {Idle, Aborted})
  {
    var s := trace[k];
    RunInv(trace, recursive, k);
    if s.kind == Static && s.phase == 1 {
      var i :| InitialisedBy(s, i);
      StepChanges(s, i, recursive);
    } else if s.pcs[t] != Ready(Lock) || HolderOf(s) == 0 || HolderOf(s) == Id(t) {
      StepChanges(s, t, recursive);
    } else if s.pcs[HolderOf(s) - 1] !in {Idle, Aborted} {
      StepChanges(s, HolderOf(s) - 1, recursive);
    }
  }
}
