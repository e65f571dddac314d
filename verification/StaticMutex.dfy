/** The lazily initialised mutex of gtest-port.cc as a state machine over N threads.

    Each step is one shared-memory access or one call into the system. Thread t has id t + 1. */
module StaticMutex {

  datatype Kind = Static | Dynamic

  datatype Op = Lock | Unlock | AssertHeld

  // Where a thread is; the operation says what follows the lazy initialisation.
  datatype PC =
    | Idle
    | Claim(op: Op)          // compare-and-exchange the phase, 0 to 1
    | ClearOwner(op: Op)     // owner_thread_id_ = 0
    | Allocate(op: Op)       // new CRITICAL_SECTION
    | Initialize(op: Op)     // InitializeCriticalSection
    | Publish(op: Op)        // compare-and-exchange the phase, 1 to 2, and check
    | Spin(op: Op)           // wait for phase 2
    | Ready(op: Op)          // ThreadSafeLazyInit has returned
    | TakeOwnership          // entered; owner_thread_id_ = own id
    | Leave                  // owner cleared; LeaveCriticalSection
    | Aborted                // AssertHeld failed
    | Broken                 // an internal check failed, or a call had no initialised critical section

  // A critical section may be entered again by its holder; holder 0 is nobody.
  datatype CriticalSection = Absent | Raw | Live(holder: int, depth: nat)

  datatype State = State(kind: Kind, phase: int, owner: int, section: CriticalSection, inits: nat, pcs: seq<PC>)

  function Id(t: nat): int { t + 1 }

  ghost predicate Start(s: State) {
    && s.phase == 0 && s.owner == 0
    && (forall t :: 0 <= t < |s.pcs| ==> s.pcs[t] == Idle)
    && (s.kind == Static ==> s.section == Absent && s.inits == 0)
    && (s.kind == Dynamic ==> s.section == Live(0, 0) && s.inits == 1)
  }

  function HolderOf(s: State): int { if s.section.Live? then s.section.holder else 0 }

  /** What a caller may begin: Unlock is for the holder only; with `recursive` false a holder does not
      lock again. */
  predicate MayBegin(s: State, t: nat, op: Op, recursive: bool) {
    && (op == Unlock ==> HolderOf(s) == Id(t))
    && (op == Lock && !recursive ==> HolderOf(s) != Id(t))
  }

  function Goto(s: State, t: nat, pc: PC): State
    requires t < |s.pcs|
  {
    s.(pcs := s.pcs[t := pc])
  }

  /** One step of thread t. */
  ghost predicate StepBy(s: State, t: nat, s': State, recursive: bool) {
    t < |s.pcs| &&
    match s.pcs[t]
    case Idle =>
      exists op :: MayBegin(s, t, op, recursive)
                   && s' == Goto(s, t, if s.kind == Static then Claim(op) else Ready(op))
    case Claim(op) =>
      if s.phase == 0 then s' == Goto(s, t, ClearOwner(op)).(phase := 1)
      else if s.phase == 1 then s' == Goto(s, t, Spin(op))
      else if s.phase == 2 then s' == Goto(s, t, Ready(op))
      else s' == Goto(s, t, Broken)
    case ClearOwner(op) => s' == Goto(s, t, Allocate(op)).(owner := 0)
    case Allocate(op) => s' == Goto(s, t, Initialize(op)).(section := Raw)
    case Initialize(op) =>
      if s.section == Absent then s' == Goto(s, t, Broken)
      else s' == Goto(s, t, Publish(op)).(section := Live(0, 0), inits := s.inits + 1)
    case Publish(op) =>
      if s.phase == 1 then s' == Goto(s, t, Ready(op)).(phase := 2)
      else s' == Goto(s, t, Broken)
    case Spin(op) => if s.phase == 2 then s' == Goto(s, t, Ready(op)) else s' == s
    case Ready(Lock) =>
      if !s.section.Live? then s' == Goto(s, t, Broken)
      else if s.section.holder in {0, Id(t)} then
        s' == Goto(s, t, TakeOwnership).(section := Live(Id(t), s.section.depth + 1))
      else s' == s
    case TakeOwnership => s' == Goto(s, t, Idle).(owner := Id(t))
    case Ready(Unlock) => s' == Goto(s, t, Leave).(owner := 0)
    case Leave =>
      if !s.section.Live? || s.section.holder != Id(t) || s.section.depth == 0 then s' == Goto(s, t, Broken)
      else if s.section.depth == 1 then s' == Goto(s, t, Idle).(section := Live(0, 0))
      else s' == Goto(s, t, Idle).(section := Live(Id(t), s.section.depth - 1))
    case Ready(AssertHeld) => s' == Goto(s, t, if s.owner == Id(t) then Idle else Aborted)
    case Aborted => false
    case Broken => false
  }

  // ---------- The invariant ----------

  predicate Initialising(pc: PC) { pc.ClearOwner? || pc.Allocate? || pc.Initialize? || pc.Publish? }

  predicate PastInit(pc: PC) { pc.Ready? || pc.TakeOwnership? || pc.Leave? || pc.Aborted? }

  /** The states in which a thread relies on holding the critical section. */
  predicate NeedsHold(pc: PC) {
    pc.TakeOwnership? || pc.Leave?
    || ((pc.Claim? || Initialising(pc) || pc.Spin? || pc.Ready?) && pc.op == Unlock)
  }

  /** The state of the critical section while its one initialiser is at pc. */
  ghost predicate InitProgress(s: State, pc: PC) {
    && (pc.ClearOwner? || pc.Allocate? ==> s.section == Absent && s.inits == 0)
    && (pc.Initialize? ==> s.section == Raw && s.inits == 0)
    && (pc.Publish? ==> s.section == Live(0, 0) && s.inits == 1)
  }

  /** Nobody has claimed the mutex: nobody is initialising, waiting or through. */
  ghost predicate Unclaimed(s: State) {
    && s.section == Absent && s.inits == 0 && s.owner == 0
    && forall t :: 0 <= t < |s.pcs| ==> s.pcs[t].Idle? || s.pcs[t].Claim?
  }

  /** Thread i, and no other, is initialising, and nobody is through. */
  ghost predicate InitialisedBy(s: State, i: int) {
    && s.owner == 0 && 0 <= i < |s.pcs| && Initialising(s.pcs[i]) && InitProgress(s, s.pcs[i])
    && forall t :: 0 <= t < |s.pcs| && t != i ==> s.pcs[t].Idle? || s.pcs[t].Claim? || s.pcs[t].Spin?
  }

  /** Initialised once, and nobody is initialising any more. */
  ghost predicate Initialised(s: State) {
    && s.section.Live? && s.inits == 1
    && forall t :: 0 <= t < |s.pcs| ==> !Initialising(s.pcs[t]) && !s.pcs[t].Broken?
  }

  ghost predicate PhaseInv(s: State) {
    match s.kind
    case Static =>
      || (s.phase == 0 && Unclaimed(s))
      || (s.phase == 1 && exists i :: InitialisedBy(s, i))
      || (s.phase == 2 && Initialised(s))
    case Dynamic =>
      && s.phase == 0 && Initialised(s)
      && forall t :: 0 <= t < |s.pcs| ==> !s.pcs[t].Claim? && !s.pcs[t].Spin?
  }

  ghost predicate OwnerInv(s: State) {
    && (s.section.Live? ==> (s.section.holder == 0 <==> s.section.depth == 0) && 0 <= s.section.holder <= |s.pcs|)
    && (s.owner != 0 ==> s.owner == HolderOf(s))
    && (forall t :: 0 <= t < |s.pcs| && NeedsHold(s.pcs[t]) ==> HolderOf(s) == Id(t))
    && (forall t :: 0 <= t < |s.pcs| && s.pcs[t].Leave? ==> s.owner == 0)
  }

  /** With non-recursive use the holder is also the recorded owner, except while Lock or Unlock is
      about to write one of the two. */
  ghost predicate SingleInv(s: State) {
    && (s.section.Live? ==> s.section.depth <= 1)
    && forall t :: 0 <= t < |s.pcs| ==>
         && (HolderOf(s) == Id(t) && !s.pcs[t].TakeOwnership? && !s.pcs[t].Leave? ==> s.owner == Id(t))
         && (HolderOf(s) == Id(t) ==> s.pcs[t] !in {Claim(Lock), Spin(Lock), Ready(Lock)} && !Initialising(s.pcs[t]))
  }

  ghost predicate Inv(s: State) { PhaseInv(s) && OwnerInv(s) }

  lemma StartInv(s: State)
    requires Start(s)
    ensures Inv(s) && SingleInv(s)
  {
  }

  lemma StepFromUnclaimed(s: State, t: nat, s': State, recursive: bool)
    requires Inv(s) && s.kind == Static && s.phase == 0 && StepBy(s, t, s', recursive)
    ensures PhaseInv(s') && s.phase <= s'.phase <= s.phase + 1
  {
    if s.pcs[t].Claim? {
      assert InitialisedBy(s', t);
    }
  }

  lemma StepWhileInitialising(s: State, t: nat, s': State, recursive: bool)
    requires Inv(s) && s.kind == Static && s.phase == 1 && StepBy(s, t, s', recursive)
    ensures PhaseInv(s') && s.phase <= s'.phase <= s.phase + 1
  {
    var i :| InitialisedBy(s, i);
    assert s'.phase == 1 ==> InitialisedBy(s', i);
  }

  lemma StepKeepsPhase(s: State, t: nat, s': State, recursive: bool)
    requires Inv(s) && StepBy(s, t, s', recursive)
    ensures PhaseInv(s') && s.phase <= s'.phase <= s.phase + 1
  {
    if s.kind == Static && s.phase == 0 {
      StepFromUnclaimed(s, t, s', recursive);
    } else if s.kind == Static && s.phase == 1 {
      StepWhileInitialising(s, t, s', recursive);
    }
  }

  lemma StepKeepsOwner(s: State, t: nat, s': State, recursive: bool)
    requires Inv(s) && StepBy(s, t, s', recursive)
    ensures OwnerInv(s')
  {
  }

  lemma StepKeepsSingle(s: State, t: nat, s': State)
    requires Inv(s) && SingleInv(s) && StepBy(s, t, s', false)
    ensures SingleInv(s')
  {
  }

  // ---------- Whole runs ----------

  ghost predicate Next(s: State, s': State, recursive: bool) { exists t :: StepBy(s, t, s', recursive) }

  ghost predicate StepAt(trace: seq<State>, k: nat, recursive: bool)
    requires k + 1 < |trace|
  {
    Next(trace[k], trace[k + 1], recursive)
  }

  /** Any interleaving of the threads' steps. */
  ghost predicate Run(trace: seq<State>, recursive: bool) {
    && trace != [] && Start(trace[0])
    && forall k :: 0 <= k < |trace| - 1 ==> StepAt(trace, k, recursive)
  }

  lemma {:induction false} RunInv(trace: seq<State>, recursive: bool, k: nat)
    requires Run(trace, recursive) && k < |trace|
    ensures Inv(trace[k]) && (!recursive ==> SingleInv(trace[k]))
  {
    if k == 0 {
      StartInv(trace[0]);
    } else {
      RunInv(trace, recursive, k - 1);
      assert StepAt(trace, k - 1, recursive);
      var t :| StepBy(trace[k - 1], t, trace[k], recursive);
      StepKeepsPhase(trace[k - 1], t, trace[k], recursive);
      StepKeepsOwner(trace[k - 1], t, trace[k], recursive);
      if !recursive {
        StepKeepsSingle(trace[k - 1], t, trace[k]);
      }
    }
  }

  /** The phase only goes 0 to 1 to 2, one at a time. */
  lemma PhaseAdvances(trace: seq<State>, recursive: bool, k: nat)
    requires Run(trace, recursive) && k + 1 < |trace|
    ensures 0 <= trace[k].phase <= trace[k + 1].phase <= trace[k].phase + 1 <= 3 && trace[k + 1].phase <= 2
  {
    RunInv(trace, recursive, k);
    RunInv(trace, recursive, k + 1);
    assert StepAt(trace, k, recursive);
    var t :| StepBy(trace[k], t, trace[k + 1], recursive);
    StepKeepsPhase(trace[k], t, trace[k + 1], recursive);
  }

  /** The critical section is never initialised twice; no internal check fails; and no thread leaves
      ThreadSafeLazyInit before initialisation is complete. */
  lemma InitialisedExactlyOnce(trace: seq<State>, recursive: bool, k: nat, t: nat)
    requires Run(trace, recursive) && k < |trace| && t < |trace[k].pcs|
    ensures trace[k].inits <= 1 && !trace[k].pcs[t].Broken?
    ensures PastInit(trace[k].pcs[t]) ==>
      && trace[k].inits == 1 && trace[k].section.Live?
      && (trace[k].kind == Static ==> trace[k].phase == 2)
  {
    RunInv(trace, recursive, k);
  }

  /** Whoever is recorded as the owner holds the lock, so AssertHeld lets only the holder pass. */
  lemma AssertHeldIsSound(trace: seq<State>, recursive: bool, k: nat, t: nat)
    requires Run(trace, recursive) && k + 1 < |trace| && t < |trace[k].pcs|
    ensures trace[k].owner == Id(t) ==> HolderOf(trace[k]) == Id(t)
    ensures trace[k].pcs[t] == Ready(AssertHeld) && StepBy(trace[k], t, trace[k + 1], recursive) ==>
              trace[k + 1].pcs[t] == Aborted || HolderOf(trace[k]) == Id(t)
  {
    RunInv(trace, recursive, k);
  }

  /** The latest of thread t's calls of Lock and Unlock to have written the owner was one of Lock. */
  ghost predicate LastWasLock(trace: seq<State>, t: nat, k: nat)
    requires k < |trace|
  {
    && k > 0 && t < |trace[k - 1].pcs| && t < |trace[k].pcs| && trace[k].pcs[t] != Leave
    && ((trace[k - 1].pcs[t] == TakeOwnership && trace[k].pcs[t] == Idle) || LastWasLock(trace, t, k - 1))
  }

  lemma StepKeepsLast(s: State, u: nat, s': State, recursive: bool, t: nat, last: bool)
    requires Inv(s) && StepBy(s, u, s', recursive) && t < |s.pcs| && (s.owner == Id(t) <==> last)
    ensures |s'.pcs| == |s.pcs|
    ensures s'.owner == Id(t) <==> s'.pcs[t] != Leave && ((s.pcs[t] == TakeOwnership && s'.pcs[t] == Idle) || last)
  {
  }

  /** The recorded owner is the thread whose latest operation was a Lock, however locking is used. */
  lemma {:induction false} OwnerLockedLast(trace: seq<State>, recursive: bool, t: nat, k: nat)
    requires Run(trace, recursive) && k < |trace| && t < |trace[k].pcs|
    ensures trace[k].owner == Id(t) <==> LastWasLock(trace, t, k)
  {
    if k > 0 {
      RunInv(trace, recursive, k - 1);
      assert StepAt(trace, k - 1, recursive);
      var u :| StepBy(trace[k - 1], u, trace[k], recursive);
      assert |trace[k].pcs| == |trace[k - 1].pcs|;
      OwnerLockedLast(trace, recursive, t, k - 1);
      StepKeepsLast(trace[k - 1], u, trace[k], recursive, t, LastWasLock(trace, t, k - 1));
    }
  }

  /** AssertHeld passes exactly when its caller's latest operation was a Lock, however locking is used. */
  lemma AssertHeldIsExact(trace: seq<State>, recursive: bool, k: nat, t: nat)
    requires Run(trace, recursive) && k + 1 < |trace| && t < |trace[k].pcs|
    requires trace[k].pcs[t] == Ready(AssertHeld) && StepBy(trace[k], t, trace[k + 1], recursive)
    ensures trace[k + 1].pcs[t] == (if LastWasLock(trace, t, k) then Idle else Aborted)
  {
    OwnerLockedLast(trace, recursive, t, k);
  }

  /** So AssertHeld does what it promises, passing for the holder and aborting any other thread, if and
      only if its caller does not hold the lock after an Unlock. */
  lemma AssertHeldMeetsItsPromise(trace: seq<State>, recursive: bool, k: nat, t: nat)
    requires Run(trace, recursive) && k + 1 < |trace| && t < |trace[k].pcs|
    requires trace[k].pcs[t] == Ready(AssertHeld) && StepBy(trace[k], t, trace[k + 1], recursive)
    ensures (trace[k + 1].pcs[t] == Idle <==> HolderOf(trace[k]) == Id(t))
            <==> (HolderOf(trace[k]) == Id(t) ==> LastWasLock(trace, t, k))
    ensures !recursive ==> (trace[k + 1].pcs[t] == Idle <==> HolderOf(trace[k]) == Id(t))
  {
    AssertHeldIsExact(trace, recursive, k, t);
    OwnerLockedLast(trace, recursive, t, k);
    RunInv(trace, recursive, k);
  }

  /** At most one thread is between having entered and leaving. */
  lemma MutualExclusion(trace: seq<State>, recursive: bool, k: nat, t: nat, u: nat)
    requires Run(trace, recursive) && k < |trace| && t < |trace[k].pcs| && u < |trace[k].pcs|
    requires NeedsHold(trace[k].pcs[t]) && NeedsHold(trace[k].pcs[u])
    ensures t == u
  {
    RunInv(trace, recursive, k);
  }

  lemma OneMoreStep(trace: seq<State>, s': State)
    requires Run(trace, true) && StepBy(trace[|trace| - 1], 0, s', true)
    ensures Run(trace + [s'], true)
  {
    var longer := trace + [s'];
    forall k | 0 <= k < |longer| - 1 ensures StepAt(longer, k, true) {
      if k < |trace| - 1 {
        assert StepAt(trace, k, true);
      }
    }
  }

  /** A lone thread of a dynamic mutex that starts idle and locks. */
  lemma LockOnce(trace: seq<State>, owner: int, depth: nat) returns (longer: seq<State>)
    requires Run(trace, true)
    requires trace[|trace| - 1] == State(Dynamic, 0, owner, Live(if depth == 0 then 0 else 1, depth), 1, [Idle])
    ensures Run(longer, true) && longer[|longer| - 1] == State(Dynamic, 0, 1, Live(1, depth + 1), 1, [Idle])
  {
    var s := trace[|trace| - 1];
    var s1 := s.(pcs := [Ready(Lock)]);
    var s2 := s.(pcs := [TakeOwnership], section := Live(1, depth + 1));
    var s3 := s2.(pcs := [Idle], owner := 1);
    assert MayBegin(s, 0, Lock, true);
    OneMoreStep(trace, s1);
    OneMoreStep(trace + [s1], s2);
    OneMoreStep(trace + [s1] + [s2], s3);
    longer := trace + [s1] + [s2] + [s3];
  }

  /** Locking twice and unlocking once leaves a holder whom AssertHeld aborts. */
  lemma RecursiveUseMisleadsAssertHeld()
    ensures exists trace: seq<State> :: Run(trace, true)
              && var last := trace[|trace| - 1]; |last.pcs| == 1 && HolderOf(last) == Id(0) && last.pcs[0] == Aborted
  {
    var s0 := State(Dynamic, 0, 0, Live(0, 0), 1, [Idle]);
    var once := LockOnce([s0], 0, 0);
    var twice := LockOnce(once, 1, 1);
    var s := twice[|twice| - 1];
    var s1 := s.(pcs := [Ready(Unlock)]);
    var s2 := s.(pcs := [Leave], owner := 0);
    var s3 := s2.(pcs := [Idle], section := Live(1, 1));
    var s4 := s3.(pcs := [Ready(AssertHeld)]);
    var s5 := s3.(pcs := [Aborted]);
    assert MayBegin(s, 0, Unlock, true) && MayBegin(s3, 0, AssertHeld, true);
    OneMoreStep(twice, s1);
    OneMoreStep(twice + [s1], s2);
    OneMoreStep(twice + [s1] + [s2], s3);
    OneMoreStep(twice + [s1] + [s2] + [s3], s4);
    OneMoreStep(twice + [s1] + [s2] + [s3] + [s4], s5);
  }
}
