/** The leader/follower pool: one step per critical section of its mutex, for any number of threads
    in any order, with blocking, termination, time-outs and wake-ups that nobody asked for. */
module LeaderFollower {

  type Tid = nat

  const NO_LEADER := -1
  const BLOCKED := -2

  datatype PoolState = Created | Running | TerminationRequested

  /** A thread that is not listed has not entered the pool yet. `Leading` is the time from becoming
      leader to promoting a new one, `Processing` the time after that. */
  datatype Phase = Sleeping | Woken | Leading | Processing | Gone

  /** `blocked` remembers a block request that has not been undone yet. */
  datatype Pool = Pool(current: int, saved: int, state: PoolState, blocked: bool, threads: map<Tid, Phase>)

  datatype Step =
    | Enter(t: Tid, woken: Tid)
    | Resume(t: Tid, woken: Tid)
    | Promote(t: Tid, woken: Tid)
    | Return(t: Tid, woken: Tid)
    | Block
    | Unblock(woken: Tid)
    | RequestTermination
    | WakeUp(t: Tid)

  function Init(): Pool {
    Pool(NO_LEADER, NO_LEADER, Created, false, map[])
  }

  predicate Is(s: Pool, t: Tid, p: Phase) {
    t in s.threads && s.threads[t] == p
  }

  /** A signal reaches a sleeper if there is one. */
  ghost predicate Reached(s: Pool, woken: Tid) {
    (exists t :: Is(s, t, Sleeping)) ==> Is(s, woken, Sleeping)
  }

  /** Which steps may happen; blocking is not nested. */
  ghost predicate Enabled(s: Pool, step: Step) {
    match step
    case Enter(t, woken) => t !in s.threads && Reached(s, woken)
    case Resume(t, woken) => Is(s, t, Woken) && Reached(s, woken)
    case Promote(t, woken) => Is(s, t, Leading) && Reached(s, woken)
    case Return(t, woken) => Is(s, t, Processing) && Reached(s, woken)
    case Block => !s.blocked
    case Unblock(woken) => s.blocked && Reached(s, woken)
    case RequestTermination => true
    case WakeUp(t) => Is(s, t, Sleeping)
  }

  function Move(s: Pool, t: Tid, p: Phase): Pool {
    s.(threads := s.threads[t := p])
  }

  function Signal(s: Pool, woken: Tid): Pool {
    if Is(s, woken, Sleeping) then Move(s, woken, Woken) else s
  }

  function Broadcast(s: Pool): Pool {
    s.(threads := map t | t in s.threads :: if s.threads[t] == Sleeping then Woken else s.threads[t])
  }

  /** `PromoteNewLeader` */
  function Promoted(s: Pool, woken: Tid): Pool {
    Signal(if s.current != BLOCKED then s.(current := NO_LEADER) else s.(saved := NO_LEADER), woken)
  }

  /** A thread that leaves the pool for good. */
  function Leave(s: Pool, t: Tid, woken: Tid): Pool {
    Promoted(Move(s, t, Gone), woken)
  }

  /** A thread that lines up for the leader slot: takes it if it is free and sleeps otherwise. */
  function LineUp(s: Pool, t: Tid): Pool {
    if s.current != NO_LEADER then Move(s, t, Sleeping) else Move(s, t, Leading).(current := t)
  }

  function Apply(s: Pool, step: Step): Pool {
    match step
    case Enter(t, woken) =>
      var s1 := if s.state == Created then s.(state := Running) else s;
      if s1.state == Running then LineUp(s1, t) else Leave(s1, t, woken)
    case Resume(t, woken) => if s.state == TerminationRequested then Leave(s, t, woken) else LineUp(s, t)
    case Promote(t, woken) => Promoted(Move(s, t, Processing), woken)
    case Return(t, woken) => if s.state == Running then LineUp(s, t) else Leave(s, t, woken)
    case Block => s.(saved := s.current, current := BLOCKED, blocked := true)
    case Unblock(woken) => Signal(s.(current := s.saved, blocked := false), woken)
    case RequestTermination => Broadcast(s.(state := TerminationRequested, current := BLOCKED))
    case WakeUp(t) => Move(s, t, Woken)
  }

  // ---------------------------------------------------------------------------------------
  // Safety
  // ---------------------------------------------------------------------------------------

  /** Where the identity of the leader is kept. */
  function Slot(s: Pool): int {
    if s.blocked then s.saved else s.current
  }

  /** At most one thread is in the leader phase. */
  ghost predicate OneLeader(s: Pool) {
    forall t, u :: Is(s, t, Leading) && Is(s, u, Leading) ==> t == u
  }

  /** Until termination is requested the slot names exactly the thread that is leading, and promotion
      is blocked exactly between a block request and its undoing. */
  ghost predicate SlotExact(s: Pool) {
    && Slot(s) >= NO_LEADER && (s.blocked <==> s.current == BLOCKED)
    && forall t :: Is(s, t, Leading) <==> Slot(s) == t
  }

  /** A free slot with sleeping followers has a follower that is already awake. */
  ghost predicate NoLostWakeup(s: Pool) {
    forall t :: Is(s, t, Sleeping) && s.current == NO_LEADER ==> exists u :: Is(s, u, Woken)
  }

  ghost predicate Safe(s: Pool) {
    && OneLeader(s) && NoLostWakeup(s)
    && (s.state != TerminationRequested ==> SlotExact(s))
    && (s.state == TerminationRequested ==> forall t :: !Is(s, t, Sleeping))
    && (s.state == Created ==> s.threads == map[])
    && (s.state != TerminationRequested ==> forall t :: !Is(s, t, Gone))
  }

  lemma LineUpSafe(s: Pool, t: Tid)
    requires Safe(s) && s.state == Running && !Is(s, t, Sleeping) && !Is(s, t, Leading)
    ensures Safe(LineUp(s, t))
  {
    var s' := LineUp(s, t);
    forall u
      ensures Is(s', u, Leading) <==> (Is(s, u, Leading) && u != t) || (u == t && s.current == NO_LEADER)
      ensures !Is(s', u, Gone)
      ensures Is(s', u, Sleeping) <==> Is(s, u, Sleeping) || (u == t && s.current != NO_LEADER)
    {
      assert !Is(s, u, Gone);
    }
  }

  lemma LeaveSafe(s: Pool, t: Tid, woken: Tid)
    requires Safe(s) && s.state == TerminationRequested && !Is(s, t, Leading)
    ensures Safe(Leave(s, t, woken))
  {
    var s' := Leave(s, t, woken);
    forall u
      ensures Is(s', u, Leading) ==> Is(s, u, Leading)
      ensures !Is(s', u, Sleeping)
    {
      assert !Is(s, u, Sleeping);
    }
  }

  lemma PromoteSafe(s: Pool, t: Tid, woken: Tid)
    requires Safe(s) && Enabled(s, Promote(t, woken))
    ensures Safe(Apply(s, Promote(t, woken)))
  {
    var s' := Apply(s, Promote(t, woken));
    forall u
      ensures Is(s', u, Leading) <==> Is(s, u, Leading) && u != t
      ensures Is(s', u, Gone) <==> Is(s, u, Gone)
      ensures Is(s', u, Sleeping) <==> Is(s, u, Sleeping) && u != woken
      ensures Is(s', u, Sleeping) ==> Is(s', woken, Woken)
    {
    }
  }

  /** After the leader's promotion nobody leads, the slot is free, and a sleeper has been woken. */
  lemma PromotionFrees(s: Pool, t: Tid, woken: Tid)
    requires Safe(s) && Enabled(s, Promote(t, woken))
    ensures var s' := Apply(s, Promote(t, woken));
      && (forall u :: !Is(s', u, Leading))
      && (s.state != TerminationRequested ==> Slot(s') == NO_LEADER)
      && ((exists u :: Is(s, u, Sleeping)) ==> Is(s', woken, Woken))
  {
    var s' := Apply(s, Promote(t, woken));
    forall u
      ensures !Is(s', u, Leading)
    {
      assert Is(s', u, Leading) ==> Is(s, u, Leading) && u != t;
    }
  }

  lemma UnblockSafe(s: Pool, woken: Tid)
    requires Safe(s) && Enabled(s, Unblock(woken))
    ensures Safe(Apply(s, Unblock(woken)))
  {
    var s' := Apply(s, Unblock(woken));
    forall u
      ensures Is(s', u, Leading) <==> Is(s, u, Leading)
      ensures Is(s', u, Gone) <==> Is(s, u, Gone)
      ensures Is(s', u, Sleeping) <==> Is(s, u, Sleeping) && u != woken
      ensures Is(s', u, Sleeping) ==> Is(s', woken, Woken)
    {
    }
  }

  lemma OtherSafe(s: Pool, step: Step)
    requires Safe(s) && Enabled(s, step) && (step.Block? || step.RequestTermination? || step.WakeUp?)
    ensures Safe(Apply(s, step))
  {
    var s' := Apply(s, step);
    forall u
      ensures Is(s', u, Leading) <==> Is(s, u, Leading)
      ensures Is(s', u, Gone) <==> Is(s, u, Gone)
      ensures Is(s', u, Sleeping) ==> Is(s, u, Sleeping) && !step.RequestTermination?
    {
    }
    if step.WakeUp? {
      assert Is(s', step.t, Woken);
    }
  }

  lemma StepKeepsSafe(s: Pool, step: Step)
    requires Safe(s) && Enabled(s, step)
    ensures Safe(Apply(s, step))
  {
    match step
    case Enter(t, woken) =>
      var s1 := if s.state == Created then s.(state := Running) else s;
      SameThreadsSafe(s, s1);
      if s1.state == Running {
        LineUpSafe(s1, t);
      } else {
        LeaveSafe(s1, t, woken);
      }
    case Resume(t, woken) =>
      if s.state == TerminationRequested {
        LeaveSafe(s, t, woken);
      } else {
        LineUpSafe(s, t);
      }
    case Promote(t, woken) => PromoteSafe(s, t, woken);
    case Return(t, woken) =>
      if s.state == Running {
        LineUpSafe(s, t);
      } else {
        LeaveSafe(s, t, woken);
      }
    case Block => OtherSafe(s, step);
    case Unblock(woken) => UnblockSafe(s, woken);
    case RequestTermination => OtherSafe(s, step);
    case WakeUp(t) => OtherSafe(s, step);
  }

  lemma SameThreadsSafe(s: Pool, s': Pool)
    requires Safe(s) && s' == (if s.state == Created then s.(state := Running) else s)
    ensures Safe(s')
  {
    forall u, p
      ensures Is(s', u, p) <==> Is(s, u, p)
    {
    }
  }

  // ---------------------------------------------------------------------------------------
  // Whole runs
  // ---------------------------------------------------------------------------------------

  ghost predicate CanRun(s: Pool, steps: seq<Step>)
    decreases |steps|
  {
    steps != [] ==> Enabled(s, steps[0]) && CanRun(Apply(s, steps[0]), steps[1..])
  }

  ghost function After(s: Pool, steps: seq<Step>): Pool
    decreases |steps|
  {
    if steps == [] then s else After(Apply(s, steps[0]), steps[1..])
  }

  lemma {:induction false} RunKeepsSafe(s: Pool, steps: seq<Step>)
    requires Safe(s) && CanRun(s, steps)
    ensures Safe(After(s, steps))
    decreases |steps|
  {
    hide Safe, Apply;
    if steps != [] {
      StepKeepsSafe(s, steps[0]);
      RunKeepsSafe(Apply(s, steps[0]), steps[1..]);
    }
  }

  /** No run ever has two leaders, forgets who leads, or leaves all followers asleep at a free slot. */
  lemma EveryRunSafe(steps: seq<Step>)
    requires CanRun(Init(), steps)
    ensures Safe(After(Init(), steps))
  {
    RunKeepsSafe(Init(), steps);
  }

  // ---------------------------------------------------------------------------------------
  // What each step does to the threads
  // ---------------------------------------------------------------------------------------

  /** The step of a thread that comes to the pool, wakes up in it or comes back after processing. */
  predicate Arrives(step: Step, t: Tid) {
    (step.Enter? || step.Resume? || step.Return?) && step.t == t
  }

  /** Promotion is not blocked and nobody leads. */
  ghost predicate Vacant(s: Pool) {
    !s.blocked && forall u :: !Is(s, u, Leading)
  }

  /** Whoever arrives before termination leads from then on exactly if promotion is not blocked and nobody
      leads, and sleeps otherwise; nobody else is affected, and the pool runs. */
  lemma ArrivalExact(s: Pool, step: Step, t: Tid)
    requires Safe(s) && Enabled(s, step) && Arrives(step, t) && s.state != TerminationRequested
    ensures var s' := Apply(s, step);
      var leads := Vacant(s);
      && s'.threads == s.threads[t := if leads then Leading else Sleeping]
      && s'.current == (if leads then t else s.current)
      && s'.saved == s.saved && s'.blocked == s.blocked && s'.state == Running
  {
    if Slot(s) >= 0 {
      assert Is(s, Slot(s), Leading);
    }
  }

  /** Whoever arrives after termination was requested leaves for good, and nobody else is affected. */
  lemma DepartureExact(s: Pool, step: Step, t: Tid)
    requires Safe(s) && Enabled(s, step) && Arrives(step, t) && s.state == TerminationRequested
    ensures var s' := Apply(s, step);
      && s'.threads == s.threads[t := Gone] && s'.state == TerminationRequested
      && (s'.current == BLOCKED <==> s.current == BLOCKED)
  {
    assert !Is(s, step.woken, Sleeping);
  }

  /** A promotion moves the leader on to processing and wakes the sleeper reached by the signal; so does
      the end of a block, but for the leader. */
  lemma SignalExact(s: Pool, step: Step)
    requires Safe(s) && Enabled(s, step) && (step.Promote? || step.Unblock?)
    ensures var s' := Apply(s, step);
      && s'.threads.Keys == s.threads.Keys && s'.state == s.state
      && s'.blocked == (s.blocked && step.Promote?)
      && forall u :: u in s.threads ==>
        s'.threads[u] ==
          if step.Promote? && u == step.t then Processing
          else if u == step.woken && s.threads[u] == Sleeping then Woken
          else s.threads[u]
  {
  }

  /** A block changes no thread and keeps the leader; a request to terminate wakes every sleeper, and
      nobody becomes leader any more; a wake-up concerns one thread. */
  lemma OthersExact(s: Pool, step: Step)
    requires Safe(s) && Enabled(s, step) && (step.Block? || step.RequestTermination? || step.WakeUp?)
    ensures var s' := Apply(s, step);
      && s'.threads.Keys == s.threads.Keys
      && (forall u :: u in s.threads ==>
        s'.threads[u] ==
          if s.threads[u] == Sleeping && (step.RequestTermination? || step == WakeUp(u)) then Woken
          else s.threads[u])
      && s'.state == (if step.RequestTermination? then TerminationRequested else s.state)
      && (step.WakeUp? ==> s'.current == s.current)
      && (!step.WakeUp? ==> s'.current == BLOCKED)
      && (s.state != TerminationRequested && !step.RequestTermination? ==> Slot(s') == Slot(s))
  {
  }

  /** Undoing a block restores a leader exactly if that thread is still leading. */
  lemma UnblockRestores(s: Pool, woken: Tid, t: Tid)
    requires Safe(s) && s.state != TerminationRequested && Enabled(s, Unblock(woken))
    ensures Apply(s, Unblock(woken)).current == t <==> Is(s, t, Leading)
    ensures Apply(s, Unblock(woken)).current == NO_LEADER <==> forall u :: !Is(s, u, Leading)
  {
    if Slot(s) >= 0 {
      assert Is(s, Slot(s), Leading);
    }
  }

  /** A promotion never finds another thread in the slot, as the pool's consistency check demands. */
  lemma PromoterIsLeader(s: Pool, t: Tid)
    requires Safe(s) && s.state != TerminationRequested && Is(s, t, Leading)
    ensures s.current == t || s.current == BLOCKED
  {
  }

  /** Until it is undone, a block works: whatever the threads do, nobody becomes leader. */
  lemma {:induction false} BlockedStays(s: Pool, steps: seq<Step>, t: Tid)
    requires CanRun(s, steps) && s.current == BLOCKED
    requires forall i :: 0 <= i < |steps| ==> !steps[i].Unblock?
    ensures After(s, steps).current == BLOCKED
    ensures Is(After(s, steps), t, Leading) ==> Is(s, t, Leading)
    decreases |steps|
  {
    if steps != [] {
      var s1 := Apply(s, steps[0]);
      assert Is(s1, t, Leading) ==> Is(s, t, Leading);
      forall i | 0 <= i < |steps[1..]|
        ensures !steps[1..][i].Unblock?
      {
        assert steps[1..][i] == steps[i + 1];
      }
      BlockedStays(s1, steps[1..], t);
    }
  }

  /** Does the step promote a new leader? So do the leader and every thread that leaves. */
  predicate Promotes(s: Pool, step: Step) {
    match step
    case Promote(_, _) => true
    case Enter(_, _) => s.state == TerminationRequested
    case Resume(_, _) => s.state == TerminationRequested
    case Return(_, _) => s.state != Running
    case _ => false
  }

  /** Does some step of the run promote? */
  ghost predicate SomePromotes(s: Pool, steps: seq<Step>)
    decreases |steps|
  {
    steps != [] && (Promotes(s, steps[0]) || SomePromotes(Apply(s, steps[0]), steps[1..]))
  }

  /** While promotion is blocked, the saved slot changes only by becoming free in a promotion. */
  lemma {:induction false} SavedSlot(s: Pool, steps: seq<Step>)
    requires CanRun(s, steps) && s.current == BLOCKED
    requires forall i :: 0 <= i < |steps| ==> !steps[i].Block? && !steps[i].Unblock?
    ensures After(s, steps).saved == if SomePromotes(s, steps) then NO_LEADER else s.saved
    decreases |steps|
  {
    if steps != [] {
      var s1 := Apply(s, steps[0]);
      assert s1.current == BLOCKED && s1.saved == if Promotes(s, steps[0]) then NO_LEADER else s.saved;
      forall i | 0 <= i < |steps[1..]|
        ensures !steps[1..][i].Block? && !steps[1..][i].Unblock?
      {
        assert steps[1..][i] == steps[i + 1];
      }
      SavedSlot(s1, steps[1..]);
    }
  }

  /** The state after two blocks and two unblocks. */
  function BlockedTwice(s: Pool, w: Tid, w': Tid): Pool {
    Apply(Apply(Apply(Apply(s, Block), Block), Unblock(w)), Unblock(w'))
  }

  /** Nested blocking breaks the protocol: two unblocks do not undo two blocks. From any state promotion
      stays blocked and nobody becomes leader; a third unblock frees the slot exactly if there has been a
      promotion in between, and otherwise leaves it blocked as well. */
  lemma NestedBlock(s: Pool, w: Tid, w': Tid, steps: seq<Step>, w'': Tid, t: Tid)
    requires CanRun(BlockedTwice(s, w, w'), steps)
    requires forall i :: 0 <= i < |steps| ==> !steps[i].Block? && !steps[i].Unblock?
    ensures var s1 := After(BlockedTwice(s, w, w'), steps);
      && s1.current == BLOCKED && (Is(s1, t, Leading) ==> Is(s, t, Leading))
      && Apply(s1, Unblock(w'')).current ==
        if SomePromotes(BlockedTwice(s, w, w'), steps) then NO_LEADER else BLOCKED
  {
    var s0 := BlockedTwice(s, w, w');
    BlockedStays(s0, steps, t);
    SavedSlot(s0, steps);
  }

  // ---------------------------------------------------------------------------------------
  // The pool's methods
  // ---------------------------------------------------------------------------------------

  /** The pool with its fields updated in place; the ghost fields follow the threads. `Lead` tells the
      caller to process events, `Sleep` that it waits on the condition, `Leave` to return. */
  datatype Verdict = Lead | Sleep | Leave

  class LeaderFollowerPool {
    var fCurrentLeader: int
    var fOldLeader: int
    var fPoolState: PoolState
    ghost var blocked: bool
    ghost var threads: map<Tid, Phase>

    ghost function State(): Pool
      reads this
    {
      Pool(fCurrentLeader, fOldLeader, fPoolState, blocked, threads)
    }

    constructor ()
      ensures State() == Init() && Safe(State())
    {
      fCurrentLeader, fOldLeader, fPoolState := NO_LEADER, NO_LEADER, Created;
      blocked, threads := false, map[];
    }

    /** `PromoteNewLeader`, by the leader, which goes on processing, or after termination by a thread that
        leaves. After the leader's promotion nobody leads, the slot is free, or will be once promotion is
        unblocked, and if followers sleep, one of them has been woken. */
    method PromoteNewLeader(t: Tid, leaves: bool, ghost woken: Tid)
      requires Safe(State()) && Reached(State(), woken)
      requires Is(State(), t, Leading) <==> !leaves
      requires leaves ==> fPoolState == TerminationRequested
      modifies this
      ensures Safe(State()) && State() == Promoted(Move(old(State()), t, if leaves then Gone else Processing), woken)
      ensures !leaves ==> forall u :: !Is(State(), u, Leading)
      ensures !leaves && fPoolState != TerminationRequested ==> Slot(State()) == NO_LEADER
      ensures !leaves && (exists u :: Is(old(State()), u, Sleeping)) ==> Is(State(), woken, Woken)
    {
      if leaves {
        LeaveSafe(State(), t, woken);
      } else {
        PromoteSafe(State(), t, woken);
        PromotionFrees(State(), t, woken);
      }
      threads := threads[t := if leaves then Gone else Processing];
      if fCurrentLeader != BLOCKED {
        fCurrentLeader := NO_LEADER;
      } else {
        fOldLeader := NO_LEADER;
      }
      threads := Signal(State(), woken).threads;
    }

    /** The test of the inner wait loop, and taking the slot behind it. */
    method TakeSlot(t: Tid) returns (v: Verdict)
      modifies this
      ensures State() == LineUp(old(State()), t)
      ensures v == if old(fCurrentLeader) == NO_LEADER then Lead else Sleep
    {
      if fCurrentLeader != NO_LEADER {
        threads := threads[t := Sleeping];
        return Sleep;
      }
      fCurrentLeader := t;
      threads := threads[t := Leading];
      return Lead;
    }

    /** `WaitForRequest` from its start to the first wait, the first event loop or the return. */
    method Enter(t: Tid, ghost woken: Tid) returns (v: Verdict)
      requires Safe(State()) && Enabled(State(), Step.Enter(t, woken))
      modifies this
      ensures State() == Apply(old(State()), Step.Enter(t, woken)) && Safe(State())
      ensures v == (if fPoolState == TerminationRequested then Verdict.Leave
                    else if Is(State(), t, Leading) then Lead else Sleep)
      ensures old(fPoolState) != TerminationRequested ==>
        threads == old(threads)[t := if Vacant(old(State())) then Leading else Sleeping]
      ensures old(fPoolState) == TerminationRequested ==> threads == old(threads)[t := Gone]
    {
      StepKeepsSafe(State(), Step.Enter(t, woken));
      if fPoolState == TerminationRequested {
        DepartureExact(State(), Step.Enter(t, woken), t);
      } else {
        ArrivalExact(State(), Step.Enter(t, woken), t);
      }
      if fPoolState == Created {
        fPoolState := Running;
      }
      if fPoolState == Running {
        v := TakeSlot(t);
      } else {
        PromoteNewLeader(t, true, woken);
        v := Leave;
      }
    }

    /** `WaitForRequest` after a wait on the condition. */
    method Resume(t: Tid, ghost woken: Tid) returns (v: Verdict)
      requires Safe(State()) && Enabled(State(), Step.Resume(t, woken))
      modifies this
      ensures State() == Apply(old(State()), Step.Resume(t, woken)) && Safe(State())
      ensures v == (if fPoolState == TerminationRequested then Verdict.Leave
                    else if Is(State(), t, Leading) then Lead else Sleep)
      ensures old(fPoolState) != TerminationRequested ==>
        threads == old(threads)[t := if Vacant(old(State())) then Leading else Sleeping]
      ensures old(fPoolState) == TerminationRequested ==> threads == old(threads)[t := Gone]
    {
      StepKeepsSafe(State(), Step.Resume(t, woken));
      if fPoolState == TerminationRequested {
        DepartureExact(State(), Step.Resume(t, woken), t);
      } else {
        ArrivalExact(State(), Step.Resume(t, woken), t);
      }
      if fPoolState == TerminationRequested {
        PromoteNewLeader(t, true, woken);
        v := Leave;
      } else {
        v := TakeSlot(t);
      }
    }

    /** `WaitForRequest` after an event has been processed. */
    method Return(t: Tid, ghost woken: Tid) returns (v: Verdict)
      requires Safe(State()) && Enabled(State(), Step.Return(t, woken))
      modifies this
      ensures State() == Apply(old(State()), Step.Return(t, woken)) && Safe(State())
      ensures v == (if fPoolState == TerminationRequested then Verdict.Leave
                    else if Is(State(), t, Leading) then Lead else Sleep)
      ensures old(fPoolState) != TerminationRequested ==>
        threads == old(threads)[t := if Vacant(old(State())) then Leading else Sleeping]
      ensures old(fPoolState) == TerminationRequested ==> threads == old(threads)[t := Gone]
    {
      StepKeepsSafe(State(), Step.Return(t, woken));
      if fPoolState == TerminationRequested {
        DepartureExact(State(), Step.Return(t, woken), t);
      } else {
        ArrivalExact(State(), Step.Return(t, woken), t);
      }
      if fPoolState == Running {
        v := TakeSlot(t);
      } else {
        PromoteNewLeader(t, true, woken);
        v := Leave;
      }
    }

    method BlockRequests()
      requires Safe(State()) && Enabled(State(), Block)
      modifies this
      ensures State() == Apply(old(State()), Block) && Safe(State())
    {
      StepKeepsSafe(State(), Block);
      fOldLeader := fCurrentLeader;
      fCurrentLeader := BLOCKED;
      blocked := true;
    }

    method UnblockRequests(ghost woken: Tid)
      requires Safe(State()) && Enabled(State(), Unblock(woken))
      modifies this
      ensures State() == Apply(old(State()), Unblock(woken)) && Safe(State())
    {
      StepKeepsSafe(State(), Unblock(woken));
      fCurrentLeader := fOldLeader;
      blocked := false;
      threads := Signal(State(), woken).threads;
    }

    method RequestTermination()
      requires Safe(State())
      modifies this
      ensures State() == Apply(old(State()), Step.RequestTermination) && Safe(State())
    {
      StepKeepsSafe(State(), Step.RequestTermination);
      fPoolState := TerminationRequested;
      fCurrentLeader := BLOCKED;
      threads := Broadcast(State()).threads;
    }
  }
}
