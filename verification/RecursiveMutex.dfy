/** The recursive mutex built on a plain native one: every access to shared data is a step of its own,
    so that the unprotected reading of the owner is part of the model. */
module RecursiveMutex {

  type Tid = nat

  const NOBODY := -1

  /** Where a thread is inside the mutex's operations:
      `Tried`: the native try-lock failed, the owner will be read next; `blocking` in `Lock`;
      `Blocking`: waits for the native mutex;
      `Got`, `Named`: holds the native mutex, has written itself as owner;
      `Dropping`, `Dropped`: the last unlock, before and after the owner is erased;
      `Releasing`, `Waiting`, `Regained`: a condition wait, before the native mutex is released,
      without it, and after it has been taken again. */
  datatype Pc =
    | Idle | Tried(blocking: bool) | Blocking | Got | Named | Dropping | Dropped | Releasing | Waiting | Regained

  /** `count` is the number stored for the thread; `locks` and `unlocks` are how many locking calls
      have succeeded and how many unlocking calls have been made by it as owner. */
  datatype Thread = Thread(pc: Pc, count: int, locks: nat, unlocks: nat)

  datatype State = State(native: int, locker: int, threads: map<Tid, Thread>)

  datatype Step =
    | TryNative(t: Tid, blocking: bool)
    | ReadLocker(t: Tid)
    | Acquire(t: Tid)
    | SetLocker(t: Tid)
    | StoreCount(t: Tid)
    | Unlock(t: Tid)
    | ClearLocker(t: Tid)
    | ReleaseNative(t: Tid)
    | ReleaseForWait(t: Tid)
    | Sleep(t: Tid)
    | Regain(t: Tid)
    | AcquireAfterWait(t: Tid)

  /** The start of a run in which the threads `ts` take part. */
  function Init(ts: set<Tid>): State {
    State(NOBODY, NOBODY, map t | t in ts :: Thread(Idle, 0, 0, 0))
  }

  function Th(s: State, t: Tid): Thread
    requires t in s.threads
  {
    s.threads[t]
  }

  /** Only a thread that holds the lock may wait on a condition. */
  predicate Enabled(s: State, step: Step) {
    step.t in s.threads &&
    var th := Th(s, step.t);
    match step
    case TryNative(_, _) => th.pc.Idle?
    case ReadLocker(_) => th.pc.Tried?
    case Acquire(_) => th.pc.Blocking? && s.native == NOBODY
    case SetLocker(_) => th.pc.Got?
    case StoreCount(_) => th.pc.Named?
    case Unlock(_) => th.pc.Idle?
    case ClearLocker(_) => th.pc.Dropping?
    case ReleaseNative(_) => th.pc.Dropped?
    case ReleaseForWait(_) => th.pc.Idle? && th.locks > th.unlocks
    case Sleep(_) => th.pc.Releasing?
    case Regain(_) => th.pc.Waiting? && s.native == NOBODY
    case AcquireAfterWait(_) => th.pc.Regained?
  }

  function Put(s: State, t: Tid, th: Thread): State {
    s.(threads := s.threads[t := th])
  }

  function Apply(s: State, step: Step): State
    requires step.t in s.threads
  {
    var t := step.t;
    var th := Th(s, t);
    match step
    case TryNative(_, blocking) =>
      if s.native == NOBODY then Put(s.(native := t), t, th.(pc := Got))
      else Put(s, t, th.(pc := Tried(blocking)))
    case ReadLocker(_) =>
      if s.locker == t then Put(s, t, th.(pc := Idle, count := th.count + 1, locks := th.locks + 1))
      else Put(s, t, th.(pc := if th.pc.Tried? && th.pc.blocking then Blocking else Idle))
    case Acquire(_) => Put(s.(native := t), t, th.(pc := Got))
    case SetLocker(_) => Put(s.(locker := t), t, th.(pc := Named))
    case StoreCount(_) => Put(s, t, th.(pc := Idle, count := 1, locks := th.locks + 1))
    case Unlock(_) =>
      if s.locker != t then s
      else
        var pc := if th.count - 1 <= 0 then Dropping else Idle;
        Put(s, t, th.(pc := pc, count := th.count - 1, unlocks := th.unlocks + 1))
    case ClearLocker(_) => Put(s.(locker := NOBODY), t, th.(pc := Dropped, count := 0))
    case ReleaseNative(_) => Put(s.(native := NOBODY), t, th.(pc := Idle))
    case ReleaseForWait(_) => Put(s.(locker := NOBODY), t, th.(pc := Releasing))
    case Sleep(_) => Put(s.(native := NOBODY), t, th.(pc := Waiting))
    case Regain(_) => Put(s.(native := t), t, th.(pc := Regained))
    case AcquireAfterWait(_) => Put(s.(locker := t), t, th.(pc := Idle))
  }

  // ---------------------------------------------------------------------------------------
  // Safety
  // ---------------------------------------------------------------------------------------

  function Depth(th: Thread): int {
    th.locks - th.unlocks
  }

  /** The thread holds the lock and is not waiting on a condition. */
  predicate Holds(th: Thread) {
    Depth(th) > 0 && (th.pc.Idle? || th.pc.Tried?)
  }

  predicate OwnsNative(th: Thread) {
    Holds(th) || th.pc.Got? || th.pc.Named? || th.pc.Dropping? || th.pc.Dropped? || th.pc.Releasing? || th.pc.Regained?
  }

  predicate IsNamed(th: Thread) {
    Holds(th) || th.pc.Named? || th.pc.Dropping?
  }

  predicate InWait(th: Thread) {
    th.pc.Releasing? || th.pc.Waiting? || th.pc.Regained?
  }

  /** The stored count is the number of locks not yet undone; the native mutex belongs to the thread
      exactly in the phases listed, and the owner field names it exactly in those. */
  predicate ThreadOk(native: int, locker: int, t: Tid, th: Thread) {
    && th.count == Depth(th) && Depth(th) >= 0
    && (native == t <==> OwnsNative(th))
    && (locker == t <==> IsNamed(th))
    && (th.pc.Blocking? || th.pc.Got? || th.pc.Named? || th.pc.Dropping? || th.pc.Dropped? ==> Depth(th) == 0)
    && (InWait(th) ==> Depth(th) > 0)
  }

  predicate Consistent(s: State, t: Tid) {
    t in s.threads ==> ThreadOk(s.native, s.locker, t, Th(s, t))
  }

  ghost predicate Safe(s: State) {
    && (s.native == NOBODY || s.native in s.threads.Keys) && (s.locker == NOBODY || s.locker == s.native)
    && forall t: Tid :: Consistent(s, t)
  }

  /** Only the thread that takes a step changes, and the two owners only to it or from it. */
  lemma StepIsLocal(s: State, step: Step, u: Tid)
    requires Safe(s) && Enabled(s, step) && u != step.t && u in s.threads
    ensures var s' := Apply(s, step);
      && u in s'.threads && Th(s', u) == Th(s, u)
      && (s'.native == u <==> s.native == u) && (s'.locker == u <==> s.locker == u)
  {
    assert Consistent(s, step.t);
  }

  lemma StepKeepsOwner(s: State, step: Step)
    requires Safe(s) && Enabled(s, step)
    ensures var s' := Apply(s, step);
      Consistent(s', step.t) && s'.threads.Keys == s.threads.Keys
      && (s'.native == NOBODY || s'.native in s'.threads.Keys) && (s'.locker == NOBODY || s'.locker == s'.native)
  {
    assert Consistent(s, step.t);
  }

  lemma StepKeepsSafe(s: State, step: Step)
    requires Safe(s) && Enabled(s, step)
    ensures Safe(Apply(s, step))
  {
    hide Apply, OwnsNative, IsNamed, InWait, Holds;
    var s' := Apply(s, step);
    StepKeepsOwner(s, step);
    forall u: Tid | u != step.t && u in s.threads
      ensures Consistent(s', u)
    {
      assert Consistent(s, u);
      StepIsLocal(s, step, u);
    }
  }

  ghost predicate CanRun(s: State, steps: seq<Step>)
    decreases |steps|
  {
    steps != [] ==> Enabled(s, steps[0]) && CanRun(Apply(s, steps[0]), steps[1..])
  }

  ghost function After(s: State, steps: seq<Step>): State
    decreases |steps|
  {
    if steps == [] || steps[0].t !in s.threads then s else After(Apply(s, steps[0]), steps[1..])
  }

  lemma {:induction false} RunKeepsSafe(s: State, steps: seq<Step>)
    requires Safe(s) && CanRun(s, steps)
    ensures Safe(After(s, steps))
    decreases |steps|
  {
    hide Safe, Apply;
    if steps != [] {
      StepKeepsSafe(s, steps[0]);
      RunKeepsSafe(Apply(s, steps[0]), steps[1..]);
    }
  }

  /** In every run the owner field is -1 or the native owner, and counts are locks minus unlocks. */
  lemma EveryRunSafe(ts: set<Tid>, steps: seq<Step>)
    requires CanRun(Init(ts), steps)
    ensures Safe(After(Init(ts), steps))
  {
    hide ThreadOk;
    forall t: Tid
      ensures Consistent(Init(ts), t)
    {
      if t in ts {
        FreshOk(NOBODY, t, Th(Init(ts), t));
      }
    }
    RunKeepsSafe(Init(ts), steps);
  }

  lemma FreshOk(nobody: int, t: Tid, th: Thread)
    requires th.pc.Idle? && th.count == 0 && Depth(th) == 0 && nobody < 0
    ensures ThreadOk(nobody, nobody, t, th)
  {
  }

  /** At most one thread holds the lock. */
  lemma OneHolder(s: State, t: Tid, u: Tid)
    requires Safe(s) && t in s.threads && u in s.threads && Holds(Th(s, t)) && Holds(Th(s, u))
    ensures t == u
  {
    assert Consistent(s, t) && Consistent(s, u);
  }

  /** Reading the owner without protection still tells a thread correctly whether it holds the lock. */
  lemma RecursionDetected(s: State, t: Tid)
    requires Safe(s) && Enabled(s, ReadLocker(t))
    ensures s.locker == t <==> Depth(Th(s, t)) > 0
    ensures var th := Th(Apply(s, ReadLocker(t)), t);
      if Depth(Th(s, t)) > 0 then th.pc.Idle? && th.count == Th(s, t).count + 1
      else th.pc == (if Th(s, t).pc.blocking then Blocking else Idle) && th.count == 0
  {
    assert Consistent(s, t);
  }

  /** Unlocking by a thread that does not hold the lock changes nothing; by the holder it undoes one
      lock, and gives the mutex up exactly if it was the last. */
  lemma UnlockExact(s: State, t: Tid)
    requires Safe(s) && Enabled(s, Unlock(t))
    ensures Depth(Th(s, t)) == 0 ==> Apply(s, Unlock(t)) == s
    ensures Depth(Th(s, t)) > 0 ==>
      var th := Th(Apply(s, Unlock(t)), t);
      && th.count == Depth(th) == Depth(Th(s, t)) - 1
      && (th.pc.Dropping? <==> Depth(th) == 0)
  {
    assert Consistent(s, t);
  }

  // ---------------------------------------------------------------------------------------
  // Whole calls
  // ---------------------------------------------------------------------------------------

  /** Waiting for the native mutex ends with owning it. */
  lemma HandedOver(s: State, step: Step)
    requires Safe(s) && Enabled(s, step) && (step.Acquire? || step.Regain?)
    ensures Apply(s, step).native == step.t && Th(Apply(s, step), step.t).pc == if step.Acquire? then Got else Regained
  {
  }

  /** How many steps a thread still has to take to get out of the operation it is in. */
  function StepsLeft(pc: Pc): nat {
    match pc
    case Idle => 0
    case Tried(_) => 4
    case Blocking => 3
    case Got => 2
    case Named => 1
    case Dropping => 2
    case Dropped => 1
    case Releasing => 3
    case Waiting => 2
    case Regained => 1
  }

  /** Every step inside an operation brings it nearer to its end. */
  lemma CallsEnd(s: State, step: Step)
    requires Safe(s) && Enabled(s, step)
    ensures !Th(s, step.t).pc.Idle? ==> StepsLeft(Th(Apply(s, step), step.t).pc) < StepsLeft(Th(s, step.t).pc)
    ensures step.ReleaseForWait? ==> Th(Apply(s, step), step.t).pc.Releasing?
    ensures step.TryNative? && s.native != NOBODY ==> Th(Apply(s, step), step.t).pc == Tried(step.blocking)
    ensures step.TryNative? && s.native == NOBODY ==> Th(Apply(s, step), step.t).pc.Got?
  {
  }

  /** Nobody is held up but by the owner of the native mutex. */
  lemma NeverStuck(s: State, t: Tid)
    requires Safe(s) && t in s.threads
    ensures (exists step: Step :: step.t == t && Enabled(s, step)) <==>
      !((Th(s, t).pc.Blocking? || Th(s, t).pc.Waiting?) && s.native != NOBODY)
  {
    var step :=
      match Th(s, t).pc
      case Idle => Unlock(t)
      case Tried(_) => ReadLocker(t)
      case Blocking => Acquire(t)
      case Got => SetLocker(t)
      case Named => StoreCount(t)
      case Dropping => ClearLocker(t)
      case Dropped => ReleaseNative(t)
      case Releasing => Sleep(t)
      case Waiting => Regain(t)
      case Regained => AcquireAfterWait(t);
    assert step.t == t;
    if !((Th(s, t).pc.Blocking? || Th(s, t).pc.Waiting?) && s.native != NOBODY) {
      assert Enabled(s, step);
    }
  }

  /** All steps of `t` belong to the locking call it is in. */
  predicate OnlyLocks(steps: seq<Step>, t: Tid) {
    forall i :: 0 <= i < |steps| && steps[i].t == t ==>
      steps[i].ReadLocker? || steps[i].Acquire? || steps[i].SetLocker? || steps[i].StoreCount?
  }

  /** In `Lock` called at depth `d`, or back from it with one lock more. */
  predicate LockingOrBack(th: Thread, d: int) {
    match th.pc
    case Idle => Depth(th) == d + 1
    case Tried(blocking) => blocking && Depth(th) == d
    case Blocking => Depth(th) == d == 0
    case Got => Depth(th) == d == 0
    case Named => Depth(th) == d == 0
    case _ => false
  }

  /** One step of a run in which `t` is in `Lock`. */
  lemma LockGoesOn(s: State, step: Step, t: Tid, d: int)
    requires Safe(s) && Enabled(s, step) && t in s.threads && d >= 0 && LockingOrBack(Th(s, t), d)
    requires step.t == t ==> step.ReadLocker? || step.Acquire? || step.SetLocker? || step.StoreCount?
    ensures t in Apply(s, step).threads && LockingOrBack(Th(Apply(s, step), t), d)
  {
    assert Consistent(s, t);
  }

  lemma {:induction false} LockKeepsOn(s: State, steps: seq<Step>, t: Tid, d: int)
    requires Safe(s) && CanRun(s, steps) && OnlyLocks(steps, t)
    requires t in s.threads && d >= 0 && LockingOrBack(Th(s, t), d)
    ensures var s' := After(s, steps); Safe(s') && t in s'.threads && LockingOrBack(Th(s', t), d)
    decreases |steps|
  {
    hide Safe, Apply, LockingOrBack;
    if steps != [] {
      StepKeepsSafe(s, steps[0]);
      LockGoesOn(s, steps[0], t, d);
      assert forall i :: 0 <= i < |steps[1..]| ==> steps[1..][i] == steps[i + 1];
      LockKeepsOn(Apply(s, steps[0]), steps[1..], t, d);
    }
  }

  /** `Lock` returns only with the mutex: called at depth `d`, whatever the other threads do meanwhile, it is
      back exactly with depth `d + 1`, as native owner and as owner named in the mutex. */
  lemma LockReturns(s: State, steps: seq<Step>, t: Tid)
    requires Safe(s) && Enabled(s, TryNative(t, true))
    requires CanRun(Apply(s, TryNative(t, true)), steps) && OnlyLocks(steps, t)
    ensures var s' := After(Apply(s, TryNative(t, true)), steps);
      && t in s'.threads && LockingOrBack(Th(s', t), Depth(Th(s, t)))
      && (Th(s', t).pc.Idle? ==> s'.native == t == s'.locker)
  {
    hide CanRun, After;
    assert Consistent(s, t);
    StepKeepsSafe(s, TryNative(t, true));
    LockKeepsOn(Apply(s, TryNative(t, true)), steps, t, Depth(Th(s, t)));
    assert Consistent(After(Apply(s, TryNative(t, true)), steps), t);
  }

  /** All steps of `t` belong to the unlocking call it is in. */
  predicate OnlyUnlocks(steps: seq<Step>, t: Tid) {
    forall i :: 0 <= i < |steps| && steps[i].t == t ==> steps[i].ClearLocker? || steps[i].ReleaseNative?
  }

  lemma {:induction false} UnlockKeepsOn(s: State, steps: seq<Step>, t: Tid, d: int)
    requires Safe(s) && CanRun(s, steps) && OnlyUnlocks(steps, t)
    requires t in s.threads && Depth(Th(s, t)) == d
    requires Th(s, t).pc.Idle? || Th(s, t).pc.Dropping? || Th(s, t).pc.Dropped?
    ensures var s' := After(s, steps);
      && Safe(s') && t in s'.threads && Depth(Th(s', t)) == d
      && (Th(s', t).pc.Idle? || Th(s', t).pc.Dropping? || Th(s', t).pc.Dropped?)
    decreases |steps|
  {
    hide Safe;
    if steps != [] {
      StepKeepsSafe(s, steps[0]);
      assert forall i :: 0 <= i < |steps[1..]| ==> steps[1..][i] == steps[i + 1];
      UnlockKeepsOn(Apply(s, steps[0]), steps[1..], t, d);
    }
  }

  /** `Unlock` by the holder gives one lock back: when it returns the thread still owns the mutex exactly if
      other locks of it are left. */
  lemma UnlockReturns(s: State, steps: seq<Step>, t: Tid)
    requires Safe(s) && Enabled(s, Unlock(t)) && Depth(Th(s, t)) > 0
    requires CanRun(Apply(s, Unlock(t)), steps) && OnlyUnlocks(steps, t)
    ensures var s' := After(Apply(s, Unlock(t)), steps);
      && t in s'.threads && Depth(Th(s', t)) == Depth(Th(s, t)) - 1
      && (Th(s', t).pc.Idle? ==>
            (s'.native == t <==> Depth(Th(s', t)) > 0) && (s'.locker == t <==> Depth(Th(s', t)) > 0))
  {
    hide CanRun, After;
    assert Consistent(s, t);
    StepKeepsSafe(s, Unlock(t));
    UnlockKeepsOn(Apply(s, Unlock(t)), steps, t, Depth(Th(s, t)) - 1);
    assert Consistent(After(Apply(s, Unlock(t)), steps), t);
  }

  // ---------------------------------------------------------------------------------------
  // Condition waits
  // ---------------------------------------------------------------------------------------

  /** All steps of `t` belong to the condition wait it is in. */
  predicate OnlyWaits(steps: seq<Step>, t: Tid) {
    forall i :: 0 <= i < |steps| && steps[i].t == t ==>
      steps[i].Sleep? || steps[i].Regain? || steps[i].AcquireAfterWait?
  }

  predicate WaitingOrBack(th: Thread, d: int) {
    (InWait(th) || th.pc.Idle?) && th.count == d
  }

  /** A condition wait at any depth keeps the stored depth, whatever the other threads do; while it
      sleeps the mutex is released completely, and when it is over the thread holds it again. */
  lemma {:induction false} WaitRestores(s: State, steps: seq<Step>, t: Tid, d: int)
    requires Safe(s) && CanRun(s, steps) && OnlyWaits(steps, t) && d > 0 && t in s.threads && WaitingOrBack(Th(s, t), d)
    ensures var s' := After(s, steps);
      && t in s'.threads && WaitingOrBack(Th(s', t), d) && Depth(Th(s', t)) == d
      && (Th(s', t).pc.Waiting? ==> s'.native != t && s'.locker != t)
      && (Th(s', t).pc.Idle? ==> s'.native == t == s'.locker)
    decreases |steps|
  {
    if steps == [] {
      assert Consistent(s, t);
    } else {
      var s1 := Apply(s, steps[0]);
      StepKeepsSafe(s, steps[0]);
      assert Consistent(s, t);
      if steps[0].t != t {
        assert Th(s1, t) == Th(s, t);
      }
      assert OnlyWaits(steps[1..], t) by {
        forall i | 0 <= i < |steps[1..]| && steps[1..][i].t == t
          ensures steps[1..][i].Sleep? || steps[1..][i].Regain? || steps[1..][i].AcquireAfterWait?
        {
          assert steps[1..][i] == steps[i + 1];
        }
      }
      WaitRestores(s1, steps[1..], t, d);
    }
  }

  // ---------------------------------------------------------------------------------------
  // The methods, run without interruption
  // ---------------------------------------------------------------------------------------

  /** The mutex with its fields; `counts` is the thread-local table of stored counts, in which a
      missing entry means 0. */
  class Mutex {
    var fMutex: int
    var fLocker: int
    var counts: map<Tid, int>
    ghost var threads: map<Tid, Thread>

    ghost function Abs(): State
      reads this
    {
      State(fMutex, fLocker, threads)
    }

    function GetCount(t: Tid): int
      reads this`counts
    {
      if t in counts then counts[t] else 0
    }

    ghost predicate Valid()
      reads this
    {
      Safe(Abs()) && forall t :: t in threads ==> GetCount(t) == threads[t].count
    }

    /** Thread `t` is not inside one of the operations. */
    ghost predicate Ready(t: Tid)
      reads this
    {
      t in threads && threads[t].pc.Idle?
    }

    constructor (ghost ts: set<Tid>)
      ensures Valid() && Abs() == Init(ts)
    {
      fMutex, fLocker, counts, threads := NOBODY, NOBODY, map[], Init(ts).threads;
      new;
      EveryRunSafe(ts, []);
    }

    /** Stores the count of thread `t`; nothing is stored for 0. */
    method SetCount(t: Tid, newCount: int)
      modifies this`counts
      ensures GetCount(t) == if newCount <= 0 then 0 else newCount
      ensures forall u: Tid :: u != t ==> GetCount(u) == old(GetCount(u))
    {
      if newCount <= 0 {
        counts := counts - {t};
      } else {
        counts := counts[t := newCount];
      }
    }

    /** Takes the mutex if it is free or already held by `t`. */
    method TryLock(t: Tid) returns (hasLocked: bool)
      requires Valid() && Ready(t)
      modifies this
      ensures Valid() && Ready(t)
      ensures hasLocked == (old(fMutex) == NOBODY || old(Depth(threads[t])) > 0)
      ensures Depth(threads[t]) == old(Depth(threads[t])) + (if hasLocked then 1 else 0)
      ensures Abs() == After(old(Abs()), TryLockSteps(t, old(fMutex) == NOBODY))
    {
      ghost var s0 := Abs();
      ghost var free := fMutex == NOBODY;
      TryLockRuns(s0, t, free);
      assert Consistent(s0, t);
      hasLocked := fMutex == NOBODY;
      if hasLocked {
        fMutex := t;
        fLocker := t;
        SetCount(t, 1);
      } else if fLocker == t {
        SetCount(t, 1 + GetCount(t));
        hasLocked := true;
      }
      threads := After(s0, TryLockSteps(t, free)).threads;
    }

    /** Undoes one lock of `t`; an error without effect if `t` does not hold the mutex. */
    method Unlock(t: Tid) returns (ok: bool)
      requires Valid() && Ready(t)
      modifies this
      ensures Valid() && Ready(t)
      ensures ok == (old(Depth(threads[t])) > 0)
      ensures !ok ==> Abs() == old(Abs()) && counts == old(counts)
      ensures ok ==> Depth(threads[t]) == old(Depth(threads[t])) - 1
      ensures Abs() == After(old(Abs()), UnlockSteps(t, old(fLocker) == t && old(GetCount(t)) <= 1))
    {
      ghost var s0 := Abs();
      ghost var last := fLocker == t && GetCount(t) <= 1;
      UnlockRuns(s0, t, last);
      assert Consistent(s0, t);
      ok := fLocker == t;
      if ok {
        var actCount := GetCount(t) - 1;
        SetCount(t, actCount);
        if actCount <= 0 {
          fLocker := NOBODY;
          SetCount(t, 0);
          fMutex := NOBODY;
        }
        threads := After(s0, UnlockSteps(t, last)).threads;
      }
    }
  }

  function TryLockSteps(t: Tid, free: bool): seq<Step> {
    if free then [TryNative(t, false), SetLocker(t), StoreCount(t)] else [TryNative(t, false), ReadLocker(t)]
  }

  function UnlockSteps(t: Tid, last: bool): seq<Step> {
    if last then [Unlock(t), ClearLocker(t), ReleaseNative(t)] else [Unlock(t)]
  }

  lemma TryLockRuns(s: State, t: Tid, free: bool)
    requires Safe(s) && t in s.threads && Th(s, t).pc.Idle? && free == (s.native == NOBODY)
    ensures var s' := After(s, TryLockSteps(t, free));
      && Safe(s') && s'.threads.Keys == s.threads.Keys && Th(s', t).pc.Idle?
      && (forall u :: u in s.threads && u != t ==> s'.threads[u] == s.threads[u])
      && s'.native == (if free then t else s.native) && s'.locker == (if free then t else s.locker)
      && Th(s', t).count == (if free then 1 else if s.locker == t then Th(s, t).count + 1 else Th(s, t).count)
      && Depth(Th(s', t)) == Depth(Th(s, t)) + (if free || s.locker == t then 1 else 0)
  {
    var s1 := Apply(s, TryNative(t, false));
    StepKeepsSafe(s, TryNative(t, false));
    if free {
      var s2 := Apply(s1, SetLocker(t));
      StepKeepsSafe(s1, SetLocker(t));
      var s3 := Apply(s2, StoreCount(t));
      StepKeepsSafe(s2, StoreCount(t));
      ThreeSteps(s, TryNative(t, false), SetLocker(t), StoreCount(t));
    } else {
      StepKeepsSafe(s1, ReadLocker(t));
      TwoSteps(s, TryNative(t, false), ReadLocker(t));
    }
  }

  lemma UnlockRuns(s: State, t: Tid, last: bool)
    requires Safe(s) && t in s.threads && Th(s, t).pc.Idle? && last == (s.locker == t && Th(s, t).count <= 1)
    ensures var s' := After(s, UnlockSteps(t, last));
      && Safe(s') && s'.threads.Keys == s.threads.Keys && Th(s', t).pc.Idle?
      && (forall u :: u in s.threads && u != t ==> s'.threads[u] == s.threads[u])
      && s'.native == (if last then NOBODY else s.native) && s'.locker == (if last then NOBODY else s.locker)
      && Th(s', t).count == (if last then 0 else if s.locker == t then Th(s, t).count - 1 else Th(s, t).count)
      && Depth(Th(s', t)) == Depth(Th(s, t)) - (if s.locker == t then 1 else 0)
      && (s.locker != t ==> s' == s)
  {
    var s1 := Apply(s, Unlock(t));
    assert Consistent(s, t);
    StepKeepsSafe(s, Unlock(t));
    if last {
      var s2 := Apply(s1, ClearLocker(t));
      StepKeepsSafe(s1, ClearLocker(t));
      StepKeepsSafe(s2, ReleaseNative(t));
      ThreeSteps(s, Unlock(t), ClearLocker(t), ReleaseNative(t));
    } else {
      OneStep(s, Unlock(t));
    }
  }

  lemma OneStep(s: State, a: Step)
    requires a.t in s.threads
    ensures After(s, [a]) == Apply(s, a)
  {
    assert [a][1..] == [];
  }

  lemma TwoSteps(s: State, a: Step, b: Step)
    requires a.t == b.t && a.t in s.threads
    ensures After(s, [a, b]) == Apply(Apply(s, a), b)
  {
    assert [a, b][1..] == [b];
    OneStep(Apply(s, a), b);
  }

  lemma ThreeSteps(s: State, a: Step, b: Step, c: Step)
    requires a.t == b.t == c.t && a.t in s.threads
    ensures After(s, [a, b, c]) == Apply(Apply(Apply(s, a), b), c)
  {
    assert [a, b, c][1..] == [b, c];
    TwoSteps(Apply(s, a), b, c);
  }
}
