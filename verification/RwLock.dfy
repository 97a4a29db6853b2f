/** The hand-written read-write lock: one step per critical section of its mutex, for any number of
    threads in any order, with wake-ups that nobody asked for. */
module RwLocks {

  /** Stands for one hold of the lock, or one call for it: a thread that reads the lock twice counts as two. */
  type Tid = nat

  /** Holding the lock, asleep on one of the two conditions, or woken and on the way to test the
      condition again. */
  datatype Place = Reading | Writing | RSleep | RWoken | WSleep | WWoken

  /** The threads that have to do with the lock; all others are elsewhere. */
  type Threads = map<Tid, Place>

  /** The fields of the lock. */
  datatype Fields = Fields(valid: bool, rActive: int, wActive: bool, rWait: int, wWait: int)

  datatype Lock = Lock(f: Fields, th: Threads)

  /** One critical section. `woken` is the sleeping writer that a signal reaches, if it is sent. */
  datatype Step =
    | ReadLock(t: Tid)
    | ReadResume(t: Tid)
    | ReadTry(t: Tid)
    | ReadUnlock(t: Tid, woken: Tid)
    | WriteLock(t: Tid)
    | WriteResume(t: Tid)
    | WriteTry(t: Tid)
    | WriteUnlock(t: Tid, woken: Tid)
    | Spurious(t: Tid)
    | Destroy

  function Init(): Lock {
    Lock(Fields(true, 0, false, 0, 0), map[])
  }

  predicate Is(th: Threads, t: Tid, p: Place) {
    t in th && th[t] == p
  }

  /** A signal reaches a sleeper if there is one. */
  ghost predicate Reached(th: Threads, woken: Tid) {
    Count(th, WSleep) > 0 ==> Is(th, woken, WSleep)
  }

  ghost predicate Enabled(s: Lock, step: Step) {
    match step
    case ReadLock(t) => t !in s.th
    case ReadResume(t) => Is(s.th, t, RWoken)
    case ReadTry(t) => t !in s.th
    case ReadUnlock(t, woken) => Is(s.th, t, Reading) && Reached(s.th, woken)
    case WriteLock(t) => t !in s.th
    case WriteResume(t) => Is(s.th, t, WWoken)
    case WriteTry(t) => t !in s.th
    case WriteUnlock(t, woken) => Is(s.th, t, Writing) && Reached(s.th, woken)
    case Spurious(t) => Is(s.th, t, RSleep) || Is(s.th, t, WSleep)
    case Destroy => true
  }

  /** A signal to the writers. */
  function Signal(th: Threads, woken: Tid): Threads {
    if Is(th, woken, WSleep) then th[woken := WWoken] else th
  }

  /** A broadcast to the readers. */
  function Broadcast(th: Threads): Threads {
    map t | t in th :: if th[t] == RSleep then RWoken else th[t]
  }

  /** What a critical section makes of the lock. */
  function Apply(s: Lock, step: Step): Lock {
    var f, th := s.f, s.th;
    match step
    case ReadLock(t) =>
      if !f.valid then s
      else if f.wActive then Lock(f.(rWait := f.rWait + 1), th[t := RSleep])
      else Lock(f.(rActive := f.rActive + 1), th[t := Reading])
    case ReadResume(t) =>
      if f.wActive then Lock(f, th[t := RSleep])
      else Lock(f.(rWait := f.rWait - 1, rActive := f.rActive + 1), th[t := Reading])
    case ReadTry(t) =>
      if !f.valid || f.wActive then s else Lock(f.(rActive := f.rActive + 1), th[t := Reading])
    case ReadUnlock(t, woken) =>
      if !f.valid then s
      else
        var f1, th1 := f.(rActive := f.rActive - 1), th - {t};
        Lock(f1, if f1.rActive == 0 && f1.wWait > 0 then Signal(th1, woken) else th1)
    case WriteLock(t) =>
      if !f.valid then s
      else if f.wActive || f.rActive > 0 then Lock(f.(wWait := f.wWait + 1), th[t := WSleep])
      else Lock(f.(wActive := true), th[t := Writing])
    case WriteResume(t) =>
      if f.wActive || f.rActive > 0 then Lock(f, th[t := WSleep])
      else Lock(f.(wWait := f.wWait - 1, wActive := true), th[t := Writing])
    case WriteTry(t) =>
      if !f.valid || f.wActive || f.rActive > 0 then s else Lock(f.(wActive := true), th[t := Writing])
    case WriteUnlock(t, woken) =>
      if !f.valid then s
      else
        var f1, th1 := f.(wActive := false), th - {t};
        Lock(f1,
          if f.rWait > 0 then Broadcast(th1) else if f.wWait > 0 then Signal(th1, woken) else th1)
    case Spurious(t) =>
      if Is(th, t, RSleep) then Lock(f, th[t := RWoken]) else Lock(f, Signal(th, t))
    case Destroy =>
      if f.rActive > 0 || f.wActive || f.rWait != 0 || f.wWait != 0 then s else Lock(f.(valid := false), th)
  }

  // ---------------------------------------------------------------------------------------
  // Counting threads
  // ---------------------------------------------------------------------------------------

  function AllAt(th: Threads, p: Place): set<Tid> {
    set t | t in th && th[t] == p
  }

  function Count(th: Threads, p: Place): nat {
    |AllAt(th, p)|
  }

  function One(b: bool): int { if b then 1 else 0 }

  lemma Left(th: Threads, t: Tid, q: Place)
    ensures Count(th - {t}, q) == Count(th, q) - One(Is(th, t, q))
  {
    assert AllAt(th - {t}, q) == AllAt(th, q) - {t};
  }

  lemma Moved(th: Threads, t: Tid, p: Place, q: Place)
    ensures Count(th[t := p], q) == Count(th, q) - One(Is(th, t, q)) + One(p == q)
  {
    if p == q {
      assert AllAt(th[t := p], q) == AllAt(th, q) - {t} + {t};
    } else {
      assert AllAt(th[t := p], q) == AllAt(th, q) - {t};
    }
  }

  lemma Broadcasted(th: Threads)
    ensures var th' := Broadcast(th);
      && Count(th', RSleep) == 0 && Count(th', RWoken) == Count(th, RWoken) + Count(th, RSleep)
      && Count(th', Reading) == Count(th, Reading) && Count(th', Writing) == Count(th, Writing)
      && Count(th', WSleep) == Count(th, WSleep) && Count(th', WWoken) == Count(th, WWoken)
  {
    var th' := Broadcast(th);
    assert AllAt(th', RSleep) == {};
    assert AllAt(th', RWoken) == AllAt(th, RWoken) + AllAt(th, RSleep);
    assert AllAt(th, RWoken) !! AllAt(th, RSleep);
    assert AllAt(th', Reading) == AllAt(th, Reading) && AllAt(th', Writing) == AllAt(th, Writing);
    assert AllAt(th', WSleep) == AllAt(th, WSleep) && AllAt(th', WWoken) == AllAt(th, WWoken);
  }

  lemma Somebody(th: Threads, p: Place)
    ensures Count(th, p) > 0 <==> exists t :: Is(th, t, p)
  {
    if Count(th, p) > 0 {
      var t :| t in AllAt(th, p);
      assert Is(th, t, p);
    }
    if t :| Is(th, t, p) {
      assert t in AllAt(th, p);
    }
  }

  lemma Present(th: Threads, t: Tid, p: Place)
    requires Is(th, t, p)
    ensures Count(th, p) > 0
  {
    assert t in AllAt(th, p);
  }

  ghost predicate Deserted(th: Threads) {
    && Count(th, Reading) == 0 && Count(th, Writing) == 0 && Count(th, RSleep) == 0
    && Count(th, RWoken) == 0 && Count(th, WSleep) == 0 && Count(th, WWoken) == 0
  }

  lemma Nobody(th: Threads)
    ensures th == map[] <==> Deserted(th)
  {
    if th != map[] {
      var t :| t in th;
      Present(th, t, th[t]);
    }
  }

  // ---------------------------------------------------------------------------------------
  // Safety
  // ---------------------------------------------------------------------------------------

  /** A writer excludes everybody else. */
  ghost predicate Exclusive(th: Threads) {
    Count(th, Writing) == 0 || (Count(th, Writing) == 1 && Count(th, Reading) == 0)
  }

  /** The four counters say who really holds the lock and who really waits. */
  ghost predicate Counted(s: Lock) {
    && s.f.rActive == Count(s.th, Reading) && (s.f.wActive <==> Count(s.th, Writing) > 0)
    && s.f.rWait == Count(s.th, RSleep) + Count(s.th, RWoken)
    && s.f.wWait == Count(s.th, WSleep) + Count(s.th, WWoken)
  }

  ghost predicate Free(th: Threads) {
    Count(th, Reading) == 0 && Count(th, Writing) == 0
  }

  /** Readers sleep only while a writer is active, and a free lock with sleeping writers has a waiter
      that is already awake. */
  ghost predicate NoLostWakeup(th: Threads) {
    && (Count(th, RSleep) > 0 ==> Count(th, Writing) > 0)
    && (Free(th) && Count(th, WSleep) > 0 ==> Count(th, RWoken) + Count(th, WWoken) > 0)
  }

  /** A destroyed lock has neither holders nor waiters. */
  ghost predicate DestroyedUnused(s: Lock) {
    !s.f.valid ==> Deserted(s.th)
  }

  ghost predicate Safe(s: Lock) {
    Exclusive(s.th) && Counted(s) && NoLostWakeup(s.th) && DestroyedUnused(s)
  }

  /** How one thread's move changes the counts. */
  lemma MovedAll(th: Threads, t: Tid, p: Place)
    ensures forall q :: Count(th[t := p], q) == Count(th, q) - One(Is(th, t, q)) + One(p == q)
  {
    forall q
      ensures Count(th[t := p], q) == Count(th, q) - One(Is(th, t, q)) + One(p == q)
    {
      Moved(th, t, p, q);
    }
  }

  lemma LeftAll(th: Threads, t: Tid)
    ensures forall q :: Count(th - {t}, q) == Count(th, q) - One(Is(th, t, q))
  {
    forall q
      ensures Count(th - {t}, q) == Count(th, q) - One(Is(th, t, q))
    {
      Left(th, t, q);
    }
  }

  lemma StepKeepsSafe(s: Lock, step: Step)
    requires Safe(s) && Enabled(s, step)
    ensures Safe(Apply(s, step))
  {
    match step
    case ReadLock(t) => ReadersSafe(s, step);
    case ReadResume(t) => ReadersSafe(s, step);
    case ReadTry(t) => ReadersSafe(s, step);
    case ReadUnlock(t, woken) => UnlockSafe(s, step);
    case WriteLock(t) => WritersSafe(s, step);
    case WriteResume(t) => WritersSafe(s, step);
    case WriteTry(t) => WritersSafe(s, step);
    case WriteUnlock(t, woken) => UnlockSafe(s, step);
    case Spurious(t) => SpuriousSafe(s, t);
    case Destroy => DestroySafe(s);
  }

  lemma ReadersSafe(s: Lock, step: Step)
    requires Safe(s) && Enabled(s, step) && (step.ReadLock? || step.ReadResume? || step.ReadTry?)
    ensures Safe(Apply(s, step))
  {
    hide Count;
    MovedAll(s.th, step.t, RSleep);
    MovedAll(s.th, step.t, Reading);
    if step.ReadResume? {
      Present(s.th, step.t, RWoken);
    }
  }

  lemma WritersSafe(s: Lock, step: Step)
    requires Safe(s) && Enabled(s, step) && (step.WriteLock? || step.WriteResume? || step.WriteTry?)
    ensures Safe(Apply(s, step))
  {
    hide Count;
    MovedAll(s.th, step.t, WSleep);
    MovedAll(s.th, step.t, Writing);
    if step.WriteResume? {
      Present(s.th, step.t, WWoken);
    }
  }

  lemma UnlockSafe(s: Lock, step: Step)
    requires Safe(s) && Enabled(s, step) && (step.ReadUnlock? || step.WriteUnlock?)
    ensures Safe(Apply(s, step))
  {
    hide Count, Broadcast;
    var th1 := s.th - {step.t};
    LeftAll(s.th, step.t);
    Present(s.th, step.t, s.th[step.t]);
    MovedAll(th1, step.woken, WWoken);
    Broadcasted(th1);
  }

  lemma SpuriousSafe(s: Lock, t: Tid)
    requires Safe(s) && Enabled(s, Spurious(t))
    ensures Safe(Apply(s, Spurious(t)))
  {
    hide Count;
    Present(s.th, t, s.th[t]);
    MovedAll(s.th, t, RWoken);
    MovedAll(s.th, t, WWoken);
  }

  lemma DestroySafe(s: Lock)
    requires Safe(s)
    ensures Safe(Apply(s, Destroy))
    ensures Apply(s, Destroy).f.valid <==> s.f.valid && s.th != map[]
  {
    hide Count;
    Nobody(s.th);
  }

  // ---------------------------------------------------------------------------------------
  // Whole runs
  // ---------------------------------------------------------------------------------------

  ghost predicate CanRun(s: Lock, steps: seq<Step>)
    decreases |steps|
  {
    steps != [] ==> Enabled(s, steps[0]) && CanRun(Apply(s, steps[0]), steps[1..])
  }

  ghost function After(s: Lock, steps: seq<Step>): Lock
    decreases |steps|
  {
    if steps == [] then s else After(Apply(s, steps[0]), steps[1..])
  }

  lemma {:induction false} RunKeepsSafe(s: Lock, steps: seq<Step>)
    requires Safe(s) && CanRun(s, steps)
    ensures Safe(After(s, steps))
    decreases |steps|
  {
    hide Safe, Apply;
    if steps != [] {
      StepKeepsSafe(s, steps[0]);
      RunKeepsSafe(Apply(s, steps[0]), steps[1..]);
    }
  }

  /** Every state that any interleaving of any threads can reach is safe. */
  lemma EveryRunSafe(steps: seq<Step>)
    requires CanRun(Init(), steps)
    ensures Safe(After(Init(), steps))
  {
    Nobody(map[]);
    RunKeepsSafe(Init(), steps);
  }

  /** A free lock that somebody waits for has an awake waiter, and any awake waiter's next step takes
      the lock. */
  lemma WaiterGetsFreeLock(s: Lock, u: Tid)
    requires Safe(s) && Free(s.th) && u in s.th
    ensures exists t :: Is(s.th, t, RWoken) || Is(s.th, t, WWoken)
    ensures forall t :: Is(s.th, t, RWoken) ==> Is(Apply(s, ReadResume(t)).th, t, Reading)
    ensures forall t :: Is(s.th, t, WWoken) ==> Is(Apply(s, WriteResume(t)).th, t, Writing)
  {
    hide Count;
    Nobody(s.th);
    Somebody(s.th, RWoken);
    Somebody(s.th, WWoken);
    if Count(s.th, RWoken) > 0 {
      var t :| Is(s.th, t, RWoken);
    } else {
      var t :| Is(s.th, t, WWoken);
    }
  }

  /** The attempts that do not block take the lock exactly if nobody is in the way, and otherwise change
      nothing. */
  lemma TryExact(s: Lock, t: Tid)
    requires Safe(s) && s.f.valid && t !in s.th
    ensures Apply(s, ReadTry(t)) ==
      if exists u :: Is(s.th, u, Writing) then s
      else Lock(s.f.(rActive := s.f.rActive + 1), s.th[t := Reading])
    ensures Apply(s, WriteTry(t)) ==
      if exists u :: Is(s.th, u, Writing) || Is(s.th, u, Reading) then s
      else Lock(s.f.(wActive := true), s.th[t := Writing])
  {
    hide Count;
    Somebody(s.th, Writing);
    Somebody(s.th, Reading);
  }

  // ---------------------------------------------------------------------------------------
  // What each call does to the threads
  // ---------------------------------------------------------------------------------------

  /** Somebody holds the lock in a way that keeps readers out. */
  ghost predicate ReaderBarred(th: Threads) {
    exists u :: Is(th, u, Writing)
  }

  /** Somebody holds the lock in a way that keeps writers out, that is, at all. */
  ghost predicate WriterBarred(th: Threads) {
    exists u :: Is(th, u, Writing) || Is(th, u, Reading)
  }

  ghost predicate ReaderWaits(th: Threads) {
    exists u :: Is(th, u, RSleep) || Is(th, u, RWoken)
  }

  lemma Barred(s: Lock)
    requires Safe(s)
    ensures ReaderBarred(s.th) <==> s.f.wActive
    ensures WriterBarred(s.th) <==> s.f.wActive || s.f.rActive > 0
    ensures ReaderWaits(s.th) <==> s.f.rWait > 0
  {
    hide Count;
    Somebody(s.th, Writing);
    Somebody(s.th, Reading);
    Somebody(s.th, RSleep);
    Somebody(s.th, RWoken);
  }

  /** A call for the lock takes it exactly if nobody is in the way, and otherwise goes to sleep. */
  lemma LockExact(s: Lock, t: Tid)
    requires Safe(s) && s.f.valid && t !in s.th
    ensures Apply(s, ReadLock(t)).th == s.th[t := if ReaderBarred(s.th) then RSleep else Reading]
    ensures Apply(s, WriteLock(t)).th == s.th[t := if WriterBarred(s.th) then WSleep else Writing]
  {
    hide Safe;
    Barred(s);
  }

  /** So does a waiter that has been woken. */
  lemma ResumeExact(s: Lock, t: Tid)
    requires Safe(s)
    ensures Apply(s, ReadResume(t)).th == s.th[t := if ReaderBarred(s.th) then RSleep else Reading]
    ensures Apply(s, WriteResume(t)).th == s.th[t := if WriterBarred(s.th) then WSleep else Writing]
  {
    hide Safe;
    Barred(s);
  }

  /** What becomes of the other threads when a reader unlocks: the writer reached by the signal is woken
      if that was the last reader. */
  ghost predicate ReaderLeft(th: Threads, th': Threads, t: Tid, woken: Tid) {
    && th'.Keys == th.Keys - {t}
    && forall u :: u in th' ==>
      th'[u] == if u == woken && th[u] == WSleep && !WriterBarred(th') then WWoken else th[u]
  }

  /** What becomes of them when the writer unlocks: nobody holds the lock, every sleeping reader is woken,
      and if no reader waits the writer reached by the signal. */
  ghost predicate WriterLeft(th: Threads, th': Threads, t: Tid, woken: Tid) {
    && th'.Keys == th.Keys - {t} && !WriterBarred(th')
    && forall u :: u in th' ==>
      th'[u] ==
        if th[u] == RSleep then RWoken
        else if u == woken && th[u] == WSleep && !ReaderWaits(th) then WWoken
        else th[u]
  }

  /** Unlocking gives the lock up and wakes whom it should. */
  lemma UnlockExact(s: Lock, step: Step)
    requires Safe(s) && Enabled(s, step) && (step.ReadUnlock? || step.WriteUnlock?)
    ensures var th' := Apply(s, step).th;
      if step.ReadUnlock? then ReaderLeft(s.th, th', step.t, step.woken)
      else WriterLeft(s.th, th', step.t, step.woken)
  {
    hide Count;
    Present(s.th, step.t, s.th[step.t]);
    Barred(s);
    StepKeepsSafe(s, step);
    Barred(Apply(s, step));
    var th1 := s.th - {step.t};
    if Is(th1, step.woken, WSleep) {
      Present(s.th, step.woken, WSleep);
    }
    if step.WriteUnlock? && !ReaderWaits(s.th) {
      assert forall u :: u in th1 ==> Is(s.th, u, th1[u]);
    }
  }

  /** A wake-up that nobody asked for concerns one sleeper, and an attempt to destroy the lock no thread. */
  lemma OthersExact(s: Lock, t: Tid)
    requires Enabled(s, Spurious(t))
    ensures Apply(s, Spurious(t)) == Lock(s.f, s.th[t := if s.th[t] == RSleep then RWoken else WWoken])
    ensures Apply(s, Destroy).th == s.th
  {
  }

  // ---------------------------------------------------------------------------------------
  // The C functions
  // ---------------------------------------------------------------------------------------

  /** `Waiting` stands for a call that has gone to sleep. */
  datatype Status = Success | Busy | Invalid | Waiting

  /** The lock with its fields updated in place; the ghost field follows the threads. */
  class RwLock {
    var valid: bool
    var rActive: int
    var wActive: bool
    var rWait: int
    var wWait: int
    ghost var threads: Threads

    ghost function State(): Lock
      reads this
    {
      Lock(Fields(valid, rActive, wActive, rWait, wWait), threads)
    }

    constructor ()
      ensures State() == Init() && Safe(State())
    {
      valid, rActive, wActive, rWait, wWait := true, 0, false, 0, 0;
      threads := map[];
      new;
      EveryRunSafe([]);
    }

    /** `rwl_readlock` up to its return or its first wait. */
    method ReadLock(t: Tid) returns (status: Status)
      requires Safe(State()) && Enabled(State(), Step.ReadLock(t))
      modifies this
      ensures State() == Apply(old(State()), Step.ReadLock(t)) && Safe(State())
      ensures valid ==> threads == old(threads)[t := if ReaderBarred(old(threads)) then RSleep else Reading]
      ensures status == if !valid then Invalid else if Is(threads, t, Reading) then Success else Waiting
    {
      hide Count;
      if valid {
        LockExact(State(), t);
      }
      StepKeepsSafe(State(), Step.ReadLock(t));
      if !valid {
        return Invalid;
      }
      if wActive {
        rWait := rWait + 1;
        threads := threads[t := RSleep];
        return Waiting;
      }
      rActive := rActive + 1;
      threads := threads[t := Reading];
      return Success;
    }

    /** The wait loop of `rwl_readlock` from a wake-up to the next wait or to the return. */
    method ReadResume(t: Tid) returns (status: Status)
      requires Safe(State()) && Enabled(State(), Step.ReadResume(t))
      modifies this
      ensures State() == Apply(old(State()), Step.ReadResume(t)) && Safe(State())
      ensures threads == old(threads)[t := if ReaderBarred(old(threads)) then RSleep else Reading]
      ensures status == if Is(threads, t, Reading) then Success else Waiting
    {
      hide Count;
      ResumeExact(State(), t);
      StepKeepsSafe(State(), Step.ReadResume(t));
      if wActive {
        threads := threads[t := RSleep];
        return Waiting;
      }
      rWait := rWait - 1;
      rActive := rActive + 1;
      threads := threads[t := Reading];
      return Success;
    }

    /** `rwl_readtrylock` */
    method ReadTryLock(t: Tid) returns (status: Status)
      requires Safe(State()) && Enabled(State(), ReadTry(t))
      modifies this
      ensures State() == Apply(old(State()), ReadTry(t)) && Safe(State())
      ensures valid ==> threads == if ReaderBarred(old(threads)) then old(threads) else old(threads)[t := Reading]
      ensures status == if !valid then Invalid else if Is(threads, t, Reading) then Success else Busy
    {
      hide Count;
      Barred(State());
      StepKeepsSafe(State(), ReadTry(t));
      if !valid {
        return Invalid;
      }
      if wActive {
        return Busy;
      }
      rActive := rActive + 1;
      threads := threads[t := Reading];
      return Success;
    }

    /** `rwl_readunlock` */
    method ReadUnlock(t: Tid, ghost woken: Tid) returns (status: Status)
      requires Safe(State()) && Enabled(State(), Step.ReadUnlock(t, woken))
      modifies this
      ensures State() == Apply(old(State()), Step.ReadUnlock(t, woken)) && Safe(State())
      ensures ReaderLeft(old(threads), threads, t, woken)
      ensures status == if valid then Success else Invalid
    {
      hide Count;
      UnlockExact(State(), Step.ReadUnlock(t, woken));
      StepKeepsSafe(State(), Step.ReadUnlock(t, woken));
      if !valid {
        return Invalid;
      }
      rActive := rActive - 1;
      threads := threads - {t};
      if rActive == 0 && wWait > 0 {
        threads := Signal(threads, woken);
      }
      return Success;
    }

    /** `rwl_writelock` up to its return or its first wait. */
    method WriteLock(t: Tid) returns (status: Status)
      requires Safe(State()) && Enabled(State(), Step.WriteLock(t))
      modifies this
      ensures State() == Apply(old(State()), Step.WriteLock(t)) && Safe(State())
      ensures valid ==> threads == old(threads)[t := if WriterBarred(old(threads)) then WSleep else Writing]
      ensures status == if !valid then Invalid else if Is(threads, t, Writing) then Success else Waiting
    {
      hide Count;
      if valid {
        LockExact(State(), t);
      }
      StepKeepsSafe(State(), Step.WriteLock(t));
      if !valid {
        return Invalid;
      }
      if wActive || rActive > 0 {
        wWait := wWait + 1;
        threads := threads[t := WSleep];
        return Waiting;
      }
      wActive := true;
      threads := threads[t := Writing];
      return Success;
    }

    /** The wait loop of `rwl_writelock` from a wake-up to the next wait or to the return. */
    method WriteResume(t: Tid) returns (status: Status)
      requires Safe(State()) && Enabled(State(), Step.WriteResume(t))
      modifies this
      ensures State() == Apply(old(State()), Step.WriteResume(t)) && Safe(State())
      ensures threads == old(threads)[t := if WriterBarred(old(threads)) then WSleep else Writing]
      ensures status == if Is(threads, t, Writing) then Success else Waiting
    {
      hide Count;
      ResumeExact(State(), t);
      StepKeepsSafe(State(), Step.WriteResume(t));
      if wActive || rActive > 0 {
        threads := threads[t := WSleep];
        return Waiting;
      }
      wWait := wWait - 1;
      wActive := true;
      threads := threads[t := Writing];
      return Success;
    }

    /** `rwl_writetrylock` */
    method WriteTryLock(t: Tid) returns (status: Status)
      requires Safe(State()) && Enabled(State(), WriteTry(t))
      modifies this
      ensures State() == Apply(old(State()), WriteTry(t)) && Safe(State())
      ensures valid ==> threads == if WriterBarred(old(threads)) then old(threads) else old(threads)[t := Writing]
      ensures status == if !valid then Invalid else if Is(threads, t, Writing) then Success else Busy
    {
      hide Count;
      Barred(State());
      StepKeepsSafe(State(), WriteTry(t));
      if !valid {
        return Invalid;
      }
      if wActive || rActive > 0 {
        return Busy;
      }
      wActive := true;
      threads := threads[t := Writing];
      return Success;
    }

    /** `rwl_writeunlock` */
    method WriteUnlock(t: Tid, ghost woken: Tid) returns (status: Status)
      requires Safe(State()) && Enabled(State(), Step.WriteUnlock(t, woken))
      modifies this
      ensures State() == Apply(old(State()), Step.WriteUnlock(t, woken)) && Safe(State())
      ensures WriterLeft(old(threads), threads, t, woken)
      ensures status == if valid then Success else Invalid
    {
      hide Count;
      UnlockExact(State(), Step.WriteUnlock(t, woken));
      StepKeepsSafe(State(), Step.WriteUnlock(t, woken));
      if !valid {
        return Invalid;
      }
      wActive := false;
      threads := threads - {t};
      if rWait > 0 {
        threads := Broadcast(threads);
      } else if wWait > 0 {
        threads := Signal(threads, woken);
      }
      return Success;
    }

    /** `rwl_destroy` succeeds exactly if nobody holds the lock or waits for it. */
    method Destroy() returns (status: Status)
      requires Safe(State())
      modifies this
      ensures State() == Apply(old(State()), Step.Destroy) && Safe(State())
      ensures status == if !old(valid) then Invalid else if threads == map[] then Success else Busy
    {
      hide Count;
      DestroySafe(State());
      if !valid {
        return Invalid;
      }
      if rActive > 0 || wActive {
        return Busy;
      }
      if rWait != 0 || wWait != 0 {
        return Busy;
      }
      valid := false;
      return Success;
    }
  }
}
