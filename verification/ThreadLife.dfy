/** The life cycle of a thread object within one start: the thread that calls `Start`, the new thread,
    and any number of threads that call `Terminate`, in any order of their critical sections. */
module ThreadLife {

  type Tid = nat

  const CREATED := 0
  const START_REQUESTED := 1
  const START_IN_PROGRESS := 2
  const STARTED := 3
  const RUNNING := 4
  const TERMINATION_REQUESTED := 5
  const TERMINATED_RUN_METHOD := 6
  const TERMINATED := 7

  /** `SetState` without its hooks; `self` if the calling thread is the one the object stands for. */
  function NextState(state: nat, wanted: nat, self: bool): nat {
    if wanted == state + 1 then wanted
    else if wanted == TERMINATION_REQUESTED && state < TERMINATION_REQUESTED then
      if state == CREATED || state == START_REQUESTED then TERMINATED else wanted
    else if state == TERMINATED && wanted == CREATED then wanted
    else if (wanted == TERMINATED_RUN_METHOD || wanted == TERMINATED) && self then wanted
    else state
  }

  /** Does `SetState` report success? */
  predicate Accepts(state: nat, wanted: nat, self: bool) {
    || wanted == state + 1
    || (wanted == TERMINATION_REQUESTED && state < TERMINATION_REQUESTED)
    || (state == TERMINATED && wanted == CREATED)
    || ((wanted == TERMINATED_RUN_METHOD || wanted == TERMINATED) && self)
  }

  /** What `Start` does next: request the start, create the system thread, store its identity, report
      progress, report the start, or give up. */
  datatype Starter = Requesting | Creating | Storing | Progressing | Starting | GivingUp | Done

  /** Where the new thread is: not created yet, waiting for the start, about to announce that it runs,
      inside `Run`, about to announce that `Run` is over, about to announce its end, gone. */
  datatype Runner = NotCreated | AwaitingStart | Announcing | InRun | Ending | Exiting | Gone

  /** A caller of `Terminate`: its request is made, or it has returned. */
  datatype Caller = Requested | Returned(success: bool)

  /** `runs` counts how often `Run` was entered, `asked` tells whether a termination request has taken
      effect, `ended` whether some `Terminate` has returned true. */
  datatype Life = Life(state: nat, starter: Starter, runner: Runner, callers: map<Tid, Caller>,
                       runs: nat, asked: bool, ended: bool)

  datatype Step =
    | StarterStep
    | CreationFails
    | RunnerStep
    | RequestTermination(t: Tid)
    | TerminateReturns(t: Tid)

  function Init(): Life {
    Life(CREATED, Requesting, NotCreated, map[], 0, false, false)
  }

  predicate Enabled(s: Life, step: Step) {
    match step
    case StarterStep => s.starter != Done
    case CreationFails => s.starter == Creating
    case RunnerStep => s.runner != NotCreated && s.runner != Gone && (s.runner == AwaitingStart ==> s.state >= STARTED)
    case RequestTermination(t) => t !in s.callers
    case TerminateReturns(t) => t in s.callers && s.callers[t] == Requested
  }

  /** A request to terminate, by whomever. */
  function Ask(s: Life): Life {
    s.(state := NextState(s.state, TERMINATION_REQUESTED, false),
       asked := s.asked || Accepts(s.state, TERMINATION_REQUESTED, false))
  }

  function StarterNext(s: Life): Life {
    match s.starter
    case Requesting =>
      s.(state := NextState(s.state, START_REQUESTED, false),
         starter := if Accepts(s.state, START_REQUESTED, false) then Creating else GivingUp)
    case Creating => s.(runner := AwaitingStart, starter := Storing)
    case Storing => s.(starter := Progressing)
    case Progressing => s.(state := NextState(s.state, START_IN_PROGRESS, false), starter := Starting)
    case Starting => s.(state := NextState(s.state, STARTED, false), starter := Done)
    case GivingUp => Ask(s).(starter := Done)
    case Done => s
  }

  function RunnerNext(s: Life): Life {
    match s.runner
    case AwaitingStart => s.(runner := if s.state == STARTED then Announcing else Ending)
    case Announcing =>
      if Accepts(s.state, RUNNING, true) then
        s.(state := NextState(s.state, RUNNING, true), runner := InRun, runs := s.runs + 1)
      else s.(runner := Ending)
    case InRun => s.(runner := Ending)
    case Ending =>
      // the new thread recognises itself once the starting thread has stored its identity
      s.(state := NextState(s.state, TERMINATED_RUN_METHOD, s.starter != Storing), runner := Exiting)
    case Exiting => s.(state := NextState(s.state, TERMINATED, false), runner := Gone)
    case _ => s
  }

  function Apply(s: Life, step: Step): Life {
    match step
    case StarterStep => StarterNext(s)
    case CreationFails => s.(starter := Done)
    case RunnerStep => RunnerNext(s)
    case RequestTermination(t) => Ask(s).(callers := s.callers[t := Requested])
    case TerminateReturns(t) =>
      s.(callers := s.callers[t := Returned(s.state == TERMINATED)], ended := s.ended || s.state == TERMINATED)
  }

  // ---------------------------------------------------------------------------------------
  // Safety
  // ---------------------------------------------------------------------------------------

  /** How far the state can have got while the new thread does not act. */
  predicate BeforeRun(s: Life) {
    && (s.state <= STARTED || s.state == TERMINATION_REQUESTED || s.state == TERMINATED)
    && (s.state > START_REQUESTED && s.state <= STARTED ==> s.starter == Starting || s.starter == Done)
    && (s.starter == Storing ==> s.state == START_REQUESTED || s.state == TERMINATED)
    && (s.state == STARTED ==> s.starter == Done)
    && (s.asked <==> s.state >= TERMINATION_REQUESTED)
    && s.runs == 0
  }

  predicate Coherent(s: Life) {
    match s.runner
    case NotCreated =>
      && BeforeRun(s) && s.state != STARTED
      && (s.state == CREATED ==> s.starter == Requesting)
      && s.starter != Storing && s.starter != Progressing && s.starter != Starting
      && s.state != START_IN_PROGRESS && s.state != TERMINATION_REQUESTED
    case AwaitingStart =>
      BeforeRun(s) && s.state != CREATED && s.starter != Requesting && s.starter != Creating && s.starter != GivingUp
    case Announcing =>
      && (s.state == STARTED || s.state == TERMINATION_REQUESTED) && s.starter == Done && s.runs == 0
      && (s.asked <==> s.state == TERMINATION_REQUESTED)
    case InRun => (s.state == RUNNING || s.state == TERMINATION_REQUESTED) && s.starter == Done && s.runs == 1
    case Ending =>
      && s.state >= RUNNING && s.state != TERMINATED_RUN_METHOD && s.runs <= 1 && Started(s)
      && (s.starter == Storing ==> s.state == TERMINATED)
    case Exiting => (s.state == TERMINATED_RUN_METHOD || s.state == TERMINATED) && s.runs <= 1 && Started(s)
    case Gone => s.state == TERMINATED && s.runs <= 1 && Started(s)
  }

  /** The starting thread has nothing left to do that could matter. */
  predicate Started(s: Life) {
    s.starter == Storing || s.starter == Progressing || s.starter == Starting || s.starter == Done
  }

  /** `Run` is not executing and cannot be entered any more. */
  predicate RunIsOver(s: Life) {
    match s.runner
    case NotCreated => s.state == TERMINATED
    case AwaitingStart => s.state == TERMINATED
    case Announcing => false
    case InRun => false
    case _ => true
  }

  /** The state of a life that nobody has asked to end. */
  function Expected(starter: Starter, runner: Runner): nat {
    match runner
    case NotCreated => if starter == Requesting then CREATED else START_REQUESTED
    case AwaitingStart =>
      if starter == Done then STARTED else if starter == Starting then START_IN_PROGRESS else START_REQUESTED
    case Announcing => STARTED
    case InRun => RUNNING
    case Ending => RUNNING
    case Exiting => TERMINATED_RUN_METHOD
    case Gone => TERMINATED
  }

  /** Unless termination has been requested, the state tells exactly how far the two threads are, and the
      new thread does not end without having been in `Run`; and a request is not forgotten. */
  predicate OnCourse(s: Life) {
    && (s.asked ==> s.state >= TERMINATION_REQUESTED)
    && (!s.asked ==>
          && s.state == Expected(s.starter, s.runner) && s.starter != GivingUp
          && (s.runner == Ending || s.runner == Exiting || s.runner == Gone ==> s.runs == 1 && s.starter == Done))
  }

  predicate Safe(s: Life) {
    && Coherent(s) && OnCourse(s) && s.runs <= 1
    && (s.ended ==> RunIsOver(s))
    && forall t :: t in s.callers && s.callers[t] == Returned(true) ==> s.ended
  }

  lemma StarterKeepsSafe(s: Life)
    requires Safe(s) && s.starter != Done
    ensures Safe(StarterNext(s))
  {
  }

  lemma RunnerKeepsSafe(s: Life)
    requires Safe(s) && Enabled(s, RunnerStep)
    ensures Safe(RunnerNext(s))
  {
  }

  lemma CallersKeepSafe(s: Life, step: Step)
    requires Safe(s) && Enabled(s, step) && !step.StarterStep? && !step.RunnerStep?
    ensures Safe(Apply(s, step))
  {
  }

  lemma StepKeepsSafe(s: Life, step: Step)
    requires Safe(s) && Enabled(s, step)
    ensures Safe(Apply(s, step))
  {
    hide Safe, StarterNext, RunnerNext;
    match step
    case StarterStep => StarterKeepsSafe(s);
    case RunnerStep => RunnerKeepsSafe(s);
    case _ => CallersKeepSafe(s, step);
  }

  ghost predicate CanRun(s: Life, steps: seq<Step>)
    decreases |steps|
  {
    steps != [] ==> Enabled(s, steps[0]) && CanRun(Apply(s, steps[0]), steps[1..])
  }

  ghost function After(s: Life, steps: seq<Step>): Life
    decreases |steps|
  {
    if steps == [] then s else After(Apply(s, steps[0]), steps[1..])
  }

  lemma {:induction false} RunKeepsSafe(s: Life, steps: seq<Step>)
    requires Safe(s) && CanRun(s, steps)
    ensures Safe(After(s, steps))
    decreases |steps|
  {
    hide Safe, Apply;
    if steps != [] {
      StepKeepsSafe(s, steps[0]);
      RunKeepsSafe(Apply(s, steps[0]), steps[1..]);
    }
  }

  lemma EveryRunSafe(steps: seq<Step>)
    requires CanRun(Init(), steps)
    ensures Safe(After(Init(), steps))
  {
    RunKeepsSafe(Init(), steps);
  }

  /** `Run` is entered only by the step from eStarted to eRunning, for the first time, and never after
      a termination request has taken effect. */
  lemma EntryExact(s: Life, step: Step)
    requires Safe(s) && Enabled(s, step) && Apply(s, step).runs != s.runs
    ensures step.RunnerStep? && s.state == STARTED && Apply(s, step).state == RUNNING
    ensures s.runs == 0 && !s.asked && !s.ended
  {
  }

  /** `Run` is entered by that step whenever the new thread gets there before a request. */
  lemma EntersRun(s: Life)
    requires Safe(s) && (s.runner == AwaitingStart || s.runner == Announcing) && Enabled(s, RunnerStep) && !s.asked
    ensures Apply(s, RunnerStep).runner == if s.runner == Announcing then InRun else Announcing
  {
  }

  /** How many steps the two threads still have to take. */
  function StarterLeft(starter: Starter): nat {
    match starter
    case Requesting => 5
    case Creating => 4
    case Storing => 3
    case Progressing => 2
    case Starting => 1
    case GivingUp => 1
    case Done => 0
  }

  function RunnerLeft(runner: Runner): nat {
    match runner
    case NotCreated => 6
    case AwaitingStart => 5
    case Announcing => 4
    case InRun => 3
    case Ending => 2
    case Exiting => 1
    case Gone => 0
  }

  /** Starting thread and new thread come to their end in a bounded number of steps, whatever the others
      do in between, and the one never holds up the other for ever: once the start is over the new
      thread can always go on until it is gone. */
  lemma EveryStepCounts(s: Life, step: Step)
    requires Safe(s) && Enabled(s, step)
    ensures var s' := Apply(s, step);
      && StarterLeft(s'.starter) <= StarterLeft(s.starter) && RunnerLeft(s'.runner) <= RunnerLeft(s.runner)
      && (step.StarterStep? || step.CreationFails? ==> StarterLeft(s'.starter) < StarterLeft(s.starter))
      && (step.RunnerStep? ==> RunnerLeft(s'.runner) < RunnerLeft(s.runner))
    ensures s.starter == Done && s.runner != NotCreated && s.runner != Gone ==> Enabled(s, RunnerStep)
  {
    hide NextState, Accepts, Safe;
    if s.starter == Done && s.runner == AwaitingStart {
      StartIsOver(s);
    }
    if step.StarterStep? && s.starter == Creating {
      NotCreatedYet(s);
    }
  }

  lemma StartIsOver(s: Life)
    requires Safe(s) && s.starter == Done && s.runner == AwaitingStart
    ensures s.state >= STARTED
  {
  }

  lemma NotCreatedYet(s: Life)
    requires Safe(s) && s.starter == Creating
    ensures s.runner == NotCreated
  {
  }

  /** A request to terminate takes effect exactly if it comes before another one and before the end of
      `Run` was announced; it disturbs nobody but the state. */
  lemma RequestExact(s: Life, t: Tid)
    requires Safe(s) && Enabled(s, RequestTermination(t))
    ensures var s' := Apply(s, RequestTermination(t));
      && (s'.asked <==> s.asked || s.state < TERMINATION_REQUESTED) && s'.state >= TERMINATION_REQUESTED
      && (s'.state == TERMINATED <==> s.state == TERMINATED || s.state <= START_REQUESTED)
      && s' == s.(state := s'.state, asked := s'.asked, callers := s.callers[t := Requested])
  {
  }

  /** `Terminate` returns true exactly if the life is over, and it is once the new thread has gone. */
  lemma TerminateExact(s: Life, t: Tid)
    requires Safe(s) && Enabled(s, TerminateReturns(t))
    ensures var s' := Apply(s, TerminateReturns(t));
      && s'.callers == s.callers[t := Returned(s.state == TERMINATED)]
      && (s.runner == Gone ==> s'.callers[t] == Returned(true))
      && s'.state == s.state && s'.starter == s.starter && s'.runner == s.runner
      && s'.runs == s.runs && s'.asked == s.asked
  {
  }

  lemma AskedStays(s: Life, step: Step)
    requires Enabled(s, step) && s.asked
    ensures Apply(s, step).asked
  {
  }

  /** Once a termination request has taken effect before `Run`, it is never entered. */
  lemma {:induction false} AskedInTime(s: Life, steps: seq<Step>)
    requires Safe(s) && CanRun(s, steps) && s.asked && s.runs == 0
    ensures After(s, steps).runs == 0
    decreases |steps|
  {
    hide Safe, Apply;
    if steps != [] {
      StepKeepsSafe(s, steps[0]);
      AskedStays(s, steps[0]);
      if Apply(s, steps[0]).runs != s.runs {
        EntryExact(s, steps[0]);
      }
      AskedInTime(Apply(s, steps[0]), steps[1..]);
    }
  }

  /** Once `Terminate` has returned true, `Run` is not executing and never will be again. */
  lemma {:induction false} TerminatedForGood(s: Life, steps: seq<Step>, t: Tid)
    requires Safe(s) && CanRun(s, steps) && t in s.callers && s.callers[t] == Returned(true)
    ensures After(s, steps).runner != InRun && After(s, steps).runs == s.runs
    decreases |steps|
  {
    hide Coherent, NextState, Accepts;
    if steps != [] {
      StepKeepsSafe(s, steps[0]);
      if Apply(s, steps[0]).runs != s.runs {
        EntryExact(s, steps[0]);
      }
      TerminatedForGood(Apply(s, steps[0]), steps[1..], t);
    }
  }

  /** In every run of one start: `Run` is entered at most once, a request before it prevents it, and a
      successful `Terminate` means that it is over. */
  lemma EveryLife(steps: seq<Step>, k: nat, t: Tid)
    requires k <= |steps| && CanRun(Init(), steps)
    ensures CanRun(Init(), steps[..k])
    ensures var mid, end := After(Init(), steps[..k]), After(Init(), steps);
      && end.runs <= 1
      && (mid.asked && mid.runs == 0 ==> end.runs == 0)
      && (t in mid.callers && mid.callers[t] == Returned(true) ==> end.runner != InRun && end.runs == mid.runs)
  {
    hide Safe, Apply;
    RunSplit(Init(), steps, k);
    EveryRunSafe(steps[..k]);
    EveryRunSafe(steps);
    RunsAtMostOnce(After(Init(), steps));
    var mid := After(Init(), steps[..k]);
    if mid.asked && mid.runs == 0 {
      AskedInTime(mid, steps[k..]);
    }
    if t in mid.callers && mid.callers[t] == Returned(true) {
      TerminatedForGood(mid, steps[k..], t);
    }
  }

  lemma RunsAtMostOnce(s: Life)
    requires Safe(s)
    ensures s.runs <= 1
  {
  }

  lemma {:induction false} RunSplit(s: Life, steps: seq<Step>, k: nat)
    requires k <= |steps| && CanRun(s, steps)
    ensures CanRun(s, steps[..k]) && CanRun(After(s, steps[..k]), steps[k..])
    ensures After(After(s, steps[..k]), steps[k..]) == After(s, steps)
    decreases k
  {
    hide Apply;
    if k == 0 {
      assert steps[0..] == steps;
    } else {
      RunSplit(Apply(s, steps[0]), steps[1..], k - 1);
      assert steps[..k][1..] == steps[1..][..k - 1];
      assert steps[1..][k - 1..] == steps[k..];
    }
  }

  // ---------------------------------------------------------------------------------------
  // The state field
  // ---------------------------------------------------------------------------------------

  class ThreadState {
    var fState: nat

    constructor ()
      ensures fState == CREATED
    {
      fState := CREATED;
    }

    /** `SetState`, the hooks left out. A refusal changes nothing; a request to terminate always takes
        effect unless the thread is past it, and ends a thread that has not been created at once; before
        that the state only moves on one by one; and only the thread itself, or the re-use of a terminated
        object, can set it back. */
    method SetState(state: nat, self: bool) returns (ret: bool)
      modifies this
      ensures fState == NextState(old(fState), state, self) && ret == Accepts(old(fState), state, self)
      ensures !ret ==> fState == old(fState)
      ensures ret ==> fState == state || (state == TERMINATION_REQUESTED && fState == TERMINATED)
      ensures state == TERMINATION_REQUESTED ==> fState >= TERMINATION_REQUESTED
      ensures state == TERMINATION_REQUESTED && old(fState) <= START_REQUESTED ==> fState == TERMINATED
      ensures CREATED < state <= RUNNING && fState != old(fState) ==> fState == old(fState) + 1
      ensures state == old(fState) + 1 ==> ret
      ensures state == TERMINATION_REQUESTED ==> (ret <==> old(fState) < TERMINATION_REQUESTED)
      ensures old(fState) == TERMINATED && state == CREATED ==> ret
      ensures self && (state == TERMINATED_RUN_METHOD || state == TERMINATED) ==> ret
      ensures !self && ret ==>
        state == old(fState) + 1 || state == TERMINATION_REQUESTED || (old(fState) == TERMINATED && state == CREATED)
      ensures fState < old(fState) ==> self || (old(fState) == TERMINATED && state == CREATED)
    {
      ret := false;
      if state == fState + 1 {
        fState := state;
        ret := true;
      } else if state == TERMINATION_REQUESTED && fState < TERMINATION_REQUESTED {
        fState := if fState == CREATED || fState == START_REQUESTED then TERMINATED else state;
        ret := true;
      } else if fState == TERMINATED && state == CREATED {
        fState := state;
        ret := true;
      } else if state == TERMINATED_RUN_METHOD && self {
        fState := state;
        ret := true;
      } else if state == TERMINATED && self {
        fState := state;
        ret := true;
      }
    }
  }
}
