/** The worker pool: the running state of each worker under its state mutex, the reports that count its
    changes, and the guarded section in which a caller searches a ready worker and gives it work. */
module WorkerPool {

  datatype RunningState = Ready | Working

  /** Who holds a worker's state mutex: nobody, the worker itself while it becomes ready, the caller while
      it gives the worker work, or somebody who only looks, such as the worker waiting for work. */
  datatype Holder = Nobody | Leaver | Giver | Looker

  /** `counted`: the statistics count the worker as working. */
  datatype Worker = Worker(state: RunningState, counted: bool, holder: Holder)

  datatype Stat = Stat(current: int, max: int, total: int)

  /** The caller of `Enter` that holds the pool's mutex, if any: it waits for room, looks at worker `at`
      in its `probes`th probe counted from `start`, has found a worker, has set it to work, has reported
      that, or is about to leave. */
  datatype Enterer =
    | Outside
    | Inside
    | Scanning(start: nat, at: nat, probes: nat)
    | Chosen(i: nat)
    | Reporting(i: nat)
    | Releasing(i: nat)
    | Finished

  datatype Pool = Pool(workers: seq<Worker>, stat: Stat, enterer: Enterer)

  datatype Event = Enter | Leave

  /** Steps of the caller in its section, where `Lock` and `Unlock` also stand for the wait for room, which
      gives the mutex up; then those of a worker that becomes ready, and of anybody who looks. */
  datatype Step =
    | Lock
    | Unlock
    | BeginScan(hint: int)
    | Probe
    | SetWorking
    | HandleEnter
    | ReleaseEnter
    | SetReady(i: nat)
    | HandleLeave(i: nat)
    | ReleaseLeave(i: nat)
    | Look(i: nat)
    | EndLook(i: nat)

  function Init(n: nat): Pool {
    Pool(seq(n, i => Worker(Ready, false, Nobody)), Stat(0, 0, 0), Outside)
  }

  function Max(a: int, b: int): int {
    if a < b then b else a
  }

  /** `DoHandleStatEvt` without its timer. */
  function Handled(stat: Stat, evt: Event): Stat {
    match evt
    case Enter => Stat(stat.current + 1, Max(stat.max, stat.current + 1), stat.total)
    case Leave => Stat(stat.current - 1, stat.max, stat.total + 1)
  }

  /** What `IsReady` answers: a worker whose state mutex is held cannot be asked. */
  predicate IsReady(w: Worker) {
    w.state == Ready && w.holder == Nobody
  }

  /** The worker is ready and its last request has been counted out. */
  predicate IsFree(w: Worker) {
    w.state == Ready && !w.counted
  }

  /** Where the search starts. */
  function StartOf(hint: int, current: int, size: nat): nat
    requires size > 0 && current >= 0
  {
    if hint < 0 then (current + 1) % size else hint % size
  }

  predicate Enabled(s: Pool, step: Step) {
    var n := |s.workers|;
    match step
    case Lock => s.enterer == Outside
    case Unlock => s.enterer == Inside || s.enterer == Finished
    case BeginScan(_) => s.enterer == Inside && 0 <= s.stat.current < n
    case Probe => s.enterer.Scanning? && s.enterer.at < n
    case SetWorking => s.enterer.Chosen? && s.enterer.i < n && s.workers[s.enterer.i].holder == Nobody
    case HandleEnter => s.enterer.Reporting? && s.enterer.i < n
    case ReleaseEnter => s.enterer.Releasing? && s.enterer.i < n
    case SetReady(i) => i < n && s.workers[i].state == Working && s.workers[i].holder == Nobody
    case HandleLeave(i) => i < n && s.workers[i].holder == Leaver && s.workers[i].counted
    case ReleaseLeave(i) => i < n && s.workers[i].holder == Leaver && !s.workers[i].counted
    case Look(i) => i < n && s.workers[i].holder == Nobody
    case EndLook(i) => i < n && s.workers[i].holder == Looker
  }

  function Put(s: Pool, i: nat, w: Worker): Pool
    requires i < |s.workers|
  {
    s.(workers := s.workers[i := w])
  }

  function Apply(s: Pool, step: Step): Pool
    requires Enabled(s, step)
  {
    match step
    case Lock => s.(enterer := Inside)
    case Unlock => s.(enterer := Outside)
    case BeginScan(hint) =>
      var start := StartOf(hint, s.stat.current, |s.workers|);
      s.(enterer := Scanning(start, start, 0))
    case Probe =>
      var Scanning(start, at, probes) := s.enterer;
      if IsReady(s.workers[at]) then s.(enterer := Chosen(at))
      else s.(enterer := Scanning(start, (at + 1) % |s.workers|, probes + 1))
    case SetWorking =>
      var i := s.enterer.i;
      if s.workers[i].state == Working then s.(enterer := Finished)
      else Put(s, i, s.workers[i].(state := Working, holder := Giver)).(enterer := Reporting(i))
    case HandleEnter =>
      var i := s.enterer.i;
      Put(s, i, s.workers[i].(counted := true)).(stat := Handled(s.stat, Enter), enterer := Releasing(i))
    case ReleaseEnter => Put(s, s.enterer.i, s.workers[s.enterer.i].(holder := Nobody)).(enterer := Finished)
    case SetReady(i) => Put(s, i, s.workers[i].(state := Ready, holder := Leaver))
    case HandleLeave(i) => Put(s, i, s.workers[i].(counted := false)).(stat := Handled(s.stat, Leave))
    case ReleaseLeave(i) => Put(s, i, s.workers[i].(holder := Nobody))
    case Look(i) => Put(s, i, s.workers[i].(holder := Looker))
    case EndLook(i) => Put(s, i, s.workers[i].(holder := Nobody))
  }

  // ---------------------------------------------------------------------------------------
  // Occupancy
  // ---------------------------------------------------------------------------------------

  function Counted(ws: seq<Worker>): nat {
    if ws == [] then 0 else Counted(ws[..|ws| - 1]) + (if ws[|ws| - 1].counted then 1 else 0)
  }

  function WorkingCount(ws: seq<Worker>): nat {
    if ws == [] then 0 else WorkingCount(ws[..|ws| - 1]) + (if ws[|ws| - 1].state == Working then 1 else 0)
  }

  /** No change of state is being reported. */
  ghost predicate Quiet(ws: seq<Worker>) {
    forall i :: 0 <= i < |ws| ==> ws[i].holder != Leaver && ws[i].holder != Giver
  }

  /** A worker is counted exactly while it works, but for the reports under way: one that becomes ready
      may still be counted, and one that is given work may not be counted yet. */
  predicate Coherent(w: Worker, i: nat, e: Enterer) {
    match w.holder
    case Nobody => w.counted == (w.state == Working)
    case Looker => w.counted == (w.state == Working)
    case Leaver => w.state == Ready
    case Giver => w.state == Working && e == if w.counted then Releasing(i) else Reporting(i)
  }

  ghost predicate AllCoherent(ws: seq<Worker>, e: Enterer) {
    forall i :: 0 <= i < |ws| ==> Coherent(ws[i], i, e)
  }

  ghost predicate SomeFree(ws: seq<Worker>) {
    exists k :: 0 <= k < |ws| && IsFree(ws[k])
  }

  /** What the caller may rely on in its section: while it searches some worker is free, the worker it has
      chosen stays free, and the one it has set to work stays that way until it is reported. */
  ghost predicate Guarded(ws: seq<Worker>, e: Enterer) {
    match e
    case Scanning(start, at, probes) => start < |ws| && at == Asked(start, probes, |ws|) && SomeFree(ws)
    case Chosen(i) => i < |ws| && IsFree(ws[i])
    case Reporting(i) => i < |ws| && ws[i] == Worker(Working, false, Giver)
    case Releasing(i) => i < |ws| && ws[i] == Worker(Working, true, Giver)
    case _ => true
  }

  ghost predicate Safe(s: Pool) {
    && s.stat.current == Counted(s.workers) && s.stat.current <= s.stat.max
    && AllCoherent(s.workers, s.enterer) && Guarded(s.workers, s.enterer)
  }

  lemma {:induction false} CountedUpdate(ws: seq<Worker>, i: nat, w: Worker)
    requires i < |ws|
    ensures Counted(ws[i := w]) == Counted(ws) - (if ws[i].counted then 1 else 0) + (if w.counted then 1 else 0)
  {
    var n := |ws| - 1;
    if i == n {
      assert ws[i := w][..n] == ws[..n];
    } else {
      assert ws[i := w][..n] == ws[..n][i := w];
      CountedUpdate(ws[..n], i, w);
    }
  }

  lemma {:induction false} CountedBound(ws: seq<Worker>)
    ensures Counted(ws) <= |ws|
    ensures Counted(ws) < |ws| <==> exists i :: 0 <= i < |ws| && !ws[i].counted
  {
    if ws != [] {
      var n := |ws| - 1;
      CountedBound(ws[..n]);
      if Counted(ws) < |ws| && ws[n].counted {
        var i :| 0 <= i < n && !ws[..n][i].counted;
        assert !ws[i].counted;
      }
      if i :| 0 <= i < |ws| && !ws[i].counted {
        if i < n {
          assert !ws[..n][i].counted;
        }
      }
    }
  }

  lemma {:induction false} QuietCount(ws: seq<Worker>, e: Enterer)
    requires Quiet(ws) && AllCoherent(ws, e)
    ensures Counted(ws) == WorkingCount(ws)
  {
    if ws != [] {
      var n := |ws| - 1;
      assert Coherent(ws[n], n, e);
      forall i | 0 <= i < n
        ensures Coherent(ws[..n][i], i, e)
      {
        assert Coherent(ws[i], i, e);
      }
      QuietCount(ws[..n], e);
    }
  }

  /** Unless a caller is just reporting, there is room exactly if some worker is free. */
  lemma RoomMeansFree(s: Pool)
    requires Safe(s) && !s.enterer.Reporting?
    ensures s.stat.current < |s.workers| <==> SomeFree(s.workers)
  {
    hide Counted;
    CountedBound(s.workers);
    if s.stat.current < |s.workers| {
      var k :| 0 <= k < |s.workers| && !s.workers[k].counted;
      assert Coherent(s.workers[k], k, s.enterer);
      assert IsFree(s.workers[k]);
    }
    if SomeFree(s.workers) {
      var k :| 0 <= k < |s.workers| && IsFree(s.workers[k]);
      assert !s.workers[k].counted;
    }
  }

  /** A worker that answers ready is exactly a free one whose state mutex nobody holds. */
  lemma ReadyMeansFree(s: Pool, k: nat)
    requires Safe(s) && k < |s.workers|
    ensures IsReady(s.workers[k]) <==> IsFree(s.workers[k]) && s.workers[k].holder == Nobody
  {
    assert Coherent(s.workers[k], k, s.enterer);
  }

  // ---------------------------------------------------------------------------------------
  // Going round
  // ---------------------------------------------------------------------------------------

  function Next(a: nat, size: nat): nat
    requires a < size
  {
    if a + 1 == size then 0 else a + 1
  }

  /** The worker looked at in a probe. */
  function Asked(start: nat, probe: nat, size: nat): (a: nat)
    requires start < size
    ensures a < size
  {
    if probe == 0 then start else Next(Asked(start, probe - 1, size), size)
  }

  /** How many probes after the one at `a` worker `k` is looked at. */
  function Distance(a: nat, k: nat, size: nat): nat
    requires a < size && k < size
  {
    if a <= k then k - a else k + size - a
  }

  lemma NextIs(a: nat, size: nat)
    requires a < size
    ensures (a + 1) % size == Next(a, size)
  {
  }

  /** In any round of `size` probes every worker is looked at exactly once. */
  lemma {:induction false} AskedIn(start: nat, from: nat, j: nat, size: nat)
    requires start < size && j < size
    ensures Distance(Asked(start, from, size), Asked(start, from + j, size), size) == j
    decreases j
  {
    if j > 0 {
      AskedIn(start, from, j - 1, size);
    }
  }

  lemma AskedOnce(start: nat, from: nat, k: nat, size: nat)
    requires start < size && k < size
    ensures Distance(Asked(start, from, size), k, size) < size
    ensures Asked(start, from + Distance(Asked(start, from, size), k, size), size) == k
  {
    AskedIn(start, from, Distance(Asked(start, from, size), k, size), size);
  }

  // ---------------------------------------------------------------------------------------
  // Every step keeps it
  // ---------------------------------------------------------------------------------------

  /** Steps of the workers and of those who look, the caller standing still. */
  predicate ByOthers(step: Step) {
    step.SetReady? || step.HandleLeave? || step.ReleaseLeave? || step.Look? || step.EndLook?
  }

  /** A free worker stays free whatever the others do: only the caller gives work. */
  lemma OthersKeepFree(s: Pool, step: Step, k: nat)
    requires Enabled(s, step) && ByOthers(step) && k < |s.workers| && IsFree(s.workers[k])
    ensures |Apply(s, step).workers| == |s.workers| && IsFree(Apply(s, step).workers[k])
  {
  }

  lemma OthersSafe(s: Pool, step: Step)
    requires Safe(s) && Enabled(s, step) && ByOthers(step)
    ensures Safe(Apply(s, step))
  {
    hide Counted;
    var ws, s' := s.workers, Apply(s, step);
    assert Coherent(ws[step.i], step.i, s.enterer);
    CountedUpdate(ws, step.i, s'.workers[step.i]);
    forall i | 0 <= i < |ws|
      ensures Coherent(s'.workers[i], i, s.enterer)
    {
      assert Coherent(ws[i], i, s.enterer);
    }
    OthersGuard(s, step);
  }

  lemma OthersGuard(s: Pool, step: Step)
    requires Safe(s) && Enabled(s, step) && ByOthers(step)
    ensures Guarded(Apply(s, step).workers, s.enterer)
  {
    hide Counted;
    match s.enterer
    case Scanning(start, at, probes) =>
      var k :| 0 <= k < |s.workers| && IsFree(s.workers[k]);
      OthersKeepFree(s, step, k);
    case Chosen(i) => OthersKeepFree(s, step, i);
    case _ =>
  }

  lemma SearchSafe(s: Pool, step: Step)
    requires Safe(s) && Enabled(s, step) && (step.Lock? || step.Unlock? || step.BeginScan? || step.Probe?)
    ensures Safe(Apply(s, step))
  {
    hide Counted;
    var ws, s' := s.workers, Apply(s, step);
    forall i | 0 <= i < |ws|
      ensures Coherent(s'.workers[i], i, s'.enterer)
    {
      assert Coherent(ws[i], i, s.enterer);
    }
    if step.BeginScan? {
      RoomMeansFree(s);
    }
    if step.Probe? {
      NextIs(s.enterer.at, |ws|);
      ReadyMeansFree(s, s.enterer.at);
    }
  }

  lemma GiveSafe(s: Pool, step: Step)
    requires Safe(s) && Enabled(s, step) && (step.SetWorking? || step.HandleEnter? || step.ReleaseEnter?)
    ensures Safe(Apply(s, step))
  {
    hide Counted;
    var ws, s' := s.workers, Apply(s, step);
    CountedUpdate(ws, s.enterer.i, s'.workers[s.enterer.i]);
    forall i | 0 <= i < |ws|
      ensures Coherent(s'.workers[i], i, s'.enterer)
    {
      assert Coherent(ws[i], i, s.enterer);
    }
  }

  lemma StepKeepsSafe(s: Pool, step: Step)
    requires Safe(s) && Enabled(s, step)
    ensures Safe(Apply(s, step)) && |Apply(s, step).workers| == |s.workers|
  {
    hide Safe;
    if ByOthers(step) {
      OthersSafe(s, step);
    } else if step.SetWorking? || step.HandleEnter? || step.ReleaseEnter? {
      GiveSafe(s, step);
    } else {
      SearchSafe(s, step);
    }
  }

  // ---------------------------------------------------------------------------------------
  // What each step does
  // ---------------------------------------------------------------------------------------

  /** How many steps are left until the worker's state mutex is given up. */
  function HoldLeft(w: Worker): nat {
    match w.holder
    case Nobody => 0
    case Looker => 1
    case Leaver => if w.counted then 2 else 1
    case Giver => if w.counted then 1 else 2
  }

  /** The worker that a step is about. */
  predicate Concerns(s: Pool, step: Step, i: nat) {
    match step
    case SetWorking => s.enterer == Chosen(i)
    case HandleEnter => s.enterer == Reporting(i)
    case ReleaseEnter => s.enterer == Releasing(i)
    case SetReady(k) => i == k
    case HandleLeave(k) => i == k
    case ReleaseLeave(k) => i == k
    case Look(k) => i == k
    case EndLook(k) => i == k
    case _ => false
  }

  /** A step concerns at most one worker. A worker that is set to work or becomes ready does so at once;
      whoever holds its state mutex then goes on to give it up, the report being handled on the way. */
  lemma WorkerExact(s: Pool, step: Step, i: nat)
    requires Safe(s) && Enabled(s, step) && i < |s.workers|
    ensures |Apply(s, step).workers| == |s.workers|
    ensures var w, w' := s.workers[i], Apply(s, step).workers[i];
      && (!Concerns(s, step, i) ==> w' == w)
      && (Concerns(s, step, i) ==>
            && (step.SetWorking? || step.SetReady? || step.Look? ==> w.holder == Nobody && HoldLeft(w') > 0)
            && (!step.SetWorking? && !step.SetReady? && !step.Look? ==> HoldLeft(w') == HoldLeft(w) - 1)
            && w'.state == (if step.SetWorking? then Working else if step.SetReady? then Ready else w.state)
            && w'.counted == (if step.HandleEnter? then true else if step.HandleLeave? then false else w.counted))
  {
    assert Coherent(s.workers[i], i, s.enterer);
  }

  /** The caller goes through its section in order: it searches, takes the worker that answers, always
      succeeds in setting it to work, reports that, and leaves. */
  lemma CallerExact(s: Pool, step: Step)
    requires Safe(s) && Enabled(s, step)
    ensures var e, e' := s.enterer, Apply(s, step).enterer;
      match step
      case Lock => e' == Inside
      case Unlock => e' == Outside
      case BeginScan(hint) =>
        e'.Scanning? && e'.at == e'.start == StartOf(hint, s.stat.current, |s.workers|) && e'.probes == 0
      case Probe =>
        if IsFree(s.workers[e.at]) && s.workers[e.at].holder == Nobody then e' == Chosen(e.at)
        else e'.Scanning? && e'.start == e.start && e'.probes == e.probes + 1
      case SetWorking => e' == Reporting(e.i)
      case HandleEnter => e' == Releasing(e.i)
      case ReleaseEnter => e' == Finished
      case _ => e' == e
  {
    if step.Probe? {
      ReadyMeansFree(s, s.enterer.at);
    }
  }

  // ---------------------------------------------------------------------------------------
  // Whole runs
  // ---------------------------------------------------------------------------------------

  ghost predicate CanRun(s: Pool, steps: seq<Step>)
    decreases |steps|
  {
    steps != [] ==> Enabled(s, steps[0]) && CanRun(Apply(s, steps[0]), steps[1..])
  }

  ghost function After(s: Pool, steps: seq<Step>): Pool
    requires CanRun(s, steps)
    decreases |steps|
  {
    if steps == [] then s else After(Apply(s, steps[0]), steps[1..])
  }

  /** The highest count that occurs in the course of a run. */
  ghost function Peak(s: Pool, steps: seq<Step>): int
    requires CanRun(s, steps)
    decreases |steps|
  {
    if steps == [] then s.stat.current else Max(s.stat.current, Peak(Apply(s, steps[0]), steps[1..]))
  }

  /** How many reports of a kind are handled in a run. */
  ghost function Number(steps: seq<Step>, evt: Event): nat {
    if steps == [] then 0
    else
      (if (if evt == Enter then steps[0].HandleEnter? else steps[0].HandleLeave?) then 1 else 0)
      + Number(steps[1..], evt)
  }

  lemma {:induction false} RunKeepsSafe(s: Pool, steps: seq<Step>)
    requires Safe(s) && CanRun(s, steps)
    ensures var s' := After(s, steps);
      && Safe(s') && |s'.workers| == |s.workers|
      && s'.stat.max == Max(s.stat.max, Peak(s, steps))
      && s'.stat.total == s.stat.total + Number(steps, Leave)
      && s'.stat.current == s.stat.current + Number(steps, Enter) - Number(steps, Leave)
    decreases |steps|
  {
    hide Counted, Guarded, AllCoherent;
    if steps != [] {
      StepKeepsSafe(s, steps[0]);
      RunKeepsSafe(Apply(s, steps[0]), steps[1..]);
    }
  }

  lemma {:induction false} InitCount(n: nat)
    ensures Counted(Init(n).workers) == 0
  {
    if n > 0 {
      assert Init(n).workers[..n - 1] == Init(n - 1).workers;
      InitCount(n - 1);
    }
  }

  lemma PeakAtStart(s: Pool, steps: seq<Step>)
    requires CanRun(s, steps)
    ensures Peak(s, steps) >= s.stat.current
  {
  }

  /** In every run the count stays between 0 and the pool size, the recorded maximum is its running
      maximum, every request that left was counted, and the count is the number of working workers
      whenever no report is under way. */
  lemma EveryRunCounts(n: nat, steps: seq<Step>)
    requires CanRun(Init(n), steps)
    ensures var s' := After(Init(n), steps);
      && Safe(s') && |s'.workers| == n && 0 <= s'.stat.current <= n
      && s'.stat.max == Peak(Init(n), steps)
      && s'.stat.total == Number(steps, Leave)
      && s'.stat.current == Number(steps, Enter) - Number(steps, Leave)
      && (Quiet(s'.workers) ==> s'.stat.current == WorkingCount(s'.workers))
  {
    hide Counted, Quiet, WorkingCount, Peak;
    InitCount(n);
    RunKeepsSafe(Init(n), steps);
    PeakAtStart(Init(n), steps);
    var s' := After(Init(n), steps);
    CountedBound(s'.workers);
    if Quiet(s'.workers) {
      QuietCount(s'.workers, s'.enterer);
    }
  }

  /** In every run, while a caller searches some worker is free and the search is at the worker that its
      number of probes says; what it chooses is free, and stays so until the caller sets it to work. */
  lemma EverySearch(n: nat, steps: seq<Step>)
    requires CanRun(Init(n), steps)
    ensures var s' := After(Init(n), steps);
      && (s'.enterer.Scanning? ==>
            && SomeFree(s'.workers) && s'.enterer.start < |s'.workers|
            && s'.enterer.at == Asked(s'.enterer.start, s'.enterer.probes, |s'.workers|))
      && (s'.enterer.Chosen? ==> s'.enterer.i < |s'.workers| && IsFree(s'.workers[s'.enterer.i]))
  {
    hide Counted, Peak;
    EveryRunCounts(n, steps);
  }

  // ---------------------------------------------------------------------------------------
  // How long a search takes
  // ---------------------------------------------------------------------------------------

  ghost predicate OnlyOthers(steps: seq<Step>) {
    forall i :: 0 <= i < |steps| ==> ByOthers(steps[i])
  }

  /** `s'` comes from `s` by steps of others than the caller. */
  ghost predicate OthersRan(s: Pool, s': Pool) {
    exists steps: seq<Step> :: OnlyOthers(steps) && CanRun(s, steps) && After(s, steps) == s'
  }

  /** The pool as a searching caller sees it from probe to probe. */
  ghost predicate Seen(pools: nat -> Pool) {
    Safe(pools(0)) && forall p: nat :: OthersRan(pools(p), pools(p + 1))
  }

  lemma {:induction false} FreeStays(s: Pool, steps: seq<Step>, k: nat)
    requires Safe(s) && OnlyOthers(steps) && CanRun(s, steps)
    ensures var s' := After(s, steps);
      && Safe(s') && |s'.workers| == |s.workers|
      && (k < |s.workers| && IsFree(s.workers[k]) ==> IsFree(s'.workers[k]))
    decreases |steps|
  {
    hide Safe;
    if steps != [] {
      StepKeepsSafe(s, steps[0]);
      if k < |s.workers| && IsFree(s.workers[k]) {
        OthersKeepFree(s, steps[0], k);
      }
      assert forall i :: 0 <= i < |steps[1..]| ==> steps[1..][i] == steps[i + 1];
      FreeStays(Apply(s, steps[0]), steps[1..], k);
    }
  }

  /** What is free at one probe is free at all later ones. */
  lemma {:induction false} FreeAllAlong(pools: nat -> Pool, from: nat, p: nat, k: nat)
    requires Seen(pools) && from <= p
    ensures Safe(pools(p)) && |pools(p).workers| == |pools(0).workers| == |pools(from).workers|
    ensures k < |pools(from).workers| && IsFree(pools(from).workers[k]) ==> IsFree(pools(p).workers[k])
    decreases p
  {
    hide IsFree, CanRun, After, Safe;
    if p > 0 {
      var q := p - 1;
      FreeAllAlong(pools, if from < p then from else q, q, k);
      assert OthersRan(pools(q), pools(q + 1));
      var steps :| OnlyOthers(steps) && CanRun(pools(q), steps) && After(pools(q), steps) == pools(p);
      FreeStays(pools(q), steps, k);
    }
  }

  /** The worker asked in probe `p` answers that it is ready. */
  ghost predicate Answers(pools: nat -> Pool, start: nat, size: nat, p: nat)
    requires start < size
  {
    var k := Asked(start, p, size);
    k < |pools(p).workers| && IsReady(pools(p).workers[k])
  }

  /** Worker `k`, asked in probe `p`, is free and its state mutex is not held. */
  ghost predicate FreeWhenAsked(pools: nat -> Pool, p: nat, k: nat) {
    k < |pools(p).workers| && IsFree(pools(p).workers[k]) && pools(p).workers[k].holder == Nobody
  }

  /** Some worker is free and not held when it is asked in the round that begins with probe `from`. */
  ghost predicate FreeInRound(pools: nat -> Pool, start: nat, size: nat, from: nat)
    requires start < size
  {
    exists k :: 0 <= k < size && FreeWhenAsked(pools, from + Distance(Asked(start, from, size), k, size), k)
  }

  /** Some probe of that round is answered. */
  ghost predicate AnsweredInRound(pools: nat -> Pool, start: nat, size: nat, from: nat)
    requires start < size
  {
    exists p :: from <= p < from + size && Answers(pools, start, size, p)
  }

  /** From any point of a search there is a free worker, the same one in every later round, and the search
      ends within the next pool-size probes exactly if some free worker's state mutex is not held when it
      is asked. */
  lemma RoundEndsExactly(pools: nat -> Pool, start: nat, from: nat)
    requires Seen(pools) && pools(0).enterer.Scanning? && start < |pools(0).workers|
    ensures SomeFree(pools(from).workers)
    ensures AnsweredInRound(pools, start, |pools(0).workers|, from) <==>
      FreeInRound(pools, start, |pools(0).workers|, from)
  {
    hide Seen, AnsweredInRound, FreeInRound, SomeFree;
    var size := |pools(0).workers|;
    SearchHasFree(pools, from);
    if AnsweredInRound(pools, start, size, from) {
      AnsweredByFree(pools, start, size, from);
    }
    if FreeInRound(pools, start, size, from) {
      FreeAnswers(pools, start, size, from);
    }
  }

  lemma AnsweredByFree(pools: nat -> Pool, start: nat, size: nat, from: nat)
    requires Seen(pools) && start < size == |pools(0).workers| && AnsweredInRound(pools, start, size, from)
    ensures FreeInRound(pools, start, size, from)
  {
    hide Safe, Seen, Asked, Distance;
    var p :| from <= p < from + size && Answers(pools, start, size, p);
    var k := Asked(start, p, size);
    AskedIn(start, from, p - from, size);
    FreeAllAlong(pools, 0, p, k);
    ReadyMeansFree(pools(p), k);
    assert FreeWhenAsked(pools, from + Distance(Asked(start, from, size), k, size), k);
  }

  lemma FreeAnswers(pools: nat -> Pool, start: nat, size: nat, from: nat)
    requires start < size && FreeInRound(pools, start, size, from)
    ensures AnsweredInRound(pools, start, size, from)
  {
    hide Asked, Distance;
    var k :| 0 <= k < size && FreeWhenAsked(pools, from + Distance(Asked(start, from, size), k, size), k);
    AskedOnce(start, from, k, size);
    assert Answers(pools, start, size, from + Distance(Asked(start, from, size), k, size));
  }

  lemma SearchHasFree(pools: nat -> Pool, p: nat)
    requires Seen(pools) && pools(0).enterer.Scanning?
    ensures SomeFree(pools(p).workers)
  {
    var k :| 0 <= k < |pools(0).workers| && IsFree(pools(0).workers[k]);
    FreeAllAlong(pools, 0, p, k);
  }

  /** The scan of `FindNextRunnable`, entered when there is room. It goes on until a worker answers; `end`
      names a probe at which one does. It ends at the first such probe, at a worker that is free, and
      within the first round exactly if some free worker's state mutex is not held when it is asked. */
  method FindNextRunnable(hint: int, size: nat, pools: nat -> Pool, ghost end: nat)
      returns (worker: nat, probes: nat)
    requires Seen(pools) && pools(0).enterer.Scanning? && size == |pools(0).workers|
    requires 0 <= pools(0).stat.current < size
    requires Answers(pools, StartOf(hint, pools(0).stat.current, size), size, end)
    ensures var start := StartOf(hint, pools(0).stat.current, size);
      && worker == Asked(start, probes, size) && worker < |pools(probes).workers|
      && IsFree(pools(probes).workers[worker]) && pools(probes).workers[worker].holder == Nobody
      && (forall p :: 0 <= p < probes ==> !Answers(pools, start, size, p))
      && (probes < size <==> FreeInRound(pools, start, size, 0))
  {
    hide Safe, Seen, Counted, FreeInRound;
    var current := pools(0).stat.current;
    var start := if hint < 0 then (current + 1) % size else hint % size;
    worker, probes := start, 0;
    FreeAllAlong(pools, 0, 0, worker);
    while !IsReady(pools(probes).workers[worker])
      invariant worker == Asked(start, probes, size) && |pools(probes).workers| == size && probes <= end
      invariant forall p :: 0 <= p < probes ==> !Answers(pools, start, size, p)
      decreases end - probes
    {
      NextIs(worker, size);
      worker := worker + 1;
      worker := worker % size;
      probes := probes + 1;
      FreeAllAlong(pools, 0, probes, worker);
    }
    FreeAllAlong(pools, 0, probes, worker);
    ReadyMeansFree(pools(probes), worker);
    assert Answers(pools, start, size, probes);
    RoundEndsExactly(pools, start, 0);
  }

  // ---------------------------------------------------------------------------------------
  // Two runs
  // ---------------------------------------------------------------------------------------

  lemma {:induction false} OneMore(s: Pool, steps: seq<Step>, step: Step)
    requires CanRun(s, steps) && Enabled(After(s, steps), step)
    ensures CanRun(s, steps + [step]) && After(s, steps + [step]) == Apply(After(s, steps), step)
    decreases |steps|
  {
    hide Apply;
    if steps == [] {
      assert [step][1..] == [];
    } else {
      assert (steps + [step])[1..] == steps[1..] + [step];
      OneMore(Apply(s, steps[0]), steps[1..], step);
    }
  }

  /** A caller in a pool of one worker sets it to work. */
  function Given(): seq<Step> {
    [Lock] + [BeginScan(-1)] + [Probe] + [SetWorking]
  }

  /** Readers outside the section can see a count that lags behind: the only worker has been given work,
      and this is not counted yet. */
  lemma CountLags()
    ensures CanRun(Init(1), Given())
    ensures After(Init(1), Given()) == Pool([Worker(Working, false, Giver)], Stat(0, 0, 0), Reporting(0))
  {
    OneMore(Init(1), [], Lock);
    assert [] + [Lock] == [Lock];
    OneMore(Init(1), [Lock], BeginScan(-1));
    OneMore(Init(1), [Lock] + [BeginScan(-1)], Probe);
    OneMore(Init(1), [Lock] + [BeginScan(-1)] + [Probe], SetWorking);
  }

  /** The worker has finished and has been counted out, but still holds its state mutex; a caller sees room
      and asks it. */
  function AskedTooEarly(): seq<Step> {
    Given() + [HandleEnter] + [ReleaseEnter] + [Unlock] + [SetReady(0)] + [HandleLeave(0)]
    + [Lock] + [BeginScan(-1)] + [Probe]
  }

  /** A search can take more probes than there are workers: here one probe of a pool of one worker has
      gone by without an answer. */
  lemma FirstRoundCanFail()
    ensures CanRun(Init(1), AskedTooEarly())
    ensures After(Init(1), AskedTooEarly()) ==
      Pool([Worker(Ready, false, Leaver)], Stat(0, 1, 1), Scanning(0, 0, 1))
  {
    hide After, CanRun;
    CountLags();
    var g := Given();
    OneMore(Init(1), g, HandleEnter);
    OneMore(Init(1), g + [HandleEnter], ReleaseEnter);
    OneMore(Init(1), g + [HandleEnter] + [ReleaseEnter], Unlock);
    var h := g + [HandleEnter] + [ReleaseEnter] + [Unlock];
    OneMore(Init(1), h, SetReady(0));
    OneMore(Init(1), h + [SetReady(0)], HandleLeave(0));
    var f := h + [SetReady(0)] + [HandleLeave(0)];
    assert After(Init(1), f) == Pool([Worker(Ready, false, Leaver)], Stat(0, 1, 1), Outside);
    OneMore(Init(1), f, Lock);
    OneMore(Init(1), f + [Lock], BeginScan(-1));
    OneMore(Init(1), f + [Lock] + [BeginScan(-1)], Probe);
  }

  // ---------------------------------------------------------------------------------------
  // The statistics
  // ---------------------------------------------------------------------------------------

  class WPMStatHandler {
    var fCurrentParallelRequests: int
    var fMaxParallelRequests: int
    var fTotalRequests: int

    function State(): Stat
      reads this
    {
      Stat(fCurrentParallelRequests, fMaxParallelRequests, fTotalRequests)
    }

    constructor ()
      ensures State() == Stat(0, 0, 0)
    {
      fCurrentParallelRequests, fMaxParallelRequests, fTotalRequests := 0, 0, 0;
    }

    /** Handles the report of a step of the pool: the count is again the number of workers counted as
        working, within the pool size and the maximum. */
    method DoHandleStatEvt(evt: Event, ghost s: Pool, ghost step: Step)
      requires Safe(s) && Enabled(s, step) && State() == s.stat
      requires if evt == Enter then step.HandleEnter? else step.HandleLeave?
      modifies this
      ensures Safe(Apply(s, step)) && State() == Apply(s, step).stat
      ensures fCurrentParallelRequests == Counted(Apply(s, step).workers) <= |s.workers|
      ensures fCurrentParallelRequests <= fMaxParallelRequests && old(fMaxParallelRequests) <= fMaxParallelRequests
    {
      hide Counted, Guarded, AllCoherent;
      StepKeepsSafe(s, step);
      CountedBound(Apply(s, step).workers);
      match evt
      case Enter =>
        fCurrentParallelRequests := fCurrentParallelRequests + 1;
        if fMaxParallelRequests < fCurrentParallelRequests {
          fMaxParallelRequests := fCurrentParallelRequests;
        }
      case Leave =>
        fCurrentParallelRequests := fCurrentParallelRequests - 1;
        fTotalRequests := fTotalRequests + 1;
    }
  }
}
