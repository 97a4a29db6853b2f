/** Exactly when a loop comes to an end, for every body without back-references: whether trying the ways
    to match the body in order comes to one that does not advance before the continuation succeeds. */
module ReLoops {
  import opened Text
  import opened ReCode
  import opened ReMatch
  import opened ReSim
  import opened ReLang
  import opened ReDiverge

  // ---------------------------------------------------------------------------------------
  // Without back-references only places matter
  // ---------------------------------------------------------------------------------------

  function Places(l: seq<State>): seq<nat> {
    if l == [] then [] else [l[0].pos] + Places(l[1..])
  }

  lemma {:induction false} PlacesConcat(l: seq<State>, m: seq<State>)
    ensures Places(l + m) == Places(l) + Places(m)
  {
    if l == [] {
      assert l + m == m;
    } else {
      assert (l + m)[1..] == l[1..] + m;
      PlacesConcat(l[1..], m);
    }
  }

  lemma {:induction false} PlacesCloseAll(l: seq<State>, n: nat)
    ensures Places(CloseAll(l, n)) == Places(l)
  {
    if l != [] {
      PlacesCloseAll(l[1..], n);
    }
  }

  lemma {:induction false} PlacesAdvanced(x: Subject, l: seq<State>, l': seq<State>, i: nat)
    requires Places(l) == Places(l')
    ensures Places(Advanced(x, l, i)) == Places(Advanced(x, l', i))
  {
    if l != [] {
      SameHead(l, l');
      PlacesAdvanced(x, l[1..], l'[1..], i);
    }
  }

  lemma SameHead(l: seq<State>, l': seq<State>)
    requires Places(l) == Places(l') && l != []
    ensures l' != [] && l[0].pos == l'[0].pos && Places(l[1..]) == Places(l'[1..])
  {
    assert Places(l)[1..] == Places(l[1..]) && Places(l')[1..] == Places(l'[1..]);
    assert Places(l)[0] == Places(l')[0];
  }

  /** From the same place an expression ends at the same places, in the same order. */
  lemma {:induction false} SamePlaces(x: Subject, t: Re, st: State, st': State)
    requires NoBackRef(t) && st.pos == st'.pos
    ensures Places(Ends(x, t, st)) == Places(Ends(x, t, st'))
    decreases t, Left(x, st), 0, 0
  {
    hide Places;
    match t
    case Leaf(op) => LeafPlaces(x, op, st, st');
    case Empty => OnePlace(st, st');
    case Cat(a, b) =>
      SamePlaces(x, a, st, st');
      SamePlacesAll(x, b, Ends(x, a, st), Ends(x, a, st'));
    case Maybe(a) =>
      SamePlaces(x, a, st, st');
      OnePlace(st, st');
      PlacesConcat(Ends(x, a, st), [st]);
      PlacesConcat(Ends(x, a, st'), [st']);
    case Star(a) => SamePlacesLoop(x, a, st, st');
    case Plus(a) =>
      SamePlaces(x, a, st, st');
      SamePlacesLoops(x, a, Ends(x, a, st), Ends(x, a, st'));
    case Group(k, alts) =>
      var s1, s1' := st.(opens := Push(st.opens, k, st.pos)), st'.(opens := Push(st'.opens, k, st'.pos));
      SamePlacesAlts(x, alts, s1, s1');
      PlacesCloseAll(AltEnds(x, alts, s1), k);
      PlacesCloseAll(AltEnds(x, alts, s1'), k);
  }

  lemma OnePlace(st: State, st': State)
    requires st.pos == st'.pos
    ensures Places([st]) == Places([st'])
  {
    assert [st][1..] == [] && [st'][1..] == [];
  }

  lemma LeafPlaces(x: Subject, op: Op, st: State, st': State)
    requires !op.BackRef? && st.pos == st'.pos
    ensures Places(Ends(x, Leaf(op), st)) == Places(Ends(x, Leaf(op), st'))
  {
    if !op.End? && !op.Branch? {
      var r, r' := Step(x, op, st), Step(x, op, st');
      assert r.Go? == r'.Go? && (r.Go? ==> r.st.pos == r'.st.pos);
      if r.Go? {
        OnePlace(r.st, r'.st);
      }
    }
  }

  lemma {:induction false} SamePlacesAlts(x: Subject, alts: Alts, st: State, st': State)
    requires NoBackRefAlts(alts) && st.pos == st'.pos
    ensures Places(AltEnds(x, alts, st)) == Places(AltEnds(x, alts, st'))
    decreases alts, Left(x, st), 0, 0
  {
    hide Places;
    match alts
    case Only(t) => SamePlaces(x, t, st, st');
    case Or(t, rest) =>
      SamePlaces(x, t, st, st');
      SamePlacesAlts(x, rest, st, st');
      PlacesConcat(Ends(x, t, st), AltEnds(x, rest, st));
      PlacesConcat(Ends(x, t, st'), AltEnds(x, rest, st'));
  }

  lemma {:induction false} SamePlacesAll(x: Subject, t: Re, l: seq<State>, l': seq<State>)
    requires NoBackRef(t) && Places(l) == Places(l')
    ensures Places(EndsAll(x, t, l)) == Places(EndsAll(x, t, l'))
    decreases t, MaxLeft(x, l), 3, |l|
  {
    if l != [] {
      SameHead(l, l');
      SamePlaces(x, t, l[0], l'[0]);
      SamePlacesAll(x, t, l[1..], l'[1..]);
      PlacesConcat(Ends(x, t, l[0]), EndsAll(x, t, l[1..]));
      PlacesConcat(Ends(x, t, l'[0]), EndsAll(x, t, l'[1..]));
    }
  }

  lemma {:induction false} SamePlacesLoop(x: Subject, a: Re, st: State, st': State)
    requires NoBackRef(a) && st.pos == st'.pos
    ensures Places(Loop(x, a, st)) == Places(Loop(x, a, st'))
    decreases a, Left(x, st), 1, 0
  {
    hide Places;
    var l, l' := Ends(x, a, st), Ends(x, a, st');
    var m, m' := Advanced(x, l, st.pos), Advanced(x, l', st'.pos);
    SamePlaces(x, a, st, st');
    PlacesAdvanced(x, l, l', st.pos);
    AdvancedLeft(x, l, st);
    SamePlacesLoops(x, a, m, m');
    OnePlace(st, st');
    PlacesConcat(LoopAll(x, a, m), [st]);
    PlacesConcat(LoopAll(x, a, m'), [st']);
  }

  lemma {:induction false} SamePlacesLoops(x: Subject, a: Re, l: seq<State>, l': seq<State>)
    requires NoBackRef(a) && Places(l) == Places(l')
    ensures Places(LoopAll(x, a, l)) == Places(LoopAll(x, a, l'))
    decreases a, MaxLeft(x, l), 2, |l|
  {
    if l != [] {
      SameHead(l, l');
      SamePlacesLoop(x, a, l[0], l'[0]);
      SamePlacesLoops(x, a, l[1..], l'[1..]);
      PlacesConcat(Loop(x, a, l[0]), LoopAll(x, a, l[1..]));
      PlacesConcat(Loop(x, a, l'[0]), LoopAll(x, a, l'[1..]));
    }
  }

  /** Whether the continuation fails depends on the place alone. */
  ghost predicate ByPlace(k: State -> Fate) {
    forall e: State, e': State :: e.pos == e'.pos ==> k(e).Fails? == k(e').Fails?
  }

  lemma {:induction false} FailsByPlace(l: seq<State>, l': seq<State>, k: State -> Fate)
    requires Places(l) == Places(l') && ByPlace(k)
    ensures First(l, k).Fails? == First(l', k).Fails?
  {
    if l != [] {
      SameHead(l, l');
      FailsByPlace(l[1..], l'[1..], k);
    }
  }

  // ---------------------------------------------------------------------------------------
  // Loops that get stuck
  // ---------------------------------------------------------------------------------------

  /** Does the loop over `b`, at `st`, come to a round that does not advance before `k` succeeds? */
  ghost predicate Stuck(x: Subject, b: Re, st: State, k: State -> Fate)
    requires st.pos <= |x.text|
    decreases |x.text| - st.pos, 1, 0
  {
    StuckAmong(x, b, Ends(x, b, st), st.pos, k)
  }

  /** Does it when the rounds that end in the states of `l` are tried in order? */
  ghost predicate StuckAmong(x: Subject, b: Re, l: seq<State>, i: nat, k: State -> Fate)
    requires i <= |x.text|
    decreases |x.text| - i, 0, |l|
  {
    l != [] && (
      || !(i < l[0].pos <= |x.text|)
      || Stuck(x, b, l[0], k)
      || (First(Loop(x, b, l[0]), k).Fails? && StuckAmong(x, b, l[1..], i, k)))
  }

  lemma {:induction false} StuckByPlace(x: Subject, b: Re, st: State, st': State, k: State -> Fate)
    requires NoBackRef(b) && ByPlace(k) && st.pos == st'.pos <= |x.text|
    ensures Stuck(x, b, st, k) == Stuck(x, b, st', k)
    decreases |x.text| - st.pos, 1, 0
  {
    hide Ends, ByPlace;
    SamePlaces(x, b, st, st');
    StuckAmongByPlace(x, b, Ends(x, b, st), Ends(x, b, st'), st.pos, k);
  }

  lemma {:induction false} StuckAmongByPlace(x: Subject, b: Re, l: seq<State>, l': seq<State>, i: nat, k: State -> Fate)
    requires NoBackRef(b) && ByPlace(k) && Places(l) == Places(l') && i <= |x.text|
    ensures StuckAmong(x, b, l, i, k) == StuckAmong(x, b, l', i, k)
    decreases |x.text| - i, 0, |l|
  {
    hide Loop, ByPlace;
    if l != [] {
      SameHead(l, l');
      if i < l[0].pos <= |x.text| {
        StuckByPlace(x, b, l[0], l'[0], k);
        SamePlacesLoop(x, b, l[0], l'[0]);
        FailsByPlace(Loop(x, b, l[0]), Loop(x, b, l'[0]), k);
        StuckAmongByPlace(x, b, l[1..], l'[1..], i, k);
      }
    }
  }

  /** A body that cannot be empty never gets stuck. */
  lemma {:induction false} AdvancingNeverStuck(x: Subject, b: Re, st: State, k: State -> Fate)
    requires Accepted(b) && !CanBeEmpty(b) && st.pos <= |x.text|
    ensures !Stuck(x, b, st, k)
    decreases |x.text| - st.pos, 1, 0
  {
    hide Accepted, CanBeEmpty, Loop, First;
    forall e | e in Ends(x, b, st)
      ensures st.pos < e.pos <= |x.text|
    {
      EndsForward(x, b, st, e);
    }
    AdvancingNeverStuckAmong(x, b, Ends(x, b, st), st.pos, k);
  }

  lemma {:induction false} AdvancingNeverStuckAmong(x: Subject, b: Re, l: seq<State>, i: nat, k: State -> Fate)
    requires Accepted(b) && !CanBeEmpty(b) && i <= |x.text|
    requires forall e :: e in l ==> i < e.pos <= |x.text|
    ensures !StuckAmong(x, b, l, i, k)
    decreases |x.text| - i, 0, |l|
  {
    hide Accepted, CanBeEmpty, Loop, First;
    if l != [] {
      AdvancingNeverStuck(x, b, l[0], k);
      AdvancingNeverStuckAmong(x, b, l[1..], i, k);
    }
  }

  // ---------------------------------------------------------------------------------------
  // The two kinds of loop
  // ---------------------------------------------------------------------------------------

  datatype Kind = StarLoop | PlusLoop

  function LoopCode(kind: Kind, c: Code): Code
    requires |c| > 0
  {
    if kind == StarLoop then StarCode(c) else PlusCode(c)
  }

  /** Where another round is decided, where the body begins and where it leads, for a loop at node `a`
      with a body of `n` nodes. */
  function Head(kind: Kind, a: nat, n: nat): nat {
    if kind == StarLoop then a else a + n
  }

  function BodyAt(kind: Kind, a: nat): nat {
    if kind == StarLoop then a + 1 else a
  }

  function BackAt(kind: Kind, a: nat, n: nat): nat {
    if kind == StarLoop then a + n + 1 else a + n
  }

  lemma LoopPlaced(kind: Kind, p: Code, a: nat, c: Code, out: nat)
    requires |c| > 0 && Placed(p, a, LoopCode(kind, c), out)
    ensures Placed(p, BodyAt(kind, a), c, BackAt(kind, a, |c|))
  {
    hide Placed;
    if kind == StarLoop {
      PlacedStar(p, a, c, out);
    } else {
      PlacedPlus(p, a, c, out);
    }
  }

  /** First another round, then the way out. */
  lemma Turn(kind: Kind, p: Code, x: Subject, a: nat, c: Code, out: nat, e: State, o: Fate, o': Fate)
    requires |c| > 0 && Placed(p, a, LoopCode(kind, c), out)
    requires Behaves(p, x, BodyAt(kind, a), e, o) && Behaves(p, x, out, e, o')
    ensures Behaves(p, x, Head(kind, a, |c|), e, Else(o, o'))
  {
    hide Placed, Behaves;
    if kind == StarLoop {
      PlacedStar(p, a, c, out);
      StarExit(p, x, a, |c|, out, e, o, o');
    } else {
      PlacedPlus(p, a, c, out);
      PlusBackEdge(p, x, a, |c|, out, e, o, o');
    }
  }

  /** The end of the body leads to that decision. */
  lemma Back(kind: Kind, p: Code, x: Subject, a: nat, c: Code, out: nat, e: State, o: Fate)
    requires |c| > 0 && Placed(p, a, LoopCode(kind, c), out) && Behaves(p, x, Head(kind, a, |c|), e, o)
    ensures Behaves(p, x, BackAt(kind, a, |c|), e, o)
  {
    hide Placed, Behaves;
    if kind == StarLoop {
      PlacedStar(p, a, c, out);
      StarBackEdge(p, x, a, |c|, out, e, o);
    }
  }

  lemma TurnStillRuns(kind: Kind, p: Code, x: Subject, a: nat, c: Code, out: nat, e: State, n: nat)
    requires |c| > 0 && Placed(p, a, LoopCode(kind, c), out) && n > 0
    requires Run(p, x, BodyAt(kind, a), e, n - 1) == Timeout
    ensures Run(p, x, Head(kind, a, |c|), e, n) == Timeout
  {
    hide Placed, Run;
    if kind == StarLoop {
      PlacedStar(p, a, c, out);
      TwoBranchesStillRun(p, x, a, a + |c| + 3, e, n);
    } else {
      PlacedPlus(p, a, c, out);
      StepBehaves(p, x, a + |c| + 1, e, a, e, StillRuns(n - 1));
      TwoBranchesStillRun(p, x, a + |c|, a + |c| + 2, e, n);
    }
  }

  // ---------------------------------------------------------------------------------------
  // Exactly when they end
  // ---------------------------------------------------------------------------------------

  /** The code at `out` behaves as `k` says, comes to an end, and fails or not by place. */
  ghost predicate Follows(p: Code, x: Subject, out: nat, k: State -> Fate) {
    && Ending(k) && ByPlace(k)
    && forall e: State :: e.pos <= |x.text| ==> Behaves(p, x, out, e, k(e))
  }

  /** Bodies without back-references whose own loops advance. */
  ghost predicate PlainBody(b: Re) {
    Accepted(b) && LoopsAdvance(b) && NoBackRef(b)
  }

  ghost predicate InPlace(kind: Kind, p: Code, x: Subject, b: Re, a: nat, out: nat, k: State -> Fate) {
    PlainBody(b) && Placed(p, a, LoopCode(kind, Emit(b)), out) && Follows(p, x, out, k)
  }

  /** The fate of a round that ends in `e`: another turn if the loop does not get stuck there, and
      otherwise still running after `n` steps. */
  ghost function RoundK(x: Subject, b: Re, i: nat, k: State -> Fate, n: nat): State -> Fate {
    (e: State) => if i < e.pos <= |x.text| && !Stuck(x, b, e, k) then First(Loop(x, b, e), k) else StillRuns(n)
  }

  lemma {:induction false} RoundsEnd(x: Subject, b: Re, l: seq<State>, i: nat, k: State -> Fate, n: nat)
    requires i <= |x.text| && !StuckAmong(x, b, l, i, k)
    ensures First(l, RoundK(x, b, i, k, n)) == First(LoopAll(x, b, Advanced(x, l, i)), k)
  {
    hide Loop, Stuck;
    if l != [] {
      var m := Advanced(x, l[1..], i);
      assert Advanced(x, l, i)[1..] == m;
      FirstConcat(Loop(x, b, l[0]), LoopAll(x, b, m), k);
      if First(Loop(x, b, l[0]), k).Fails? {
        RoundsEnd(x, b, l[1..], i, k, n);
      }
    }
  }

  lemma {:induction false} RoundsStillRun(x: Subject, b: Re, l: seq<State>, i: nat, k: State -> Fate, n: nat)
    requires i <= |x.text| && Ending(k) && StuckAmong(x, b, l, i, k)
    ensures First(l, RoundK(x, b, i, k, n)) == StillRuns(n)
  {
    hide Loop, Stuck;
    if i < l[0].pos <= |x.text| && !Stuck(x, b, l[0], k) {
      RoundsStillRun(x, b, l[1..], i, k, n);
    }
  }

  /** A loop that does not get stuck performs greedy iteration. */
  lemma {:induction false} HeadBehaves(kind: Kind, p: Code, x: Subject, b: Re, a: nat, out: nat, st: State,
      k: State -> Fate)
    requires InPlace(kind, p, x, b, a, out, k) && st.pos <= |x.text| && !Stuck(x, b, st, k)
    ensures Behaves(p, x, Head(kind, a, |Emit(b)|), st, First(Loop(x, b, st), k))
    decreases |x.text| - st.pos
  {
    hide Emit, Ends, Behaves, Placed, First, LoopAll, Accepted, LoopsAdvance, NoBackRef, Ending, ByPlace, LoopCode;
    var c, l, k' := Emit(b), Ends(x, b, st), RoundK(x, b, st.pos, k, 0);
    LoopPlaced(kind, p, a, c, out);
    forall e | e in l
      ensures Behaves(p, x, BackAt(kind, a, |c|), e, k'(e))
    {
      if st.pos < e.pos <= |x.text| && !Stuck(x, b, e, k) {
        HeadBehaves(kind, p, x, b, a, out, e, k);
        Back(kind, p, x, a, c, out, e, First(Loop(x, b, e), k));
      } else {
        NoSteps(p, x, BackAt(kind, a, |c|), e);
      }
    }
    Simulates(p, x, b, BodyAt(kind, a), BackAt(kind, a, |c|), st, l, k');
    RoundsEnd(x, b, l, st.pos, k, 0);
    var more := LoopAll(x, b, Advanced(x, l, st.pos));
    FirstConcat(more, [st], k);
    FirstOne(st, k);
    Turn(kind, p, x, a, c, out, st, First(more, k), k(st));
  }

  lemma NoSteps(p: Code, x: Subject, node: int, e: State)
    ensures Behaves(p, x, node, e, StillRuns(0))
  {
  }

  /** A loop that gets stuck never comes to an end. */
  lemma {:induction false} HeadStillRuns(kind: Kind, p: Code, x: Subject, b: Re, a: nat, out: nat, st: State,
      k: State -> Fate, n: nat)
    requires InPlace(kind, p, x, b, a, out, k) && st.pos <= |x.text| && Stuck(x, b, st, k)
    ensures Run(p, x, Head(kind, a, |Emit(b)|), st, n) == Timeout
    decreases n
  {
    hide Emit, Ends, Run, Placed, First, Loop, Accepted, LoopsAdvance, NoBackRef, Ending, ByPlace, LoopCode;
    if n == 0 {
      NoSteps(p, x, Head(kind, a, |Emit(b)|), st);
    } else {
      var c, l, k' := Emit(b), Ends(x, b, st), RoundK(x, b, st.pos, k, n - 1);
      LoopPlaced(kind, p, a, c, out);
      forall e | e in l
        ensures Behaves(p, x, BackAt(kind, a, |c|), e, k'(e))
      {
        EndsForward(x, b, st, e);
        if st.pos < e.pos && !Stuck(x, b, e, k) {
          HeadBehaves(kind, p, x, b, a, out, e, k);
          Back(kind, p, x, a, c, out, e, First(Loop(x, b, e), k));
        } else {
          if e.pos == st.pos {
            StuckByPlace(x, b, st, e, k);
          }
          HeadStillRuns(kind, p, x, b, a, out, e, k, n - 1);
          Back(kind, p, x, a, c, out, e, StillRuns(n - 1));
        }
      }
      Simulates(p, x, b, BodyAt(kind, a), BackAt(kind, a, |c|), st, l, k');
      RoundsStillRun(x, b, l, st.pos, k, n - 1);
      TurnStillRuns(kind, p, x, a, c, out, st, n);
    }
  }

  /** `X*` comes to an end exactly if it does not get stuck, and then it performs greedy iteration. */
  lemma StarEndsWhen(p: Code, x: Subject, b: Re, a: nat, out: nat, st: State, k: State -> Fate)
    requires InPlace(StarLoop, p, x, b, a, out, k) && st.pos <= |x.text|
    ensures Finishes(p, x, a, st) <==> !Stuck(x, b, st, k)
    ensures !Stuck(x, b, st, k) ==> Behaves(p, x, a, st, First(Loop(x, b, st), k))
  {
    hide Stuck, Placed, Loop, PlainBody, Run;
    if Stuck(x, b, st, k) {
      forall f: nat
        ensures Run(p, x, a, st, f) == Timeout
      {
        HeadStillRuns(StarLoop, p, x, b, a, out, st, k, f);
      }
    } else {
      HeadBehaves(StarLoop, p, x, b, a, out, st, k);
      FirstEnds(Loop(x, b, st), k);
      EndingFinishes(p, x, a, st, First(Loop(x, b, st), k));
    }
  }

  // ---------------------------------------------------------------------------------------
  // X+
  // ---------------------------------------------------------------------------------------

  /** Does the loop behind one of the first rounds get stuck before `k` succeeds behind an earlier one? */
  ghost predicate StuckLater(x: Subject, b: Re, l: seq<State>, k: State -> Fate) {
    l != [] && l[0].pos <= |x.text| && (
      || Stuck(x, b, l[0], k)
      || (First(Loop(x, b, l[0]), k).Fails? && StuckLater(x, b, l[1..], k)))
  }

  ghost function LaterK(x: Subject, b: Re, k: State -> Fate, n: nat): State -> Fate {
    (e: State) => if e.pos <= |x.text| && Stuck(x, b, e, k) then StillRuns(n) else First(Loop(x, b, e), k)
  }

  lemma {:induction false} LaterEnd(x: Subject, b: Re, l: seq<State>, k: State -> Fate, n: nat)
    requires Ending(k) && forall e :: e in l ==> e.pos <= |x.text|
    ensures First(l, LaterK(x, b, k, n)) ==
      if StuckLater(x, b, l, k) then StillRuns(n) else First(LoopAll(x, b, l), k)
  {
    hide Loop, Stuck;
    if l != [] {
      FirstConcat(Loop(x, b, l[0]), LoopAll(x, b, l[1..]), k);
      FirstEnds(Loop(x, b, l[0]), k);
      LaterEnd(x, b, l[1..], k, n);
    }
  }

  lemma PlusBehaves(p: Code, x: Subject, b: Re, a: nat, out: nat, st: State, k: State -> Fate, n: nat)
    requires InPlace(PlusLoop, p, x, b, a, out, k) && st.pos <= |x.text|
    ensures var l := Ends(x, b, st);
      Behaves(p, x, a, st, if StuckLater(x, b, l, k) then StillRuns(n) else First(LoopAll(x, b, l), k))
  {
    hide Emit, Ends, Run, Placed, First, Loop, Stuck, Accepted, LoopsAdvance, NoBackRef, ByPlace, LoopCode;
    var c, l, k' := Emit(b), Ends(x, b, st), LaterK(x, b, k, n);
    LoopPlaced(PlusLoop, p, a, c, out);
    forall e | e in l
      ensures e.pos <= |x.text| && Behaves(p, x, a + |c|, e, k'(e))
    {
      EndsForward(x, b, st, e);
      if Stuck(x, b, e, k) {
        HeadStillRuns(PlusLoop, p, x, b, a, out, e, k, n);
      } else {
        HeadBehaves(PlusLoop, p, x, b, a, out, e, k);
      }
    }
    Simulates(p, x, b, a, a + |c|, st, l, k');
    LaterEnd(x, b, l, k, n);
  }

  /** `X+` comes to an end exactly if no loop behind a first round gets stuck before it succeeds. */
  lemma PlusEndsWhen(p: Code, x: Subject, b: Re, a: nat, out: nat, st: State, k: State -> Fate)
    requires InPlace(PlusLoop, p, x, b, a, out, k) && st.pos <= |x.text|
    ensures var l := Ends(x, b, st);
      && (Finishes(p, x, a, st) <==> !StuckLater(x, b, l, k))
      && (!StuckLater(x, b, l, k) ==> Behaves(p, x, a, st, First(LoopAll(x, b, l), k)))
  {
    hide Ends, Run, Placed, LoopAll, StuckLater, PlainBody;
    var l := Ends(x, b, st);
    if StuckLater(x, b, l, k) {
      forall f: nat
        ensures Run(p, x, a, st, f) == Timeout
      {
        PlusBehaves(p, x, b, a, out, st, k, f);
      }
    } else {
      PlusBehaves(p, x, b, a, out, st, k, 0);
      FirstEnds(LoopAll(x, b, l), k);
      EndingFinishes(p, x, a, st, First(LoopAll(x, b, l), k));
    }
  }

  // ---------------------------------------------------------------------------------------
  // Whole programs
  // ---------------------------------------------------------------------------------------

  /** The program of `X*` is its loop between an entry and the end node. */
  lemma StarProgram(b: Re, x: Subject)
    requires PlainBody(b) && |EmitProgram(Only(Star(b)))| <= 0x8000
    ensures var p, n := EmitProgram(Only(Star(b))), |StarCode(Emit(b))|;
      && InPlace(StarLoop, p, x, b, 1, n + 1, EndK())
      && |p| > 1 && p[0].op.Branch? && 0 <= p[0].next < |p| && p[p[0].next].op.End?
  {
    hide Run, Emit, Behaves, PlainBody, Ending, ByPlace, StarCode;
    var p, c := EmitProgram(Only(Star(b))), StarCode(Emit(b));
    StarEmitted(b);
    assert AltCode(c, 0) + [] == AltCode(c, 0);
    PlacedAlt(p, 0, c, []);
    forall e
      ensures Behaves(p, x, |c| + 1, e, EndK()(e))
    {
      AtEnd(p, x, |c| + 1, e);
    }
    EndByPlace();
  }

  lemma EndByPlace()
    ensures Ending(EndK()) && ByPlace(EndK())
  {
  }

  /** The program of `X*` comes to an end at position `i` exactly if the loop does not get stuck there. */
  lemma ProgramEndsWhen(b: Re, x: Subject, i: nat)
    requires PlainBody(b) && i <= |x.text| && |EmitProgram(Only(Star(b)))| <= 0x8000
    ensures Finishes(EmitProgram(Only(Star(b))), x, 0, Start(i)) <==> !Stuck(x, b, Start(i), EndK())
  {
    hide EmitProgram, InPlace, Finishes, PlainBody, Stuck;
    var p := EmitProgram(Only(Star(b)));
    StarProgram(b, x);
    StarEndsWhen(p, x, b, 1, |StarCode(Emit(b))| + 1, Start(i), EndK());
    EntryFinishes(p, x, Start(i));
  }

  /** Whether such a loop ends can depend on the place: `(\0$)*` gets stuck at the end of the text "a" and
      not before. */
  lemma StuckOnlyAtEnd(x: Subject, k: State -> Fate)
    requires x.text == "a"
    ensures var b := Cat(Leaf(Atom(['\0'])), Leaf(Eol));
      PlainBody(b) && !Stuck(x, b, Start(0), k) && Stuck(x, b, Start(1), k)
  {
    var nul, eol := Leaf(Atom(['\0'])), Leaf(Eol);
    assert forall i :: 0 <= i <= 1 ==> Ends(x, nul, Start(i)) == [Start(i)];
    assert Ends(x, eol, Start(0)) == [] && Ends(x, eol, Start(1)) == [Start(1)];
    assert Ends(x, Cat(nul, eol), Start(0)) == EndsAll(x, eol, [Start(0)]) == [] by {
      assert [Start(0)][1..] == [];
    }
    assert Ends(x, Cat(nul, eol), Start(1)) == EndsAll(x, eol, [Start(1)]) == [Start(1)] by {
      assert [Start(1)][1..] == [];
    }
  }
}
