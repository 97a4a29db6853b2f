/** Where matching does not come to an end: a loop whose body can be empty. The compiler rejects the
    bodies it reports as nullable, but a literal that begins with NUL is reported as non-nullable and
    consumes nothing. */
module ReDiverge {
  import opened Text
  import opened ReCode
  import opened ReMatch
  import opened ReSim

  /** Running from `node` comes to an end. */
  ghost predicate Finishes(p: Code, x: Subject, node: int, st: State) {
    exists f: nat {:trigger Fuel(f)} :: Fuel(f) && Run(p, x, node, st, f) != Timeout
  }

  /** The expression has no anchors, word boundaries or back-references, which can be empty at some
      places and fail at others. */
  predicate Unconditional(t: Re) {
    match t
    case Leaf(op) => op.Any? || op.AnyOf? || op.Atom?
    case Empty => true
    case Cat(a, b) => Unconditional(a) && Unconditional(b)
    case Maybe(a) => Unconditional(a)
    case Star(a) => Unconditional(a)
    case Plus(a) => Unconditional(a)
    case Group(_, alts) => UnconditionalAlts(alts)
  }

  predicate UnconditionalAlts(alts: Alts) {
    match alts
    case Only(t) => Unconditional(t)
    case Or(t, rest) => Unconditional(t) && UnconditionalAlts(rest)
  }

  /** Such an expression never fails if it can be empty. */
  lemma {:induction false} NeverFails(x: Subject, t: Re, st: State)
    requires Accepted(t) && Unconditional(t) && CanBeEmpty(t) && st.pos <= |x.text|
    ensures Ends(x, t, st) != []
    decreases t, Left(x, st), 0
  {
    match t
    case Leaf(op) =>
    case Empty =>
    case Cat(a, b) =>
      NeverFails(x, a, st);
      var e := Ends(x, a, st)[0];
      EndsForward(x, a, st, e);
      NeverFails(x, b, e);
      assert EndsAll(x, b, Ends(x, a, st)) == Ends(x, b, e) + EndsAll(x, b, Ends(x, a, st)[1..]);
    case Maybe(a) =>
    case Star(a) =>
    case Plus(a) =>
      NeverFails(x, a, st);
      var l := Ends(x, a, st);
      assert l[0] in Loop(x, a, l[0]);
      assert LoopAll(x, a, l) == Loop(x, a, l[0]) + LoopAll(x, a, l[1..]);
    case Group(k, alts) =>
      var st1 := st.(opens := Push(st.opens, k, st.pos));
      AltNeverFails(x, alts, st1);
      CloseAllIn(AltEnds(x, alts, st1), k, AltEnds(x, alts, st1)[0]);
  }

  lemma {:induction false} AltNeverFails(x: Subject, alts: Alts, st: State)
    requires AcceptedAlts(alts) && UnconditionalAlts(alts) && CanBeEmptyAlts(alts) && st.pos <= |x.text|
    ensures AltEnds(x, alts, st) != []
    decreases alts, Left(x, st), 0
  {
    match alts
    case Only(t) => NeverFails(x, t, st);
    case Or(t, rest) =>
      if CanBeEmpty(t) {
        NeverFails(x, t, st);
      } else {
        AltNeverFails(x, rest, st);
      }
  }

  // ---------------------------------------------------------------------------------------
  // Loops that never end
  // ---------------------------------------------------------------------------------------

  /** Bodies of loops whose own loops advance. */
  ghost predicate Body(b: Re) {
    Accepted(b) && LoopsAdvance(b) && Unconditional(b)
  }

  /** A body that always has a way to match, followed by code that still runs, still runs. */
  lemma BodyStillRuns(p: Code, x: Subject, b: Re, a: nat, out: nat, st: State, n: nat)
    requires Body(b) && CanBeEmpty(b) && st.pos <= |x.text| && Placed(p, a, Emit(b), out)
    requires forall e: State :: e.pos <= |x.text| ==> Run(p, x, out, e, n) == Timeout
    ensures Run(p, x, a, st, n) == Timeout
  {
    hide Run, Emit, Ends, Placed, Accepted, LoopsAdvance, CanBeEmpty, Unconditional;
    var l, k := Ends(x, b, st), (e: State) => StillRuns(n);
    NeverFails(x, b, st);
    forall e | e in l
      ensures Behaves(p, x, out, e, k(e))
    {
      EndsForward(x, b, st, e);
    }
    Simulates(p, x, b, a, out, st, l, k);
    assert First(l, k) == StillRuns(n);
  }

  lemma {:induction false} StarStillRuns(p: Code, x: Subject, b: Re, a: nat, out: nat, st: State, n: nat)
    requires Body(b) && CanBeEmpty(b) && st.pos <= |x.text| && Placed(p, a, StarCode(Emit(b)), out)
    ensures Run(p, x, a, st, n) == Timeout
    decreases n
  {
    hide Emit, Body, CanBeEmpty, Placed;
    if n > 0 {
      var c := Emit(b);
      PlacedStar(p, a, c, out);
      forall e: State | e.pos <= |x.text|
        ensures Run(p, x, a + |c| + 1, e, n - 1) == Timeout
      {
        StarStillRuns(p, x, b, a, out, e, n - 1);
        StarBackEdge(p, x, a, |c|, out, e, StillRuns(n - 1));
      }
      BodyStillRuns(p, x, b, a + 1, a + |c| + 1, st, n - 1);
      TwoBranchesStillRun(p, x, a, a + |c| + 3, st, n);
    }
  }

  lemma TwoBranchesStillRun(p: Code, x: Subject, node: nat, second: nat, st: State, n: nat)
    requires node < second < |p| <= 0x8000 && n > 0
    requires p[node].op.Branch? && p[node].next == second - node && p[second].op.Branch?
    requires Run(p, x, node + 1, st, n - 1) == Timeout
    ensures Run(p, x, node, st, n) == Timeout
  {
    ShortExact(second - node);
    OneStepLess(p, x, node + 1, st, n - 1);
    assert Choices(p, x, node, st, n - 1) == Timeout;
  }

  lemma {:induction false} PlusStillRuns(p: Code, x: Subject, b: Re, a: nat, out: nat, st: State, n: nat)
    requires Body(b) && CanBeEmpty(b) && st.pos <= |x.text| && Placed(p, a, PlusCode(Emit(b)), out)
    ensures Run(p, x, a, st, n) == Timeout
    decreases n, 1
  {
    hide Emit, Body, CanBeEmpty, Placed;
    var c := Emit(b);
    PlacedPlus(p, a, c, out);
    forall e: State | e.pos <= |x.text|
      ensures Run(p, x, a + |c|, e, n) == Timeout
    {
      PlusEndStillRuns(p, x, b, a, out, e, n);
    }
    BodyStillRuns(p, x, b, a, a + |c|, st, n);
  }

  /** The end of the body goes back to its start first. */
  lemma {:induction false} PlusEndStillRuns(p: Code, x: Subject, b: Re, a: nat, out: nat, e: State, n: nat)
    requires Body(b) && CanBeEmpty(b) && e.pos <= |x.text| && Placed(p, a, PlusCode(Emit(b)), out)
    ensures Run(p, x, a + |Emit(b)|, e, n) == Timeout
    decreases n, 0
  {
    hide Emit, Body, CanBeEmpty, Placed;
    if n > 0 {
      var c := Emit(b);
      PlacedPlus(p, a, c, out);
      PlusStillRuns(p, x, b, a, out, e, n - 1);
      StepBehaves(p, x, a + |c| + 1, e, a, e, StillRuns(n - 1));
      TwoBranchesStillRun(p, x, a + |c|, a + |c| + 2, e, n);
    }
  }

  // ---------------------------------------------------------------------------------------
  // Exactly when a loop ends
  // ---------------------------------------------------------------------------------------

  /** Continuations that come to an end. */
  ghost predicate Ending(k: State -> Fate) {
    forall e :: !k(e).StillRuns?
  }

  lemma {:induction false} FirstEnds(l: seq<State>, k: State -> Fate)
    requires Ending(k)
    ensures !First(l, k).StillRuns?
  {
    if l != [] {
      FirstEnds(l[1..], k);
    }
  }

  lemma EndingFinishes(p: Code, x: Subject, node: int, st: State, o: Fate)
    requires Behaves(p, x, node, st, o) && !o.StillRuns?
    ensures Finishes(p, x, node, st)
  {
    var f: nat :| Fuel(f) && Run(p, x, node, st, f) == Done(ResultOf(o));
  }

  /** Followed by code that comes to an end, `X*` comes to an end exactly if X cannot be empty, on every
      text, wherever it stands in a program and whatever has been matched before. */
  lemma StarEndsExactly(p: Code, x: Subject, b: Re, a: nat, out: nat, st: State, k: State -> Fate)
    requires Body(b) && st.pos <= |x.text| && Placed(p, a, StarCode(Emit(b)), out)
    requires Ending(k) && AllBehave(p, x, out, Loop(x, b, st), k)
    ensures Finishes(p, x, a, st) <==> !CanBeEmpty(b)
  {
    hide Run, Emit, Loop, Behaves, Placed, Ending;
    if CanBeEmpty(b) {
      forall f: nat
        ensures Run(p, x, a, st, f) == Timeout
      {
        StarStillRuns(p, x, b, a, out, st, f);
      }
    } else {
      SimulatesStar(p, x, b, a, out, st, k);
      FirstEnds(Loop(x, b, st), k);
      EndingFinishes(p, x, a, st, First(Loop(x, b, st), k));
    }
  }

  /** The same for `X+`. */
  lemma PlusEndsExactly(p: Code, x: Subject, b: Re, a: nat, out: nat, st: State, k: State -> Fate)
    requires Body(b) && st.pos <= |x.text| && Placed(p, a, PlusCode(Emit(b)), out)
    requires Ending(k) && AllBehave(p, x, out, LoopAll(x, b, Ends(x, b, st)), k)
    ensures Finishes(p, x, a, st) <==> !CanBeEmpty(b)
  {
    hide Run, Emit, Ends, LoopAll, Behaves, Placed, Ending;
    if CanBeEmpty(b) {
      forall f: nat
        ensures Run(p, x, a, st, f) == Timeout
      {
        PlusStillRuns(p, x, b, a, out, st, f);
      }
    } else {
      var l := LoopAll(x, b, Ends(x, b, st));
      SimulatesPlus(p, x, b, a, out, st, k);
      FirstEnds(l, k);
      EndingFinishes(p, x, a, st, First(l, k));
    }
  }

  /** The program of `X*` comes to an end, at every position of every text, exactly if X cannot be empty. */
  lemma ProgramEndsExactly(b: Re, x: Subject, i: nat)
    requires Body(b) && i <= |x.text| && |EmitProgram(Only(Star(b)))| <= 0x8000
    ensures Finishes(EmitProgram(Only(Star(b))), x, 0, Start(i)) <==> !CanBeEmpty(b)
  {
    hide Run, Emit, Behaves, Ending, Finishes, Body, CanBeEmpty;
    var p, c := EmitProgram(Only(Star(b))), StarCode(Emit(b));
    StarEmitted(b);
    assert AltCode(c, 0) + [] == AltCode(c, 0);
    PlacedAlt(p, 0, c, []);
    forall e
      ensures Behaves(p, x, |c| + 1, e, EndK()(e))
    {
      AtEnd(p, x, |c| + 1, e);
    }
    assert Ending(EndK()) by {
      EndKEnds();
    }
    StarEndsExactly(p, x, b, 1, |c| + 1, Start(i), EndK());
    EntryFinishes(p, x, Start(i));
  }

  lemma AtEnd(p: Code, x: Subject, node: nat, e: State)
    requires node < |p| && p[node].op.End?
    ensures Behaves(p, x, node, e, EndK()(e))
  {
    assert Fuel(1) && Run(p, x, node, e, 1) == Done(Some(e));
  }

  lemma EndKEnds()
    ensures Ending(EndK())
  {
  }

  /** A program with one alternative goes straight to it. */
  lemma EntryFinishes(p: Code, x: Subject, st: State)
    requires |p| <= 0x8000 && |p| > 1 && p[0].op.Branch? && 0 <= p[0].next < |p| && !p[p[0].next].op.Branch?
    ensures Finishes(p, x, 0, st) <==> Finishes(p, x, 1, st)
  {
    ShortExact(p[0].next);
    if Finishes(p, x, 0, st) {
      var f: nat :| Fuel(f) && Run(p, x, 0, st, f) != Timeout;
      assert RunNode(p, x, 0, st, f - 1) == Run(p, x, 1, st, f - 1);
      assert Fuel(f - 1) && Run(p, x, 1, st, f - 1) != Timeout;
    }
    if Finishes(p, x, 1, st) {
      var f: nat :| Fuel(f) && Run(p, x, 1, st, f) != Timeout;
      assert Fuel(f + 1) && Run(p, x, 0, st, f + 1) != Timeout;
    }
  }

  lemma StarEmitted(b: Re)
    ensures Emit(Star(b)) == StarCode(Emit(b)) && EmitAlts(Only(Star(b))) == AltCode(StarCode(Emit(b)), 0)
  {
  }
}
