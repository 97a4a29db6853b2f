/** Compiler correctness: running the code laid out for a tree is ordered backtracking over the
    tree, whatever the continuation does. Termination rests on nullability: every round of a loop
    consumes text. */
module ReSim {
  import opened Text
  import opened ReCode
  import opened ReMatch

  // ---------------------------------------------------------------------------------------
  // Nullability
  // ---------------------------------------------------------------------------------------

  /** Nothing is left of the text when it is read as a C string. */
  predicate NulFirst(text: string) {
    text == "" || text[0] == '\0'
  }

  /** The compiler's nullability analysis, corrected: a literal that begins with NUL is nullable too. */
  predicate CanBeEmpty(t: Re) {
    match t
    case Leaf(op) => if op.Atom? then NulFirst(op.text) else !op.Any? && !op.AnyOf?
    case Empty => true
    case Cat(a, b) => CanBeEmpty(a) && CanBeEmpty(b)
    case Maybe(_) => true
    case Star(_) => true
    case Plus(a) => CanBeEmpty(a)
    case Group(_, alts) => CanBeEmptyAlts(alts)
  }

  predicate CanBeEmptyAlts(alts: Alts) {
    match alts
    case Only(t) => CanBeEmpty(t)
    case Or(t, rest) => CanBeEmpty(t) || CanBeEmptyAlts(rest)
  }

  /** No body of a loop can be empty in the corrected sense. */
  predicate LoopsAdvance(t: Re) {
    match t
    case Leaf(_) => true
    case Empty => true
    case Cat(a, b) => LoopsAdvance(a) && LoopsAdvance(b)
    case Maybe(a) => LoopsAdvance(a)
    case Star(a) => LoopsAdvance(a) && !CanBeEmpty(a)
    case Plus(a) => LoopsAdvance(a) && !CanBeEmpty(a)
    case Group(_, alts) => LoopsAdvanceAlts(alts)
  }

  predicate LoopsAdvanceAlts(alts: Alts) {
    match alts
    case Only(t) => LoopsAdvance(t)
    case Or(t, rest) => LoopsAdvance(t) && LoopsAdvanceAlts(rest)
  }

  /** No literal begins with NUL. */
  predicate Clean(t: Re) {
    match t
    case Leaf(op) => op.Atom? ==> !NulFirst(op.text)
    case Empty => true
    case Cat(a, b) => Clean(a) && Clean(b)
    case Maybe(a) => Clean(a)
    case Star(a) => Clean(a)
    case Plus(a) => Clean(a)
    case Group(_, alts) => CleanAlts(alts)
  }

  predicate CleanAlts(alts: Alts) {
    match alts
    case Only(t) => Clean(t)
    case Or(t, rest) => Clean(t) && CleanAlts(rest)
  }

  /** Without such literals the compiler's own analysis is the corrected one, so that its test of closure
      operands makes every loop advance. */
  lemma {:induction false} CleanAdvances(t: Re)
    requires Accepted(t) && Clean(t)
    ensures CanBeEmpty(t) == Nullable(t) && LoopsAdvance(t)
  {
    match t
    case Leaf(op) =>
    case Empty =>
    case Cat(a, b) =>
      CleanAdvances(a);
      CleanAdvances(b);
    case Maybe(a) => CleanAdvances(a);
    case Star(a) => CleanAdvances(a);
    case Plus(a) => CleanAdvances(a);
    case Group(_, alts) => CleanAltsAdvance(alts);
  }

  lemma {:induction false} CleanAltsAdvance(alts: Alts)
    requires AcceptedAlts(alts) && CleanAlts(alts)
    ensures CanBeEmptyAlts(alts) == NullableAlts(alts) && LoopsAdvanceAlts(alts)
  {
    match alts
    case Only(t) => CleanAdvances(t);
    case Or(t, rest) =>
      CleanAdvances(t);
      CleanAltsAdvance(rest);
  }

  /** Matching moves forward inside the text, and strictly so if `t` cannot be empty. */
  lemma {:induction false} EndsForward(x: Subject, t: Re, st: State, r: State)
    requires Accepted(t) && st.pos <= |x.text| && r in Ends(x, t, st)
    ensures st.pos <= r.pos <= |x.text|
    ensures !CanBeEmpty(t) ==> st.pos < r.pos
    decreases t, Left(x, st), 0, 0
  {
    match t
    case Leaf(op) =>
    case Empty =>
    case Cat(a, b) =>
      var e := EndsAllFrom(x, b, Ends(x, a, st), r);
      EndsForward(x, a, st, e);
      EndsForward(x, b, e, r);
    case Maybe(a) =>
      if r in Ends(x, a, st) {
        EndsForward(x, a, st, r);
      }
    case Star(a) =>
      LoopForward(x, a, st, r);
    case Plus(a) =>
      var e := LoopAllFrom(x, a, Ends(x, a, st), r);
      EndsForward(x, a, st, e);
      LoopForward(x, a, e, r);
    case Group(k, alts) =>
      var st1 := st.(opens := Push(st.opens, k, st.pos));
      var e := CloseAllFrom(AltEnds(x, alts, st1), k, r);
      AltEndsForward(x, alts, st1, e);
  }

  lemma {:induction false} LoopForward(x: Subject, a: Re, st: State, r: State)
    requires Accepted(a) && st.pos <= |x.text| && r in Loop(x, a, st)
    ensures st.pos <= r.pos <= |x.text|
    decreases a, Left(x, st), 1, 0
  {
    var more := Advanced(x, Ends(x, a, st), st.pos);
    if r in LoopAll(x, a, more) {
      var e := LoopAllFrom(x, a, more, r);
      AdvancedIn(x, Ends(x, a, st), st.pos, e);
      LoopForward(x, a, e, r);
    }
  }

  lemma {:induction false} AltEndsForward(x: Subject, alts: Alts, st: State, r: State)
    requires AcceptedAlts(alts) && st.pos <= |x.text| && r in AltEnds(x, alts, st)
    ensures st.pos <= r.pos <= |x.text|
    ensures !CanBeEmptyAlts(alts) ==> st.pos < r.pos
    decreases alts, Left(x, st), 0, 0
  {
    match alts
    case Only(t) => EndsForward(x, t, st, r);
    case Or(t, rest) =>
      if r in Ends(x, t, st) {
        EndsForward(x, t, st, r);
      } else {
        AltEndsForward(x, rest, st, r);
      }
  }

  /** One round of a body that cannot be empty always advances, so no result is filtered out. */
  lemma AllAdvance(x: Subject, a: Re, st: State)
    requires Accepted(a) && !CanBeEmpty(a) && st.pos <= |x.text|
    ensures Advanced(x, Ends(x, a, st), st.pos) == Ends(x, a, st)
  {
    forall e | e in Ends(x, a, st)
      ensures st.pos < e.pos <= |x.text|
    {
      EndsForward(x, a, st, e);
    }
    AdvancedAll(x, Ends(x, a, st), st.pos);
  }

  // ---------------------------------------------------------------------------------------
  // Simulation
  // ---------------------------------------------------------------------------------------

  /** Program `p` holds the nodes `c` from node `a` on. */
  ghost predicate Holds(p: Code, a: nat, c: Code) {
    a + |c| <= |p| && forall i :: 0 <= i < |c| ==> p[a + i] == c[i]
  }

  /** Fragment `c` lies at node `a` of `p` and its open end is linked to node `out`. */
  ghost predicate Placed(p: Code, a: nat, c: Code, out: nat) {
    && 0 < |c| && |p| <= 0x8000 && out < |p|
    && Holds(p, a, Link(c, out - (a + |c| - 1)))
  }

  /** Offsets survive the narrowing exactly if they fit into 16 bits. */
  lemma ShortExact(n: int)
    ensures Short(n) == n <==> -0x8000 <= n < 0x8000
  {
  }

  /** What a run that is over has found. */
  function ResultOf(o: Fate): Option<State>
    requires !o.StillRuns?
  {
    if o.Fails? then None else Some(o.st)
  }

  /** A run that goes on for some time goes on for any shorter time. */
  lemma OneStepLess(p: Code, x: Subject, node: int, st: State, f: nat)
    requires Run(p, x, node, st, f) == Timeout
    ensures f > 0 ==> Run(p, x, node, st, f - 1) == Timeout
  {
    if f > 0 && Run(p, x, node, st, f - 1) != Timeout {
      MoreFuel(p, x, node, st, f - 1, f);
    }
  }

  lemma OneChoiceLess(p: Code, x: Subject, node: nat, st: State, f: nat)
    requires node < |p| && Choices(p, x, node, st, f) == Timeout
    ensures f > 0 ==> Choices(p, x, node, st, f - 1) == Timeout
  {
    if f > 0 && Choices(p, x, node, st, f - 1) != Timeout {
      MoreFuelChoices(p, x, node, st, f - 1, f);
    }
  }

  /** A non-branching node passes on what its successor yields. */
  lemma StepBehaves(p: Code, x: Subject, node: nat, st: State, next: nat, st1: State, o: Fate)
    requires node < |p| <= 0x8000 && next < |p| && p[node].next == next - node
    requires !p[node].op.End? && !p[node].op.Branch?
    requires Step(x, p[node].op, st) == Go(st1) && Behaves(p, x, next, st1, o)
    ensures Behaves(p, x, node, st, o)
  {
    ShortExact(next - node);
    if o.StillRuns? {
      OneStepLess(p, x, next, st1, o.fuel);
    } else {
      var f: nat :| Fuel(f) && Run(p, x, next, st1, f) == Done(ResultOf(o));
      assert Fuel(f + 1) && Run(p, x, node, st, f + 1) == Done(ResultOf(o));
    }
  }

  /** A branch node without a sibling just goes on with its operand. */
  lemma SingleBranchBehaves(p: Code, x: Subject, node: nat, st: State, o: Fate)
    requires node < |p| <= 0x8000 && p[node].op.Branch? && 0 <= node + p[node].next < |p|
    requires !p[node + p[node].next].op.Branch?
    requires Behaves(p, x, node + 1, st, o)
    ensures Behaves(p, x, node, st, o)
  {
    ShortExact(p[node].next);
    if o.StillRuns? {
      OneStepLess(p, x, node + 1, st, o.fuel);
    } else {
      var f: nat :| Fuel(f) && Run(p, x, node + 1, st, f) == Done(ResultOf(o));
      assert Fuel(f + 1) && Run(p, x, node, st, f + 1) == Done(ResultOf(o));
    }
  }

  /** A branch node with siblings tries them in turn. */
  lemma BranchBehaves(p: Code, x: Subject, node: nat, st: State, o: Fate)
    requires node < |p| <= 0x8000 && p[node].op.Branch? && IsBranch(p, node + p[node].next)
    requires ChoicesBehave(p, x, node, st, o)
    ensures Behaves(p, x, node, st, o)
  {
    ShortExact(p[node].next);
    if o.StillRuns? {
      OneChoiceLess(p, x, node, st, o.fuel);
    } else {
      var f: nat :| Fuel(f) && Choices(p, x, node, st, f) == Done(ResultOf(o));
      assert Fuel(f + 1) && Run(p, x, node, st, f + 1) == Done(ResultOf(o));
    }
  }

  lemma LastChoice(p: Code, x: Subject, node: nat, st: State, o: Fate)
    requires node < |p| && !IsBranch(p, node + p[node].next)
    requires Behaves(p, x, node + 1, st, o)
    ensures ChoicesBehave(p, x, node, st, o)
  {
    if o.StillRuns? {
      OneStepLess(p, x, node + 1, st, o.fuel);
    } else {
      var f: nat :| Fuel(f) && Run(p, x, node + 1, st, f) == Done(ResultOf(o));
      assert Fuel(f + 1) && Choices(p, x, node, st, f + 1) == Done(ResultOf(o));
    }
  }

  lemma MoreChoices(p: Code, x: Subject, node: nat, st: State, o: Fate, o': Fate)
    requires node < |p| && p[node].next != 0 && IsBranch(p, node + p[node].next)
    requires Behaves(p, x, node + 1, st, o)
    requires ChoicesBehave(p, x, node + p[node].next, st, o')
    ensures ChoicesBehave(p, x, node, st, Else(o, o'))
  {
    var n := node + p[node].next;
    match o
    case StillRuns(g) => OneStepLess(p, x, node + 1, st, g);
    case Finds(e) =>
      var f: nat :| Fuel(f) && Run(p, x, node + 1, st, f) == Done(Some(e));
      assert Fuel(f + 1) && Choices(p, x, node, st, f + 1) == Done(Some(e));
    case Fails =>
      var f: nat :| Fuel(f) && Run(p, x, node + 1, st, f) == Done(None);
      if o'.StillRuns? {
        FailThenRun(p, x, node, n, st, f, o'.fuel);
      } else {
        var g: nat :| Fuel(g) && Choices(p, x, n, st, g) == Done(ResultOf(o'));
        var h := if f <= g then g else f;
        MoreFuel(p, x, node + 1, st, f, h);
        MoreFuelChoices(p, x, n, st, g, h);
        assert Fuel(h + 1) && Choices(p, x, node, st, h + 1) == Done(ResultOf(o'));
      }
  }

  /** If the operand fails and the siblings still run, the branch still runs. */
  lemma FailThenRun(p: Code, x: Subject, node: nat, n: nat, st: State, f: nat, g: nat)
    requires node < |p| && p[node].next == n - node != 0 && IsBranch(p, n)
    requires Run(p, x, node + 1, st, f) == Done(None) && Choices(p, x, n, st, g) == Timeout
    ensures Choices(p, x, node, st, g) == Timeout
  {
    if g > 0 && Run(p, x, node + 1, st, g - 1) != Timeout {
      if f <= g - 1 {
        MoreFuel(p, x, node + 1, st, f, g - 1);
      } else {
        MoreFuel(p, x, node + 1, st, g - 1, f);
      }
      OneChoiceLess(p, x, n, st, g);
    }
  }

  /** A branch node followed by one sibling: first the operand, then the sibling's operand. */
  lemma TwoBranches(p: Code, x: Subject, node: nat, second: nat, st: State, o: Fate, o': Fate)
    requires node < second < |p| <= 0x8000
    requires p[node].op.Branch? && p[node].next == second - node && p[second].op.Branch?
    requires !IsBranch(p, second + p[second].next)
    requires Behaves(p, x, node + 1, st, o) && Behaves(p, x, second + 1, st, o')
    ensures Behaves(p, x, node, st, Else(o, o'))
  {
    hide Behaves, ChoicesBehave;
    LastChoice(p, x, second, st, o');
    MoreChoices(p, x, node, st, o, o');
    BranchBehaves(p, x, node, st, Else(o, o'));
  }

  /** The parts of what a program holds. */
  lemma HoldsParts(p: Code, a: nat, c: Code, d: Code)
    requires Holds(p, a, c + d)
    ensures Holds(p, a, c) && Holds(p, a + |c|, d)
  {
    assert forall i :: 0 <= i < |c| ==> (c + d)[i] == c[i];
    forall i | 0 <= i < |d| ensures p[a + |c| + i] == d[i] {
      assert (c + d)[|c| + i] == d[i];
    }
  }

  /** Where the pieces of placed fragments lie. */
  lemma PlacedCat(p: Code, a: nat, c: Code, d: Code, out: nat)
    requires |c| > 0 && |d| > 0 && Placed(p, a, CatCode(c, d), out)
    ensures Placed(p, a, c, a + |c|) && Placed(p, a + |c|, d, out)
  {
    var last := out - (a + |c| + |d| - 1);
    assert Link(CatCode(c, d), last) == Link(c, 1) + Link(d, last);
    HoldsParts(p, a, Link(c, 1), Link(d, last));
  }

  lemma PlacedMaybe(p: Code, a: nat, c: Code, out: nat)
    requires |c| > 0 && Placed(p, a, MaybeCode(c), out)
    ensures a + |c| + 2 < |p| && Placed(p, a + 1, c, a + |c| + 2)
    ensures p[a] == Node(Branch, |c| + 1) && p[a + |c| + 1] == Node(Branch, 1)
    ensures p[a + |c| + 2] == Node(Nothing, out - (a + |c| + 2))
  {
    var h := [Node(Branch, |c| + 1)];
    var t := [Node(Branch, 1), Node(Nothing, out - (a + |c| + 2))];
    assert Link(MaybeCode(c), out - (a + |c| + 2)) == h + (Link(c, 2) + t);
    HoldsParts(p, a, h, Link(c, 2) + t);
    HoldsParts(p, a + 1, Link(c, 2), t);
    assert h[0] == p[a + 0] && t[0] == p[a + |c| + 1 + 0] && t[1] == p[a + |c| + 1 + 1];
  }

  /** The nodes around the body, `n` nodes long, of a star at node `a`. */
  ghost predicate StarNodes(p: Code, a: nat, n: nat, out: nat) {
    && a + n + 4 < |p| <= 0x8000 && out < |p|
    && p[a] == Node(Branch, n + 3) && p[a + n + 1] == Node(Branch, 1)
    && p[a + n + 2] == Node(Goto, -(n + 2)) && p[a + n + 3] == Node(Branch, 1)
    && p[a + n + 4] == Node(Nothing, out - (a + n + 4))
  }

  lemma PlacedStar(p: Code, a: nat, c: Code, out: nat)
    requires |c| > 0 && Placed(p, a, StarCode(c), out)
    ensures StarNodes(p, a, |c|, out) && Placed(p, a + 1, c, a + |c| + 1)
  {
    var n := |c|;
    var h := [Node(Branch, n + 3)];
    var t := [Node(Branch, 1), Node(Goto, -(n + 2)), Node(Branch, 1), Node(Nothing, out - (a + n + 4))];
    assert Link(StarCode(c), out - (a + n + 4)) == h + (Link(c, 1) + t);
    HoldsParts(p, a, h, Link(c, 1) + t);
    HoldsParts(p, a + 1, Link(c, 1), t);
    assert h[0] == p[a + 0] && t[0] == p[a + n + 1 + 0] && t[1] == p[a + n + 1 + 1];
    assert t[2] == p[a + n + 1 + 2] && t[3] == p[a + n + 1 + 3];
  }

  /** The nodes behind the body, `n` nodes long, of a plus at node `a`. */
  ghost predicate PlusNodes(p: Code, a: nat, n: nat, out: nat) {
    && a + n + 3 < |p| <= 0x8000 && out < |p|
    && p[a + n] == Node(Branch, 2) && p[a + n + 1] == Node(Goto, -(n + 1))
    && p[a + n + 2] == Node(Branch, 1) && p[a + n + 3] == Node(Nothing, out - (a + n + 3))
  }

  lemma PlacedPlus(p: Code, a: nat, c: Code, out: nat)
    requires |c| > 0 && Placed(p, a, PlusCode(c), out)
    ensures PlusNodes(p, a, |c|, out) && Placed(p, a, c, a + |c|)
  {
    var n := |c|;
    var t := [Node(Branch, 2), Node(Goto, -(n + 1)), Node(Branch, 1), Node(Nothing, out - (a + n + 3))];
    assert Link(PlusCode(c), out - (a + n + 3)) == Link(c, 1) + t;
    HoldsParts(p, a, Link(c, 1), t);
    assert t[0] == p[a + n + 0] && t[1] == p[a + n + 1] && t[2] == p[a + n + 2] && t[3] == p[a + n + 3];
  }

  /** The alternatives `c` lie at node `a`, with a non-branch node right behind them. */
  ghost predicate PlacedAlts(p: Code, a: nat, c: Code) {
    a + |c| < |p| <= 0x8000 && Holds(p, a, c) && !p[a + |c|].op.Branch?
  }

  lemma PlacedAlt(p: Code, a: nat, c: Code, rest: Code)
    requires |c| > 0 && PlacedAlts(p, a, AltCode(c, |rest|) + rest)
    ensures a + |c| + 1 + |rest| < |p| && p[a] == Node(Branch, |c| + 1)
    ensures Placed(p, a + 1, c, a + |c| + 1 + |rest|)
    ensures PlacedAlts(p, a + |c| + 1, rest)
  {
    var h := [Node(Branch, |c| + 1)];
    assert AltCode(c, |rest|) + rest == h + (Link(c, |rest| + 1) + rest);
    HoldsParts(p, a, h, Link(c, |rest| + 1) + rest);
    HoldsParts(p, a + 1, Link(c, |rest| + 1), rest);
    assert h[0] == p[a + 0];
  }

  lemma PlacedGroup(p: Code, a: nat, k: nat, c: Code, out: nat)
    requires Placed(p, a, GroupCode(k, c), out)
    ensures a + |c| + 1 < |p| && p[a] == Node(Open(k), 1) && PlacedAlts(p, a + 1, c)
    ensures p[a + |c| + 1] == Node(Close(k), out - (a + |c| + 1))
  {
    var h, t := [Node(Open(k), 1)], [Node(Close(k), out - (a + |c| + 1))];
    assert Link(GroupCode(k, c), out - (a + |c| + 1)) == h + (c + t);
    HoldsParts(p, a, h, c + t);
    HoldsParts(p, a + 1, c, t);
    assert h[0] == p[a + 0] && t[0] == p[a + 1 + |c| + 0];
  }

  /** The emitted fragment followed by the continuation `k` at `out` is ordered backtracking. */
  lemma {:induction false} Simulates(p: Code, x: Subject, t: Re, a: nat, out: nat, st: State,
      l: seq<State>, k: State -> Fate)
    requires Accepted(t) && LoopsAdvance(t) && st.pos <= |x.text| && Placed(p, a, Emit(t), out)
    requires l == Ends(x, t, st) && AllBehave(p, x, out, l, k)
    ensures Behaves(p, x, a, st, First(l, k))
    decreases t, Left(x, st), 0
  {
    hide Behaves, ChoicesBehave, Run, Choices, EmitAlts, AltEnds, EndsAll, Loop, LoopAll, First, AcceptedAlts,
      LoopsAdvanceAlts, CanBeEmpty, CanBeEmptyAlts;
    match t
    case Leaf(op) => SimulatesLeaf(p, x, op, a, out, st, k);
    case Empty =>
      assert p[a + 0] == Link([Node(Nothing, 0)], out - a)[0];
      StepBehaves(p, x, a, st, out, st, k(st));
      FirstOne(st, k);
    case Cat(l, r) => SimulatesCat(p, x, l, r, a, out, st, k);
    case Maybe(b) => SimulatesMaybe(p, x, b, a, out, st, k);
    case Star(b) => SimulatesStar(p, x, b, a, out, st, k);
    case Plus(b) => SimulatesPlus(p, x, b, a, out, st, k);
    case Group(n, alts) => SimulatesGroup(p, x, n, alts, a, out, st, k);
  }

  lemma SimulatesLeaf(p: Code, x: Subject, op: Op, a: nat, out: nat, st: State, k: State -> Fate)
    requires Accepted(Leaf(op)) && LoopsAdvance(Leaf(op)) && Placed(p, a, [Node(op, 0)], out)
    requires AllBehave(p, x, out, Ends(x, Leaf(op), st), k)
    ensures Behaves(p, x, a, st, First(Ends(x, Leaf(op), st), k))
  {
    assert p[a + 0] == Link([Node(op, 0)], out - a)[0];
    match Step(x, op, st)
    case Go(st1) =>
      StepBehaves(p, x, a, st, out, st1, k(st1));
      FirstOne(st1, k);
    case Stop => assert Fuel(1) && Run(p, x, a, st, 1) == Done(None);
  }

  lemma {:induction false} SimulatesCat(p: Code, x: Subject, l: Re, r: Re, a: nat, out: nat, st: State,
      k: State -> Fate)
    requires Accepted(l) && Accepted(r) && LoopsAdvance(l) && LoopsAdvance(r) && st.pos <= |x.text|
    requires Placed(p, a, CatCode(Emit(l), Emit(r)), out)
    requires AllBehave(p, x, out, EndsAll(x, r, Ends(x, l, st)), k)
    ensures Behaves(p, x, a, st, First(EndsAll(x, r, Ends(x, l, st)), k))
    decreases Cat(l, r), 0, 0
  {
    hide Behaves, ChoicesBehave, Run, Choices, Emit, EmitAlts, Ends, AltEnds, EndsAll, Loop, LoopAll, First,
      Accepted, AcceptedAlts, LoopsAdvance, LoopsAdvanceAlts, CanBeEmpty, CanBeEmptyAlts;
    var mid := a + |Emit(l)|;
    PlacedCat(p, a, Emit(l), Emit(r), out);
    forall e | e in Ends(x, l, st)
      ensures Behaves(p, x, mid, e, ThenK(x, r, k)(e))
    {
      EndsForward(x, l, st, e);
      forall e' | e' in Ends(x, r, e) {
        InEndsAll(x, r, Ends(x, l, st), e, e');
      }
      Simulates(p, x, r, mid, out, e, Ends(x, r, e), k);
    }
    Simulates(p, x, l, a, mid, st, Ends(x, l, st), ThenK(x, r, k));
    FirstEndsAll(x, r, Ends(x, l, st), k);
  }

  lemma {:induction false} SimulatesMaybe(p: Code, x: Subject, b: Re, a: nat, out: nat, st: State, k: State -> Fate)
    requires Accepted(b) && LoopsAdvance(b) && st.pos <= |x.text| && Placed(p, a, MaybeCode(Emit(b)), out)
    requires AllBehave(p, x, out, Ends(x, b, st) + [st], k)
    ensures Behaves(p, x, a, st, First(Ends(x, b, st) + [st], k))
    decreases b, Left(x, st), 1
  {
    hide Behaves, ChoicesBehave, Run, Choices, Emit, EmitAlts, Ends, AltEnds, EndsAll, Loop, LoopAll, First,
      Accepted, AcceptedAlts, LoopsAdvance, LoopsAdvanceAlts, CanBeEmpty, CanBeEmptyAlts;
    var n := |Emit(b)|;
    PlacedMaybe(p, a, Emit(b), out);
    forall e | e in Ends(x, b, st) + [st]
      ensures Behaves(p, x, a + n + 2, e, k(e))
    {
      StepBehaves(p, x, a + n + 2, e, out, e, k(e));
    }
    assert st in Ends(x, b, st) + [st];
    Simulates(p, x, b, a + 1, a + n + 2, st, Ends(x, b, st), k);
    TwoBranches(p, x, a, a + n + 1, st, First(Ends(x, b, st), k), k(st));
    FirstConcat(Ends(x, b, st), [st], k);
    FirstOne(st, k);
  }

  /** The back edge of a star: what the loop yields is what the end of the body yields. */
  lemma StarBackEdge(p: Code, x: Subject, a: nat, n: nat, out: nat, e: State, o: Fate)
    requires StarNodes(p, a, n, out)
    requires Behaves(p, x, a, e, o)
    ensures Behaves(p, x, a + n + 1, e, o)
  {
    hide Behaves, ChoicesBehave;
    StepBehaves(p, x, a + n + 2, e, a, e, o);
    SingleBranchBehaves(p, x, a + n + 1, e, o);
  }

  lemma LoopUnrolled(x: Subject, b: Re, st: State, k: State -> Fate)
    requires Accepted(b) && !CanBeEmpty(b) && st.pos <= |x.text|
    ensures Loop(x, b, st) == LoopAll(x, b, Ends(x, b, st)) + [st]
    ensures First(Loop(x, b, st), k) == Else(First(LoopAll(x, b, Ends(x, b, st)), k), k(st))
  {
    AllAdvance(x, b, st);
    FirstConcat(LoopAll(x, b, Ends(x, b, st)), [st], k);
    FirstOne(st, k);
  }

  lemma {:induction false} SimulatesStar(p: Code, x: Subject, b: Re, a: nat, out: nat, st: State, k: State -> Fate)
    requires Accepted(b) && !CanBeEmpty(b) && LoopsAdvance(b) && st.pos <= |x.text|
    requires Placed(p, a, StarCode(Emit(b)), out)
    requires AllBehave(p, x, out, Loop(x, b, st), k)
    ensures Behaves(p, x, a, st, First(Loop(x, b, st), k))
    decreases b, Left(x, st), 2
  {
    hide Behaves, ChoicesBehave, Run, Choices, Emit, EmitAlts, Ends, AltEnds, EndsAll, Loop, LoopAll, First,
      Accepted, AcceptedAlts, LoopsAdvance, LoopsAdvanceAlts, CanBeEmpty, CanBeEmptyAlts;
    var c, l, again := Emit(b), Ends(x, b, st), LoopK(x, b, k);
    var back := a + |c| + 1;
    PlacedStar(p, a, c, out);
    LoopUnrolled(x, b, st, k);
    PartsBehave(p, x, out, LoopAll(x, b, l), [st], k);
    StarRounds(p, x, b, a, back, out, st, l, k, again);
    Simulates(p, x, b, a + 1, back, st, l, again);
    StarExit(p, x, a, |c|, out, st, First(l, again), k(st));
    FirstLoopAll(x, b, l, k);
  }

  /** After one round the loop starts over, further ahead in the text. */
  lemma {:induction false} StarRounds(p: Code, x: Subject, b: Re, a: nat, back: nat, out: nat, st: State,
                                      l: seq<State>, k: State -> Fate, again: State -> Fate)
    requires Accepted(b) && !CanBeEmpty(b) && LoopsAdvance(b) && st.pos <= |x.text|
    requires Placed(p, a, StarCode(Emit(b)), out) && back == a + |Emit(b)| + 1
    requires l == Ends(x, b, st) && again == LoopK(x, b, k) && AllBehave(p, x, out, LoopAll(x, b, l), k)
    ensures AllBehave(p, x, back, l, again)
    decreases b, Left(x, st), 1
  {
    hide Behaves, ChoicesBehave, Run, Choices, Emit, EmitAlts, Ends, AltEnds, EndsAll, Loop, LoopAll, First,
      Accepted, AcceptedAlts, LoopsAdvance, LoopsAdvanceAlts, CanBeEmpty, CanBeEmptyAlts;
    PlacedStar(p, a, Emit(b), out);
    forall e | e in l
      ensures Behaves(p, x, back, e, again(e))
    {
      EndsForward(x, b, st, e);
      LaterRounds(p, x, b, out, st, e, k);
      SimulatesStar(p, x, b, a, out, e, k);
      StarBackEdge(p, x, a, |Emit(b)|, out, e, First(Loop(x, b, e), k));
    }
  }

  /** What holds for all results of the loop holds for those after one round. */
  lemma LaterRounds(p: Code, x: Subject, b: Re, out: nat, st: State, e: State, k: State -> Fate)
    requires e in Ends(x, b, st) && AllBehave(p, x, out, LoopAll(x, b, Ends(x, b, st)), k)
    ensures AllBehave(p, x, out, Loop(x, b, e), k)
  {
    hide Behaves, ChoicesBehave;
    forall e' | e' in Loop(x, b, e)
      ensures Behaves(p, x, out, e', k(e'))
    {
      InLoopAll(x, b, Ends(x, b, st), e, e');
    }
  }

  /** Entering a star: another round first, then the way out. */
  lemma StarExit(p: Code, x: Subject, a: nat, n: nat, out: nat, st: State, o: Fate, o': Fate)
    requires StarNodes(p, a, n, out)
    requires Behaves(p, x, a + 1, st, o) && Behaves(p, x, out, st, o')
    ensures Behaves(p, x, a, st, Else(o, o'))
  {
    hide Behaves, ChoicesBehave;
    StepBehaves(p, x, a + n + 4, st, out, st, o');
    TwoBranches(p, x, a, a + n + 3, st, o, o');
  }

  /** The end of a plus: back to the start first, then the way out. */
  lemma PlusBackEdge(p: Code, x: Subject, a: nat, n: nat, out: nat, e: State, o: Fate, o': Fate)
    requires PlusNodes(p, a, n, out)
    requires Behaves(p, x, a, e, o) && Behaves(p, x, out, e, o')
    ensures Behaves(p, x, a + n, e, Else(o, o'))
  {
    hide Behaves, ChoicesBehave;
    StepBehaves(p, x, a + n + 1, e, a, e, o);
    StepBehaves(p, x, a + n + 3, e, out, e, o');
    TwoBranches(p, x, a + n, a + n + 2, e, o, o');
  }

  lemma {:induction false} SimulatesPlus(p: Code, x: Subject, b: Re, a: nat, out: nat, st: State, k: State -> Fate)
    requires Accepted(b) && !CanBeEmpty(b) && LoopsAdvance(b) && st.pos <= |x.text|
    requires Placed(p, a, PlusCode(Emit(b)), out)
    requires AllBehave(p, x, out, LoopAll(x, b, Ends(x, b, st)), k)
    ensures Behaves(p, x, a, st, First(LoopAll(x, b, Ends(x, b, st)), k))
    decreases b, Left(x, st), 2
  {
    hide Behaves, ChoicesBehave, Run, Choices, Emit, EmitAlts, Ends, AltEnds, EndsAll, Loop, LoopAll, First,
      Accepted, AcceptedAlts, LoopsAdvance, LoopsAdvanceAlts, CanBeEmpty, CanBeEmptyAlts;
    var c, l, again := Emit(b), Ends(x, b, st), LoopK(x, b, k);
    var back := a + |c|;
    PlacedPlus(p, a, c, out);
    PlusRounds(p, x, b, a, back, out, st, l, k, again);
    Simulates(p, x, b, a, back, st, l, again);
    FirstLoopAll(x, b, l, k);
  }

  lemma {:induction false} PlusRounds(p: Code, x: Subject, b: Re, a: nat, back: nat, out: nat, st: State,
                                      l: seq<State>, k: State -> Fate, again: State -> Fate)
    requires Accepted(b) && !CanBeEmpty(b) && LoopsAdvance(b) && st.pos <= |x.text|
    requires Placed(p, a, PlusCode(Emit(b)), out) && back == a + |Emit(b)|
    requires l == Ends(x, b, st) && again == LoopK(x, b, k) && AllBehave(p, x, out, LoopAll(x, b, l), k)
    ensures AllBehave(p, x, back, l, again)
    decreases b, Left(x, st), 1
  {
    hide Behaves, ChoicesBehave, Run, Choices, Emit, EmitAlts, Ends, AltEnds, EndsAll, Loop, LoopAll, First,
      Accepted, AcceptedAlts, LoopsAdvance, LoopsAdvanceAlts, CanBeEmpty, CanBeEmptyAlts;
    forall e | e in l
      ensures Behaves(p, x, back, e, again(e))
    {
      EndsForward(x, b, st, e);
      LaterRounds(p, x, b, out, st, e, k);
      PlusRound(p, x, b, a, back, out, e, k);
    }
  }

  lemma {:induction false} PlusRound(p: Code, x: Subject, b: Re, a: nat, back: nat, out: nat, e: State,
      k: State -> Fate)
    requires Accepted(b) && !CanBeEmpty(b) && LoopsAdvance(b) && e.pos <= |x.text|
    requires Placed(p, a, PlusCode(Emit(b)), out) && back == a + |Emit(b)|
    requires AllBehave(p, x, out, Loop(x, b, e), k)
    ensures Behaves(p, x, back, e, First(Loop(x, b, e), k))
    decreases b, Left(x, e), 3
  {
    hide Behaves, ChoicesBehave, Run, Choices, Emit, EmitAlts, Ends, AltEnds, EndsAll, Loop, LoopAll, First,
      Accepted, AcceptedAlts, LoopsAdvance, LoopsAdvanceAlts, CanBeEmpty, CanBeEmptyAlts;
    var l := Ends(x, b, e);
    LoopUnrolled(x, b, e, k);
    PartsBehave(p, x, out, LoopAll(x, b, l), [e], k);
    SimulatesPlus(p, x, b, a, out, e, k);
    PlacedPlus(p, a, Emit(b), out);
    PlusBackEdge(p, x, a, |Emit(b)|, out, e, First(LoopAll(x, b, l), k), k(e));
  }

  lemma PartsBehave(p: Code, x: Subject, out: int, l: seq<State>, m: seq<State>, k: State -> Fate)
    requires AllBehave(p, x, out, l + m, k)
    ensures AllBehave(p, x, out, l, k) && AllBehave(p, x, out, m, k)
    ensures m != [] ==> Behaves(p, x, out, m[0], k(m[0]))
  {
    hide Behaves, ChoicesBehave;
    assert forall e :: e in l ==> e in l + m;
    assert forall e :: e in m ==> e in l + m;
  }

  lemma {:induction false} SimulatesGroup(p: Code, x: Subject, n: nat, alts: Alts, a: nat, out: nat, st: State,
      k: State -> Fate)
    requires AcceptedAlts(alts) && LoopsAdvanceAlts(alts) && st.pos <= |x.text|
    requires Placed(p, a, GroupCode(n, EmitAlts(alts)), out)
    requires AllBehave(p, x, out, Ends(x, Group(n, alts), st), k)
    ensures Behaves(p, x, a, st, First(Ends(x, Group(n, alts), st), k))
    decreases alts, Left(x, st), 1
  {
    hide Behaves, ChoicesBehave, Run, Choices, Emit, EmitAlts, AltEnds, EndsAll, Loop, LoopAll, First,
      Accepted, AcceptedAlts, LoopsAdvance, LoopsAdvanceAlts, CanBeEmpty, CanBeEmptyAlts;
    var c := EmitAlts(alts);
    var st1 := st.(opens := Push(st.opens, n, st.pos));
    var l := AltEnds(x, alts, st1);
    PlacedGroup(p, a, n, c, out);
    forall e | e in l
      ensures Behaves(p, x, a + |c| + 1, e, CloseK(n, k)(e))
    {
      CloseStep(p, x, n, l, a + |c| + 1, out, e, k);
    }
    SimulatesAlts(p, x, alts, a + 1, st1, CloseK(n, k));
    FirstCloseAll(l, n, k);
    StepBehaves(p, x, a, st, a + 1, st1, First(l, CloseK(n, k)));
  }

  lemma CloseStep(p: Code, x: Subject, n: nat, l: seq<State>, node: nat, out: nat, e: State, k: State -> Fate)
    requires node < |p| <= 0x8000 && out < |p| && p[node] == Node(Close(n), out - node)
    requires e in l && AllBehave(p, x, out, CloseAll(l, n), k)
    ensures Behaves(p, x, node, e, CloseK(n, k)(e))
  {
    hide Behaves, ChoicesBehave;
    CloseAllIn(l, n, e);
    StepBehaves(p, x, node, e, out, CloseOne(e, n), k(CloseOne(e, n)));
  }

  /** Alternatives, entered at their first branch node. */
  lemma {:induction false} SimulatesAlts(p: Code, x: Subject, alts: Alts, a: nat, st: State, k: State -> Fate)
    requires AcceptedAlts(alts) && LoopsAdvanceAlts(alts) && st.pos <= |x.text|
    requires PlacedAlts(p, a, EmitAlts(alts))
    requires AllBehave(p, x, a + |EmitAlts(alts)|, AltEnds(x, alts, st), k)
    ensures Behaves(p, x, a, st, First(AltEnds(x, alts, st), k))
    decreases alts, Left(x, st), 0, 1
  {
    hide Behaves, ChoicesBehave, Run, Choices, Emit, Ends, EndsAll, Loop, LoopAll, First, Accepted,
      LoopsAdvance, CanBeEmpty, CanBeEmptyAlts;
    match alts
    case Only(t) =>
      var c := Emit(t);
      assert AltCode(c, 0) + [] == AltCode(c, 0);
      PlacedAlt(p, a, c, []);
      Simulates(p, x, t, a + 1, a + |c| + 1, st, Ends(x, t, st), k);
      SingleBranchBehaves(p, x, a, st, First(Ends(x, t, st), k));
    case Or(t, rest) =>
      PlacedAlt(p, a, Emit(t), EmitAlts(rest));
      assert p[a + |Emit(t)| + 1 + 0] == EmitAlts(rest)[0];
      SimulatesChoices(p, x, alts, a, st, k);
      BranchBehaves(p, x, a, st, First(AltEnds(x, alts, st), k));
  }

  /** The loop over alternatives, started at any of them. */
  lemma {:induction false} SimulatesChoices(p: Code, x: Subject, alts: Alts, a: nat, st: State, k: State -> Fate)
    requires AcceptedAlts(alts) && LoopsAdvanceAlts(alts) && st.pos <= |x.text|
    requires PlacedAlts(p, a, EmitAlts(alts))
    requires AllBehave(p, x, a + |EmitAlts(alts)|, AltEnds(x, alts, st), k)
    ensures ChoicesBehave(p, x, a, st, First(AltEnds(x, alts, st), k))
    decreases alts, Left(x, st), 0, 0
  {
    hide Behaves, ChoicesBehave, Run, Choices, Emit, Ends, EndsAll, Loop, LoopAll, First, Accepted,
      LoopsAdvance, CanBeEmpty, CanBeEmptyAlts;
    match alts
    case Only(t) =>
      var c := Emit(t);
      assert AltCode(c, 0) + [] == AltCode(c, 0);
      PlacedAlt(p, a, c, []);
      Simulates(p, x, t, a + 1, a + |c| + 1, st, Ends(x, t, st), k);
      LastChoice(p, x, a, st, First(Ends(x, t, st), k));
    case Or(t, rest) =>
      var c, d := Emit(t), EmitAlts(rest);
      PartsBehave(p, x, a + |c| + 1 + |d|, Ends(x, t, st), AltEnds(x, rest, st), k);
      SimulatesOr(p, x, t, rest, a, c, d, st, k);
  }

  lemma {:induction false} SimulatesOr(p: Code, x: Subject, t: Re, rest: Alts, a: nat, c: Code, d: Code, st: State,
      k: State -> Fate)
    requires Accepted(t) && LoopsAdvance(t) && AcceptedAlts(rest) && LoopsAdvanceAlts(rest) && st.pos <= |x.text|
    requires c == Emit(t) && d == EmitAlts(rest) && PlacedAlts(p, a, AltCode(c, |d|) + d)
    requires AllBehave(p, x, a + |c| + 1 + |d|, Ends(x, t, st), k)
    requires AllBehave(p, x, a + |c| + 1 + |d|, AltEnds(x, rest, st), k)
    ensures ChoicesBehave(p, x, a, st, First(Ends(x, t, st) + AltEnds(x, rest, st), k))
    decreases Or(t, rest), 0, 0
  {
    hide Behaves, ChoicesBehave, Run, Choices, Emit, EmitAlts, Ends, AltEnds, EndsAll, Loop, LoopAll, First,
      Accepted, AcceptedAlts, LoopsAdvance, LoopsAdvanceAlts, CanBeEmpty, CanBeEmptyAlts;
    PlacedAlt(p, a, c, d);
    assert p[a + |c| + 1 + 0] == d[0];
    var l, m := Ends(x, t, st), AltEnds(x, rest, st);
    Simulates(p, x, t, a + 1, a + |c| + 1 + |d|, st, l, k);
    SimulatesChoices(p, x, rest, a + |c| + 1, st, k);
    MoreChoices(p, x, a, st, First(l, k), First(m, k));
    FirstConcat(l, m, k);
  }

  /** The state in which `MatchAt` starts. */
  function Start(i: nat): State {
    State(i, map[], map[])
  }

  /** What a whole match attempt at `i` has to find: the first way to match in backtracking order. */
  ghost function Wanted(x: Subject, alts: Alts, i: nat): Option<State> {
    var l := AltEnds(x, alts, Start(i));
    if l == [] then None else Some(l[0])
  }

  ghost function EndK(): State -> Fate {
    (e: State) => Finds(e)
  }

  /** Compilation preserves meaning: for every accepted expression in which loops advance, and every
      text, flags and position, the emitted program terminates inside the program and finds what
      backtracking finds first. */
  lemma CompiledProgramCorrect(alts: Alts, x: Subject, i: nat)
    requires AcceptedAlts(alts) && LoopsAdvanceAlts(alts) && i <= |x.text|
    requires |EmitProgram(alts)| <= 0x8000
    ensures Yields(EmitProgram(alts), x, 0, Start(i), Wanted(x, alts, i))
  {
    hide EmitAlts, AltEnds, Ends, AcceptedAlts, LoopsAdvanceAlts;
    var p := EmitProgram(alts);
    var n := |EmitAlts(alts)|;
    forall e ensures Behaves(p, x, n, e, EndK()(e)) {
      assert Fuel(1) && Run(p, x, n, e, 1) == Done(Some(e));
    }
    SimulatesAlts(p, x, alts, 0, Start(i), EndK());
    assert First(AltEnds(x, alts, Start(i)), EndK()) == FateOf(Wanted(x, alts, i));
  }
}
