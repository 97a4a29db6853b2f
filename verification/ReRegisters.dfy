/** Capture registers and back-reference stacks: how they grow along a match and what they say. */
module ReRegisters {
  import opened ReCode
  import opened ReMatch
  import opened ReSim

  type Registers = map<nat, nat>

  function Last(s: seq<nat>): nat
    requires s != []
  {
    s[|s| - 1]
  }

  /** No group is stored with an empty stack. */
  predicate NoneEmpty(m: Stacks) {
    forall k :: k in m ==> m[k] != []
  }

  /** Removes the topmost position of group `k`. */
  function Pop(m: Stacks, k: nat): Stacks
    requires k in m && m[k] != []
  {
    if |m[k]| == 1 then m - {k} else m[k := m[k][..|m[k]| - 1]]
  }

  lemma PopUndoesPush(m: Stacks, k: nat, i: nat)
    requires NoneEmpty(m)
    ensures NoneEmpty(Push(m, k, i)) && Push(m, k, i)[k] != [] && Pop(Push(m, k, i), k) == m
  {
    assert Push(m, k, i)[k][..|Stack(m, k)|] == Stack(m, k);
  }

  /** Every stack of `m` is the bottom part of the same stack of `m'`. */
  ghost predicate Extends(m: Stacks, m': Stacks) {
    forall k: nat :: Stack(m, k) <= Stack(m', k)
  }

  lemma StepExtends(x: Subject, op: Op, st: State)
    requires !op.End? && !op.Branch?
    ensures var r := Step(x, op, st);
      r.Go? ==> Extends(st.opens, r.st.opens) && Extends(st.closes, r.st.closes)
  {
  }

  lemma StepKeepsStacks(x: Subject, op: Op, st: State)
    requires !op.End? && !op.Branch? && !op.Open? && !op.Close?
    ensures var r := Step(x, op, st); r.Go? ==> r.st.opens == st.opens && r.st.closes == st.closes
  {
  }

  lemma ExtendsTransitive(a: Stacks, b: Stacks, c: Stacks)
    requires Extends(a, b) && Extends(b, c)
    ensures Extends(a, c)
  {
    forall k: nat
      ensures Stack(a, k) <= Stack(c, k)
    {
      assert Stack(a, k) <= Stack(b, k) <= Stack(c, k);
    }
  }

  /** Whatever the program, a successful run only pushes. */
  lemma {:induction false} RunExtends(p: Code, x: Subject, node: int, st: State, fuel: nat)
    ensures var r := Run(p, x, node, st, fuel);
      r.Done? && r.result.Some? ==>
        Extends(st.opens, r.result.value.opens) && Extends(st.closes, r.result.value.closes)
    decreases fuel, 0
  {
    if fuel > 0 && 0 <= node < |p| && !p[node].op.End? {
      var next := node + Short(p[node].next);
      if p[node].op.Branch? {
        if IsBranch(p, next) {
          ChoicesExtend(p, x, node, st, fuel - 1);
        } else {
          RunExtends(p, x, node + 1, st, fuel - 1);
        }
      } else if Step(x, p[node].op, st).Go? {
        StepThenRun(p, x, next, st, Step(x, p[node].op, st).st, p[node].op, fuel - 1);
      }
    }
  }

  lemma {:induction false} StepThenRun(p: Code, x: Subject, next: int, st: State, st1: State, op: Op, fuel: nat)
    requires !op.End? && !op.Branch? && Step(x, op, st) == Go(st1)
    ensures var r := Run(p, x, next, st1, fuel);
      r.Done? && r.result.Some? ==>
        Extends(st.opens, r.result.value.opens) && Extends(st.closes, r.result.value.closes)
    decreases fuel, 1
  {
    hide Run, Extends, Step;
    RunExtends(p, x, next, st1, fuel);
    StepExtends(x, op, st);
    var r := Run(p, x, next, st1, fuel);
    if r.Done? && r.result.Some? {
      ExtendsTransitive(st.opens, st1.opens, r.result.value.opens);
      ExtendsTransitive(st.closes, st1.closes, r.result.value.closes);
    }
  }

  lemma {:induction false} ChoicesExtend(p: Code, x: Subject, node: nat, st: State, fuel: nat)
    requires node < |p|
    ensures var r := Choices(p, x, node, st, fuel);
      r.Done? && r.result.Some? ==>
        Extends(st.opens, r.result.value.opens) && Extends(st.closes, r.result.value.closes)
    decreases fuel, 0
  {
    hide Run, Extends;
    if fuel > 0 {
      RunExtends(p, x, node + 1, st, fuel - 1);
      var n := node + p[node].next;
      if p[node].next != 0 && IsBranch(p, n) {
        ChoicesExtend(p, x, n, st, fuel - 1);
      }
    }
  }

  // ---------------------------------------------------------------------------------------
  // Registers
  // ---------------------------------------------------------------------------------------

  /** Registers after a match: those already set stay, a group entered during the match gets the
      topmost position it pushed. */
  function Filled(regs: Registers, before: Stacks, after: Stacks): Registers {
    map k | k in regs.Keys + after.Keys && (k in regs || |Stack(after, k)| > |Stack(before, k)|) ::
      if k in regs then regs[k] else Last(Stack(after, k))
  }

  lemma FilledSame(regs: Registers, m: Stacks)
    ensures Filled(regs, m, m) == regs
  {
  }

  lemma FilledAt(regs: Registers, before: Stacks, after: Stacks, j: nat)
    ensures var f := Filled(regs, before, after);
      && (j in f <==> j in regs || |Stack(after, j)| > |Stack(before, j)|)
      && (j in regs ==> f[j] == regs[j])
      && (j in f && j !in regs ==> Stack(after, j) != [] && f[j] == Last(Stack(after, j)))
  {
  }

  lemma FilledStepAt(regs: Registers, m: Stacks, k: nat, i: nat, after: Stacks, j: nat)
    requires Extends(Push(m, k, i), after)
    ensures var f := Filled(regs, Push(m, k, i), after);
      var g, h := if k in f then f else f[k := i], Filled(regs, m, after);
      (j in h <==> j in g) && (j in h && j in g ==> h[j] == g[j])
  {
    hide Filled;
    FilledAt(regs, Push(m, k, i), after, j);
    FilledAt(regs, m, after, j);
    assert Stack(Push(m, k, i), k) == Stack(m, k) + [i];
    assert Stack(Push(m, k, i), j) <= Stack(after, j);
  }

  /** Setting register `k` on the way out, if it is still unset, completes the registers. */
  lemma FilledStep(regs: Registers, m: Stacks, k: nat, i: nat, after: Stacks)
    requires Extends(Push(m, k, i), after)
    ensures var f := Filled(regs, Push(m, k, i), after);
      Filled(regs, m, after) == if k in f then f else f[k := i]
  {
    hide Filled, Push, Extends;
    var f := Filled(regs, Push(m, k, i), after);
    var g, h := if k in f then f else f[k := i], Filled(regs, m, after);
    forall j: nat
      ensures (j in h <==> j in g) && (j in h && j in g ==> h[j] == g[j])
    {
      FilledStepAt(regs, m, k, i, after, j);
    }
    assert h.Keys == g.Keys;
  }

  // ---------------------------------------------------------------------------------------
  // Where groups begin and end
  // ---------------------------------------------------------------------------------------

  /** Between `st` and `r` group `k` was either left alone or last matched inside the two positions. */
  ghost predicate Inside(st: State, r: State, k: nat) {
    var o, c, o', c' := Stack(st.opens, k), Stack(st.closes, k), Stack(r.opens, k), Stack(r.closes, k);
    || (o' == o && c' == c)
    || (|o'| > |o| && |c'| > |c| && st.pos <= Last(o') <= Last(c') <= r.pos)
  }

  ghost predicate AllInside(st: State, r: State) {
    st.pos <= r.pos && forall k: nat :: Inside(st, r, k)
  }

  lemma InsideTransitive(a: State, b: State, c: State)
    requires AllInside(a, b) && AllInside(b, c)
    ensures AllInside(a, c)
  {
    forall k: nat
      ensures Inside(a, c, k)
    {
      assert Inside(a, b, k) && Inside(b, c, k);
    }
  }

  lemma GroupInside(st: State, e: State, k: nat)
    requires AllInside(st.(opens := Push(st.opens, k, st.pos)), e)
    ensures AllInside(st, CloseOne(e, k))
  {
    var st1 := st.(opens := Push(st.opens, k, st.pos));
    forall j: nat
      ensures Inside(st, CloseOne(e, k), j)
    {
      assert Inside(st1, e, j);
      assert Stack(CloseOne(e, k).closes, k) == Stack(e.closes, k) + [e.pos];
      assert Stack(st1.opens, k) == Stack(st.opens, k) + [st.pos];
    }
  }

  lemma {:induction false} EndsInside(x: Subject, t: Re, st: State, r: State)
    requires Accepted(t) && st.pos <= |x.text| && r in Ends(x, t, st)
    ensures AllInside(st, r)
    decreases t, Left(x, st), 0, 0
  {
    hide AllInside;
    EndsForward(x, t, st, r);
    match t
    case Leaf(op) => LeafInside(x, op, st, r);
    case Empty => SameInside(st);
    case Cat(a, b) =>
      var e := EndsAllFrom(x, b, Ends(x, a, st), r);
      EndsForward(x, a, st, e);
      EndsInside(x, a, st, e);
      EndsInside(x, b, e, r);
      InsideTransitive(st, e, r);
    case Maybe(a) =>
      SameInside(st);
      if r in Ends(x, a, st) {
        EndsInside(x, a, st, r);
      }
    case Star(a) => LoopInside(x, a, st, r);
    case Plus(a) =>
      var e := LoopAllFrom(x, a, Ends(x, a, st), r);
      EndsForward(x, a, st, e);
      EndsInside(x, a, st, e);
      LoopInside(x, a, e, r);
      InsideTransitive(st, e, r);
    case Group(k, alts) =>
      var st1 := st.(opens := Push(st.opens, k, st.pos));
      var e := CloseAllFrom(AltEnds(x, alts, st1), k, r);
      AltEndsInside(x, alts, st1, e);
      GroupInside(st, e, k);
  }

  lemma SameInside(st: State)
    ensures AllInside(st, st)
  {
  }

  lemma LeafInside(x: Subject, op: Op, st: State, r: State)
    requires IsTerminalOp(op) && r in Ends(x, Leaf(op), st)
    ensures AllInside(st, r)
  {
    assert r.opens == st.opens && r.closes == st.closes;
  }

  lemma {:induction false} LoopInside(x: Subject, a: Re, st: State, r: State)
    requires Accepted(a) && st.pos <= |x.text| && r in Loop(x, a, st)
    ensures AllInside(st, r)
    decreases a, Left(x, st), 1, 0
  {
    hide AllInside;
    var more := Advanced(x, Ends(x, a, st), st.pos);
    if r in LoopAll(x, a, more) {
      var e := LoopAllFrom(x, a, more, r);
      AdvancedIn(x, Ends(x, a, st), st.pos, e);
      EndsInside(x, a, st, e);
      LoopInside(x, a, e, r);
      InsideTransitive(st, e, r);
    } else {
      SameInside(st);
    }
  }

  lemma {:induction false} AltEndsInside(x: Subject, alts: Alts, st: State, r: State)
    requires AcceptedAlts(alts) && st.pos <= |x.text| && r in AltEnds(x, alts, st)
    ensures AllInside(st, r)
    decreases alts, Left(x, st), 0, 0
  {
    hide AllInside;
    match alts
    case Only(t) => EndsInside(x, t, st, r);
    case Or(t, rest) =>
      if r in Ends(x, t, st) {
        EndsInside(x, t, st, r);
      } else {
        AltEndsInside(x, rest, st, r);
      }
  }
}
