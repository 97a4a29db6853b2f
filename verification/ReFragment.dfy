/** The fragment invariant of the emitted code, and how patching acts on code inside a program. */
module ReFragment {
  import opened ReCode

  /** Alternatives: no open node, and every target inside or right behind them. */
  ghost predicate ClosedAlts(c: Code) {
    forall i :: 0 <= i < |c| ==> c[i].next != 0 && 0 <= i + c[i].next <= |c|
  }

  lemma MaybeFragment(x: Code)
    requires Fragment(x)
    ensures Fragment(MaybeCode(x))
  {
    var n, c := |x|, MaybeCode(x);
    assert c[0] == Node(Branch, n + 1) && c[n + 1] == Node(Branch, 1) && c[n + 2] == Node(Nothing, 0);
    assert Chain(c, n + 2, n + 2);
    assert Chain(c, n + 1, n + 2);
    forall i | 0 <= i < |c| - 1
      ensures Closed(c, i)
    {
      if 1 <= i <= n {
        assert c[i] == Link(x, 2)[i - 1];
        assert i < n ==> Closed(x, i - 1);
      }
    }
  }

  lemma StarFragment(x: Code)
    requires Fragment(x)
    ensures Fragment(StarCode(x))
  {
    var n, c := |x|, StarCode(x);
    assert c[0] == Node(Branch, n + 3) && c[n + 1] == Node(Branch, 1) && c[n + 2] == Node(Goto, -(n + 2));
    assert c[n + 3] == Node(Branch, 1) && c[n + 4] == Node(Nothing, 0);
    assert Chain(c, n + 4, n + 4);
    assert Chain(c, n + 3, n + 4);
    forall i | 0 <= i < |c| - 1
      ensures Closed(c, i)
    {
      if 1 <= i <= n {
        assert c[i] == Link(x, 1)[i - 1];
        assert i < n ==> Closed(x, i - 1);
      }
    }
  }

  /** Linking a fragment to the code right behind it joins the chains. */
  lemma JoinChain(x: Code, y: Code, e: nat)
    requires Fragment(x) && Chain(y, 0, e)
    ensures Chain(Link(x, 1) + y, 0, |x| + e)
  {
    var c := x + y;
    ChainGrows(x, [], y, 0, |x| - 1);
    ChainGrows(y, x, [], 0, e);
    assert [] + x + y == c && x + y + [] == c;
    ChainJoin(c, 0, |x| - 1, |x|, |x| + e);
    assert SetNext(c, |x| - 1, 1) == Link(x, 1) + y;
  }

  lemma PlusFragment(x: Code)
    requires Fragment(x)
    ensures Fragment(PlusCode(x))
  {
    var n, c := |x|, PlusCode(x);
    var t := [Node(Branch, 2), Node(Goto, -(n + 1)), Node(Branch, 1), Node(Nothing, 0)];
    assert Chain(t, 3, 3);
    assert Chain(t, 2, 3);
    JoinChain(x, t, 3);
    forall i | 0 <= i < |c| - 1
      ensures Closed(c, i)
    {
      if i < n {
        assert c[i] == Link(x, 1)[i];
        assert i < n - 1 ==> Closed(x, i);
      } else {
        assert c[i] == t[i - n];
      }
    }
  }

  lemma CatFragment(x: Code, y: Code)
    requires Fragment(x) && Fragment(y)
    ensures Fragment(CatCode(x, y))
  {
    var n, c := |x|, CatCode(x, y);
    JoinChain(x, y, |y| - 1);
    forall i | 0 <= i < |c| - 1
      ensures Closed(c, i)
    {
      if i < n {
        assert c[i] == Link(x, 1)[i];
        assert i < n - 1 ==> Closed(x, i);
      } else {
        assert c[i] == y[i - n];
        assert Closed(y, i - n);
      }
    }
  }

  lemma AltClosed(x: Code, rest: Code)
    requires Fragment(x) && ClosedAlts(rest)
    ensures ClosedAlts(AltCode(x, |rest|) + rest)
  {
    var n, c := |x|, AltCode(x, |rest|) + rest;
    forall i | 0 <= i < |c|
      ensures c[i].next != 0 && 0 <= i + c[i].next <= |c|
    {
      if 1 <= i <= n {
        assert c[i] == Link(x, |rest| + 1)[i - 1];
        assert i < n ==> Closed(x, i - 1);
      } else if i > n {
        assert c[i] == rest[i - n - 1];
      }
    }
  }

  lemma GroupFragment(k: nat, alts: Code)
    requires ClosedAlts(alts) && Chain(alts + [Node(Close(k), 0)], 0, |alts|)
    ensures Fragment(GroupCode(k, alts))
  {
    hide ClosedAlts;
    var c := GroupCode(k, alts);
    var t := alts + [Node(Close(k), 0)];
    ChainGrows(t, [Node(Open(k), 1)], [], 0, |alts|);
    assert [Node(Open(k), 1)] + t + [] == c;
    assert c[0] == Node(Open(k), 1) && Chain(c, 0, |c| - 1);
    GroupClosed(k, alts);
  }

  lemma GroupClosed(k: nat, alts: Code)
    requires ClosedAlts(alts)
    ensures forall i :: 0 <= i < |alts| + 1 ==> Closed(GroupCode(k, alts), i)
  {
    var c := GroupCode(k, alts);
    forall i | 0 <= i < |c| - 1
      ensures Closed(c, i)
    {
      if i > 0 {
        assert c[i] == alts[i - 1];
      }
    }
  }

  /** Every emitted fragment has exactly one open node, its last, at the end of its entry chain. */
  lemma {:induction false} EmitFragment(t: Re)
    ensures Fragment(Emit(t))
  {
    match t
    case Leaf(op) =>
    case Empty =>
    case Cat(a, b) =>
      EmitFragment(a);
      EmitFragment(b);
      CatFragment(Emit(a), Emit(b));
    case Maybe(a) =>
      EmitFragment(a);
      MaybeFragment(Emit(a));
    case Star(a) =>
      EmitFragment(a);
      StarFragment(Emit(a));
    case Plus(a) =>
      EmitFragment(a);
      PlusFragment(Emit(a));
    case Group(k, alts) =>
      EmitAltsClosed(alts, Node(Close(k), 0));
      GroupFragment(k, EmitAlts(alts));
  }

  lemma {:induction false} EmitAltsClosed(alts: Alts, last: Node)
    requires last.next == 0
    ensures ClosedAlts(EmitAlts(alts)) && Chain(EmitAlts(alts) + [last], 0, |EmitAlts(alts)|)
  {
    EmitFragment(alts.re);
    match alts
    case Only(t) =>
      var c := AltCode(Emit(t), 0);
      AltClosed(Emit(t), []);
      assert c + [] == c;
      assert Chain(c + [last], |c|, |c|);
    case Or(t, rest) =>
      EmitAltsClosed(rest, last);
      var r := EmitAlts(rest);
      var c := AltCode(Emit(t), |r|);
      AltClosed(Emit(t), r);
      ChainGrows(r + [last], c, [], 0, |r|);
      assert c + (r + [last]) + [] == c + r + [last];
  }

  /** No node of a whole program leaves it, and only the final node is open. */
  lemma ProgramClosed(alts: Alts)
    ensures var p := EmitProgram(alts);
      && p[|p| - 1].op == End && Chain(p, 0, |p| - 1)
      && forall i :: 0 <= i < |p| - 1 ==> Closed(p, i)
  {
    EmitAltsClosed(alts, Node(End, 0));
    var c, p := EmitAlts(alts), EmitProgram(alts);
    forall i | 0 <= i < |p| - 1
      ensures Closed(p, i)
    {
      assert p[i] == c[i];
    }
  }
}
