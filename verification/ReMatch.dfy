/** Two views of matching: what running a program does (`Run`), and ordered backtracking over the
    tree (`Ends`). */
module ReMatch {
  import opened Text
  import opened ReCode

  datatype Option<+T> = None | Some(value: T)

  /** The text searched in, with the match flags. */
  datatype Subject = Subject(text: string, icase: bool, multiline: bool, dotNewline: bool)

  /** For every group number the positions pushed so far; a missing key is an empty stack. */
  type Stacks = map<nat, seq<nat>>

  function Stack(m: Stacks, k: nat): seq<nat> {
    if k in m then m[k] else []
  }

  function Push(m: Stacks, k: nat, i: nat): Stacks {
    m[k := Stack(m, k) + [i]]
  }

  /** A matching state: the place in the text and the two back-reference stacks. */
  datatype State = State(pos: nat, opens: Stacks, closes: Stacks)

  // ---------------------------------------------------------------------------------------
  // One node
  // ---------------------------------------------------------------------------------------

  /** What one non-branching node does: go on or fail. */
  datatype Outcome = Go(st: State) | Stop

  function StepBackRef(x: Subject, k: nat, st: State): Outcome {
    if Stack(st.opens, k) == [] || Stack(st.closes, k) == [] then Stop
    else
      var s, e := Stack(st.opens, k)[0], Stack(st.closes, k)[0];
      var len: int := e - s;
      if len == 0 then Go(st)
      else if len < 0 || |x.text| < e || |x.text| <= st.pos + len - 1 then Stop
      else
        var here, there := x.text[st.pos..st.pos + len], x.text[s..s + len];
        if x.icase then
          if Fold(CStr(here)) == Fold(CStr(there)) then Go(st.(pos := st.pos + len)) else Stop
        else
          if CStr(here) == CStr(there) then Go(st.(pos := st.pos + len)) else Stop
  }

  /** A literal is compared as a C string; what is left of one that begins with NUL is empty and matches
      without consuming anything. */
  function StepAtom(x: Subject, text: string, st: State): Outcome {
    var atom := CStr(text);
    if |x.text| <= |atom| + st.pos - 1 then Stop
    else if SameText(x.icase, atom, x.text[st.pos..st.pos + |atom|]) then Go(st.(pos := st.pos + |atom|))
    else Stop
  }

  function Step(x: Subject, op: Op, st: State): Outcome
    requires !op.End? && !op.Branch?
  {
    var s, i := x.text, st.pos;
    match op
    case Open(k) => Go(st.(opens := Push(st.opens, k, i)))
    case Close(k) => Go(st.(closes := Push(st.closes, k, i)))
    case BackRef(k) => StepBackRef(x, k, st)
    case Bol => if i != 0 && (!x.multiline || At(s, i - 1) != '\n') then Stop else Go(st)
    case Eol =>
      if |s| > 0 && |s| > i && (!x.multiline || At(s, i) != '\n') then Stop else Go(st)
    case Bow(positive) =>
      var last := if i == 0 then ' ' else At(s, i - 1);
      var nxt := if |s| <= i then ' ' else At(s, i);
      if (IsAlnum(last) == IsAlnum(nxt)) == positive then Stop else Go(st)
    case Any =>
      if |s| <= i || (At(s, i) == '\n' && !x.dotNewline) then Stop else Go(st.(pos := i + 1))
    case Atom(text) => StepAtom(x, text, st)
    case AnyOf(members) =>
      if |s| <= i then Stop
      else if (if x.icase then ToLower(s[i]) else s[i]) in members then Go(st.(pos := i + 1))
      else Stop
    case Nothing => Go(st)
    case Goto => Go(st)
  }

  // ---------------------------------------------------------------------------------------
  // Running a program
  // ---------------------------------------------------------------------------------------

  /** `Timeout`: the fuel did not suffice; `Corrupt`: a jump led out of the program. */
  datatype Res = Timeout | Corrupt | Done(result: Option<State>)

  /** Conversion of an offset to a 16-bit `short`. */
  function Short(n: int): int {
    (n + 0x8000) % 0x1_0000 - 0x8000
  }

  predicate IsBranch(p: Code, i: int) {
    0 <= i < |p| && p[i].op.Branch?
  }

  /** `MatchNodes` from `node` on, with at most `fuel` nested steps. */
  function Run(p: Code, x: Subject, node: int, st: State, fuel: nat): Res
    decreases fuel, 0
  {
    if fuel == 0 then Timeout else RunNode(p, x, node, st, fuel - 1)
  }

  /** One turn of the loop over the nodes. */
  function RunNode(p: Code, x: Subject, node: int, st: State, fuel: nat): Res
    decreases fuel, 1
  {
    if !(0 <= node < |p|) then Corrupt
    else
      var next := node + Short(p[node].next);
      match p[node].op
      case End => Done(Some(st))
      case Branch =>
        if !IsBranch(p, next) then Run(p, x, node + 1, st, fuel)
        else Choices(p, x, node, st, fuel)
      case op =>
        match Step(x, op, st)
        case Go(st1) => Run(p, x, next, st1, fuel)
        case Stop => Done(None)
  }

  /** The loop over the alternatives of a branch node. */
  function Choices(p: Code, x: Subject, node: nat, st: State, fuel: nat): Res
    requires node < |p|
    decreases fuel, 0
  {
    if fuel == 0 then Timeout else ChooseNext(p, x, node, st, fuel - 1)
  }

  function ChooseNext(p: Code, x: Subject, node: nat, st: State, fuel: nat): Res
    requires node < |p|
    decreases fuel, 1
  {
    var r := Run(p, x, node + 1, st, fuel);
    if r != Done(None) then r
    else
      var n := node + p[node].next;
      if p[node].next != 0 && IsBranch(p, n) then Choices(p, x, n, st, fuel) else Done(None)
  }

  lemma {:induction false} MoreFuel(p: Code, x: Subject, node: int, st: State, f: nat, g: nat)
    requires f <= g && Run(p, x, node, st, f) != Timeout
    ensures Run(p, x, node, st, g) == Run(p, x, node, st, f)
    decreases f
  {
    if 0 <= node < |p| && !p[node].op.End? {
      var next := node + Short(p[node].next);
      if p[node].op.Branch? {
        if IsBranch(p, next) {
          MoreFuelChoices(p, x, node, st, f - 1, g - 1);
        } else {
          MoreFuel(p, x, node + 1, st, f - 1, g - 1);
        }
      } else if Step(x, p[node].op, st).Go? {
        MoreFuel(p, x, next, Step(x, p[node].op, st).st, f - 1, g - 1);
      }
    }
  }

  lemma {:induction false} MoreFuelChoices(p: Code, x: Subject, node: nat, st: State, f: nat, g: nat)
    requires node < |p| && f <= g && Choices(p, x, node, st, f) != Timeout
    ensures Choices(p, x, node, st, g) == Choices(p, x, node, st, f)
    decreases f
  {
    MoreFuel(p, x, node + 1, st, f - 1, g - 1);
    if Run(p, x, node + 1, st, f - 1) == Done(None) {
      var n := node + p[node].next;
      if p[node].next != 0 && IsBranch(p, n) {
        MoreFuelChoices(p, x, n, st, f - 1, g - 1);
      }
    }
  }

  /** Names an amount of fuel; keeps the quantifiers below from being unrolled step by step. */
  predicate Fuel(f: nat) { true }

  /** Running from `node` terminates inside the program and yields `o`. */
  ghost predicate Yields(p: Code, x: Subject, node: int, st: State, o: Option<State>) {
    exists f: nat {:trigger Fuel(f)} :: Fuel(f) && Run(p, x, node, st, f) == Done(o)
  }

  /** What becomes of a run: it fails, it finds a match, or it is still running after `fuel` steps. */
  datatype Fate = Fails | Finds(st: State) | StillRuns(fuel: nat)

  function FateOf(o: Option<State>): Fate {
    match o
    case None => Fails
    case Some(st) => Finds(st)
  }

  /** Running from `node` has the fate `o`. */
  ghost predicate Behaves(p: Code, x: Subject, node: int, st: State, o: Fate) {
    match o
    case Fails => Yields(p, x, node, st, None)
    case Finds(e) => Yields(p, x, node, st, Some(e))
    case StillRuns(n) => Run(p, x, node, st, n) == Timeout
  }

  /** From every state of `l`, node `out` behaves as the continuation `k` says. */
  ghost predicate AllBehave(p: Code, x: Subject, out: int, l: seq<State>, k: State -> Fate) {
    forall e :: e in l ==> Behaves(p, x, out, e, k(e))
  }

  ghost predicate ChoicesYield(p: Code, x: Subject, node: nat, st: State, o: Option<State>)
    requires node < |p|
  {
    exists f: nat {:trigger Fuel(f)} :: Fuel(f) && Choices(p, x, node, st, f) == Done(o)
  }

  ghost predicate ChoicesBehave(p: Code, x: Subject, node: nat, st: State, o: Fate)
    requires node < |p|
  {
    match o
    case Fails => ChoicesYield(p, x, node, st, None)
    case Finds(e) => ChoicesYield(p, x, node, st, Some(e))
    case StillRuns(n) => Choices(p, x, node, st, n) == Timeout
  }

  /** A run has one result. */
  lemma YieldsOnce(p: Code, x: Subject, node: int, st: State, o: Option<State>, o': Option<State>)
    requires Yields(p, x, node, st, o) && Yields(p, x, node, st, o')
    ensures o == o'
  {
    var f: nat :| Fuel(f) && Run(p, x, node, st, f) == Done(o);
    var f': nat :| Fuel(f') && Run(p, x, node, st, f') == Done(o');
    if f <= f' {
      MoreFuel(p, x, node, st, f, f');
    } else {
      MoreFuel(p, x, node, st, f', f);
    }
  }

  // ---------------------------------------------------------------------------------------
  // Ordered backtracking over the tree
  // ---------------------------------------------------------------------------------------

  /** How much text is left; bounds the iterations of a loop. */
  function Left(x: Subject, st: State): nat {
    if st.pos <= |x.text| then |x.text| - st.pos + 1 else 1
  }

  function MaxLeft(x: Subject, l: seq<State>): nat {
    if l == [] then 0
    else
      var m := MaxLeft(x, l[1..]);
      if Left(x, l[0]) <= m then m else Left(x, l[0])
  }

  /** The states of `l` that lie behind position `i`. */
  function Advanced(x: Subject, l: seq<State>, i: nat): seq<State> {
    if l == [] then []
    else if i < l[0].pos <= |x.text| then [l[0]] + Advanced(x, l[1..], i)
    else Advanced(x, l[1..], i)
  }

  lemma {:induction false} AdvancedLeft(x: Subject, l: seq<State>, st: State)
    ensures MaxLeft(x, Advanced(x, l, st.pos)) < Left(x, st)
  {
    if l != [] {
      AdvancedLeft(x, l[1..], st);
    }
  }

  lemma {:induction false} AdvancedIn(x: Subject, l: seq<State>, i: nat, e: State)
    ensures e in Advanced(x, l, i) <==> e in l && i < e.pos <= |x.text|
  {
    if l != [] {
      AdvancedIn(x, l[1..], i, e);
    }
  }

  lemma {:induction false} AdvancedAll(x: Subject, l: seq<State>, i: nat)
    requires forall e :: e in l ==> i < e.pos <= |x.text|
    ensures Advanced(x, l, i) == l
  {
    if l != [] {
      AdvancedAll(x, l[1..], i);
    }
  }

  /** Records position `pos` of a state as the end of group `k`. */
  function CloseOne(e: State, k: nat): State {
    e.(closes := Push(e.closes, k, e.pos))
  }

  function CloseAll(l: seq<State>, k: nat): seq<State> {
    if l == [] then [] else [CloseOne(l[0], k)] + CloseAll(l[1..], k)
  }

  lemma {:induction false} CloseAllIn(l: seq<State>, k: nat, e: State)
    requires e in l
    ensures CloseOne(e, k) in CloseAll(l, k)
  {
    if e != l[0] {
      CloseAllIn(l[1..], k, e);
    }
  }

  lemma {:induction false} CloseAllFrom(l: seq<State>, k: nat, r: State) returns (e: State)
    requires r in CloseAll(l, k)
    ensures e in l && r == CloseOne(e, k)
  {
    if r == CloseOne(l[0], k) {
      e := l[0];
    } else {
      e := CloseAllFrom(l[1..], k, r);
    }
  }

  /** All ways to match `t` from `st`, in the order in which backtracking tries them. */
  function Ends(x: Subject, t: Re, st: State): seq<State>
    decreases t, Left(x, st), 0, 0
  {
    match t
    case Leaf(op) =>
      if op.End? || op.Branch? then []
      else (match Step(x, op, st) case Go(st1) => [st1] case _ => [])
    case Empty => [st]
    case Cat(a, b) => EndsAll(x, b, Ends(x, a, st))
    case Maybe(a) => Ends(x, a, st) + [st]
    case Star(a) => Loop(x, a, st)
    case Plus(a) => LoopAll(x, a, Ends(x, a, st))
    case Group(k, alts) => CloseAll(AltEnds(x, alts, st.(opens := Push(st.opens, k, st.pos))), k)
  }

  function AltEnds(x: Subject, alts: Alts, st: State): seq<State>
    decreases alts, Left(x, st), 0, 0
  {
    match alts
    case Only(t) => Ends(x, t, st)
    case Or(t, rest) => Ends(x, t, st) + AltEnds(x, rest, st)
  }

  function EndsAll(x: Subject, t: Re, l: seq<State>): seq<State>
    decreases t, MaxLeft(x, l), 3, |l|
  {
    if l == [] then [] else Ends(x, t, l[0]) + EndsAll(x, t, l[1..])
  }

  /** Greedy iteration: first one more round, and only then leave the loop. */
  function Loop(x: Subject, a: Re, st: State): seq<State>
    decreases a, Left(x, st), 1, 0
  {
    var more := Advanced(x, Ends(x, a, st), st.pos);
    AdvancedLeft(x, Ends(x, a, st), st);
    LoopAll(x, a, more) + [st]
  }

  function LoopAll(x: Subject, a: Re, l: seq<State>): seq<State>
    decreases a, MaxLeft(x, l), 2, |l|
  {
    if l == [] then [] else Loop(x, a, l[0]) + LoopAll(x, a, l[1..])
  }

  /** The fate of trying the states of `l` one after the other with the continuation `k`. */
  ghost function First(l: seq<State>, k: State -> Fate): Fate {
    if l == [] then Fails else Else(k(l[0]), First(l[1..], k))
  }

  ghost function Else(a: Fate, b: Fate): Fate {
    if a.Fails? then b else a
  }

  lemma {:induction false} FirstConcat(l: seq<State>, m: seq<State>, k: State -> Fate)
    ensures First(l + m, k) == Else(First(l, k), First(m, k))
  {
    if l == [] {
      assert l + m == m;
    } else {
      assert (l + m)[1..] == l[1..] + m;
      FirstConcat(l[1..], m, k);
    }
  }

  lemma FirstOne(e: State, k: State -> Fate)
    ensures First([e], k) == k(e)
  {
    assert [e][1..] == [];
  }

  ghost function ThenK(x: Subject, t: Re, k: State -> Fate): State -> Fate {
    e => First(Ends(x, t, e), k)
  }

  ghost function LoopK(x: Subject, a: Re, k: State -> Fate): State -> Fate {
    e => First(Loop(x, a, e), k)
  }

  ghost function CloseK(n: nat, k: State -> Fate): State -> Fate {
    (e: State) => k(CloseOne(e, n))
  }

  lemma {:induction false} FirstEndsAll(x: Subject, t: Re, l: seq<State>, k: State -> Fate)
    ensures First(EndsAll(x, t, l), k) == First(l, ThenK(x, t, k))
  {
    if l != [] {
      FirstConcat(Ends(x, t, l[0]), EndsAll(x, t, l[1..]), k);
      FirstEndsAll(x, t, l[1..], k);
    }
  }

  lemma {:induction false} FirstLoopAll(x: Subject, a: Re, l: seq<State>, k: State -> Fate)
    ensures First(LoopAll(x, a, l), k) == First(l, LoopK(x, a, k))
  {
    if l != [] {
      FirstConcat(Loop(x, a, l[0]), LoopAll(x, a, l[1..]), k);
      FirstLoopAll(x, a, l[1..], k);
    }
  }

  lemma {:induction false} FirstCloseAll(l: seq<State>, n: nat, k: State -> Fate)
    ensures First(CloseAll(l, n), k) == First(l, CloseK(n, k))
  {
    if l != [] {
      FirstCloseAll(l[1..], n, k);
    }
  }

  lemma {:induction false} InEndsAll(x: Subject, t: Re, l: seq<State>, e: State, r: State)
    requires e in l && r in Ends(x, t, e)
    ensures r in EndsAll(x, t, l)
  {
    if l[0] != e {
      InEndsAll(x, t, l[1..], e, r);
    }
  }

  lemma {:induction false} InLoopAll(x: Subject, a: Re, l: seq<State>, e: State, r: State)
    requires e in l && r in Loop(x, a, e)
    ensures r in LoopAll(x, a, l)
  {
    if l[0] != e {
      InLoopAll(x, a, l[1..], e, r);
    }
  }

  lemma {:induction false} EndsAllFrom(x: Subject, t: Re, l: seq<State>, r: State) returns (e: State)
    requires r in EndsAll(x, t, l)
    ensures e in l && r in Ends(x, t, e)
  {
    if r in Ends(x, t, l[0]) {
      e := l[0];
    } else {
      e := EndsAllFrom(x, t, l[1..], r);
    }
  }

  lemma {:induction false} LoopAllFrom(x: Subject, a: Re, l: seq<State>, r: State) returns (e: State)
    requires r in LoopAll(x, a, l)
    ensures e in l && r in Loop(x, a, e)
  {
    if r in Loop(x, a, l[0]) {
      e := l[0];
    } else {
      e := LoopAllFrom(x, a, l[1..], r);
    }
  }
}
