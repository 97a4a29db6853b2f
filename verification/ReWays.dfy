/** Which of all the ways to match is taken, said without backtracking: a way is a choice for every
    alternative, option and loop; ways are compared choice by choice from left to right; and the
    interpreter takes the way that is preferred to all others. The groups it records are those of
    that way. */
module ReWays {
  import opened Text
  import opened ReCode
  import opened ReMatch
  import opened ReSim
  import opened ReLang

  /** A way to match. `Take` or `Skip` an option; go round a loop `Again` or `Leave` it; `Pick` an
      alternative or `Pass` on to the next. */
  datatype Way =
    | Stay
    | Both(a: Way, b: Way)
    | Take(a: Way)
    | Skip
    | Again(a: Way, rest: Way)
    | Leave
    | Pick(a: Way)
    | Pass(rest: Way)

  /** Where a way leads, if it is one: no choice is made here and nothing is undone. */
  function Walk(x: Subject, t: Re, w: Way, st: State): Option<State>
    decreases w, 1
  {
    match (t, w)
    case (Leaf(op), Stay) =>
      if op.End? || op.Branch? then None
      else (match Step(x, op, st) case Go(st1) => Some(st1) case Stop => None)
    case (Empty, Stay) => Some(st)
    case (Cat(a, b), Both(u, v)) =>
      (match Walk(x, a, u, st)
       case None => None
       case Some(e) => Walk(x, b, v, e))
    case (Maybe(a), Take(u)) => Walk(x, a, u, st)
    case (Maybe(a), Skip) => Some(st)
    case (Star(a), Again(u, rest)) =>
      (match Walk(x, a, u, st)
       case None => None
       case Some(e) => if st.pos < e.pos <= |x.text| then Walk(x, t, rest, e) else None)
    case (Star(a), Leave) => Some(st)
    case (Plus(a), Again(u, rest)) =>
      (match Walk(x, a, u, st)
       case None => None
       case Some(e) => Walk(x, Star(a), rest, e))
    case (Group(k, alts), _) =>
      (match WalkAlts(x, alts, w, st.(opens := Push(st.opens, k, st.pos)))
       case None => None
       case Some(e) => Some(CloseOne(e, k)))
    case _ => None
  }

  function WalkAlts(x: Subject, alts: Alts, w: Way, st: State): Option<State>
    decreases w, 0
  {
    match (alts, w)
    case (Only(t), Pick(u)) => Walk(x, t, u, st)
    case (Or(t, _), Pick(u)) => Walk(x, t, u, st)
    case (Or(_, rest), Pass(v)) => WalkAlts(x, rest, v, st)
    case _ => None
  }

  /** The first choice in which two ways differ decides: taking an option before skipping it, another
      round before leaving, an alternative before the later ones. */
  predicate Before(w: Way, w': Way) {
    match (w, w')
    case (Both(a, b), Both(a', b')) => Before(a, a') || (a == a' && Before(b, b'))
    case (Take(a), Take(a')) => Before(a, a')
    case (Take(_), Skip) => true
    case (Again(a, b), Again(a', b')) => Before(a, a') || (a == a' && Before(b, b'))
    case (Again(_, _), Leave) => true
    case (Pick(a), Pick(a')) => Before(a, a')
    case (Pick(_), Pass(_)) => true
    case (Pass(a), Pass(a')) => Before(a, a')
    case _ => false
  }

  /** Of two ways at most one is preferred, and none to itself. */
  lemma {:induction false} BeforeOneWay(w: Way, w': Way)
    requires Before(w, w')
    ensures w != w' && !Before(w', w)
  {
    match (w, w')
    case (Both(a, b), Both(a', b')) =>
      if Before(a, a') {
        BeforeOneWay(a, a');
      } else {
        BeforeOneWay(b, b');
      }
    case (Take(a), Take(a')) => BeforeOneWay(a, a');
    case (Again(a, b), Again(a', b')) =>
      if Before(a, a') {
        BeforeOneWay(a, a');
      } else {
        BeforeOneWay(b, b');
      }
    case (Pick(a), Pick(a')) => BeforeOneWay(a, a');
    case (Pass(a), Pass(a')) => BeforeOneWay(a, a');
    case _ =>
  }

  // ---------------------------------------------------------------------------------------
  // Backtracking tries every way
  // ---------------------------------------------------------------------------------------

  lemma {:induction false} WalkTried(x: Subject, t: Re, w: Way, st: State)
    requires Walk(x, t, w, st).Some?
    ensures Walk(x, t, w, st).value in Ends(x, t, st)
    decreases w, 1
  {
    var r := Walk(x, t, w, st).value;
    match (t, w)
    case (Leaf(_), _) =>
    case (Empty, _) =>
    case (Cat(a, b), Both(u, v)) =>
      var e := Walk(x, a, u, st).value;
      WalkTried(x, a, u, st);
      WalkTried(x, b, v, e);
      InEndsAll(x, b, Ends(x, a, st), e, r);
    case (Maybe(a), Take(u)) => WalkTried(x, a, u, st);
    case (Maybe(_), _) =>
    case (Star(a), Again(u, rest)) =>
      var e := Walk(x, a, u, st).value;
      WalkTried(x, a, u, st);
      WalkTried(x, t, rest, e);
      AdvancedIn(x, Ends(x, a, st), st.pos, e);
      InLoopAll(x, a, Advanced(x, Ends(x, a, st), st.pos), e, r);
    case (Star(_), _) =>
    case (Plus(a), Again(u, rest)) =>
      var e := Walk(x, a, u, st).value;
      WalkTried(x, a, u, st);
      WalkTried(x, Star(a), rest, e);
      InLoopAll(x, a, Ends(x, a, st), e, r);
    case (Group(k, alts), _) =>
      var st1 := st.(opens := Push(st.opens, k, st.pos));
      WalkAltsTried(x, alts, w, st1);
      CloseAllIn(AltEnds(x, alts, st1), k, WalkAlts(x, alts, w, st1).value);
  }

  lemma {:induction false} WalkAltsTried(x: Subject, alts: Alts, w: Way, st: State)
    requires WalkAlts(x, alts, w, st).Some?
    ensures WalkAlts(x, alts, w, st).value in AltEnds(x, alts, st)
    decreases w, 0
  {
    match (alts, w)
    case (Only(t), Pick(u)) => WalkTried(x, t, u, st);
    case (Or(t, _), Pick(u)) => WalkTried(x, t, u, st);
    case (Or(_, rest), Pass(v)) => WalkAltsTried(x, rest, v, st);
  }

  lemma {:induction false} FirstReaches(l: seq<State>, e: State, k: State -> Fate)
    requires e in l && !k(e).Fails?
    ensures !First(l, k).Fails?
  {
    if l[0] != e {
      FirstReaches(l[1..], e, k);
    }
  }

  // ---------------------------------------------------------------------------------------
  // The preferred way
  // ---------------------------------------------------------------------------------------

  /** The way leads somewhere from where the continuation does not fail. */
  ghost predicate Succeeds(x: Subject, t: Re, w: Way, st: State, k: State -> Fate) {
    Walk(x, t, w, st).Some? && !k(Walk(x, t, w, st).value).Fails?
  }

  ghost predicate SucceedsAlts(x: Subject, alts: Alts, w: Way, st: State, k: State -> Fate) {
    WalkAlts(x, alts, w, st).Some? && !k(WalkAlts(x, alts, w, st).value).Fails?
  }

  /** It succeeds with the fate `o`, and is preferred to all others that succeed. */
  ghost predicate Best(x: Subject, t: Re, w: Way, st: State, k: State -> Fate, o: Fate) {
    && Succeeds(x, t, w, st, k) && k(Walk(x, t, w, st).value) == o
    && forall w' :: Succeeds(x, t, w', st, k) ==> w' == w || Before(w, w')
  }

  ghost predicate BestAlts(x: Subject, alts: Alts, w: Way, st: State, k: State -> Fate, o: Fate) {
    && SucceedsAlts(x, alts, w, st, k) && k(WalkAlts(x, alts, w, st).value) == o
    && forall w' :: SucceedsAlts(x, alts, w', st, k) ==> w' == w || Before(w, w')
  }

  lemma Tried(x: Subject, t: Re, w: Way, st: State, k: State -> Fate)
    requires Succeeds(x, t, w, st, k)
    ensures !First(Ends(x, t, st), k).Fails?
  {
    WalkTried(x, t, w, st);
    FirstReaches(Ends(x, t, st), Walk(x, t, w, st).value, k);
  }

  lemma TriedLoop(x: Subject, a: Re, w: Way, st: State, k: State -> Fate)
    requires Succeeds(x, Star(a), w, st, k)
    ensures !First(Loop(x, a, st), k).Fails?
  {
    Tried(x, Star(a), w, st, k);
  }

  /** Going on with `k` only from states behind position `i`. */
  ghost function OnwardK(x: Subject, i: nat, k: State -> Fate): State -> Fate {
    (e: State) => if i < e.pos <= |x.text| then k(e) else Fails
  }

  lemma {:induction false} FirstAdvanced(x: Subject, l: seq<State>, i: nat, k: State -> Fate)
    ensures First(Advanced(x, l, i), k) == First(l, OnwardK(x, i, k))
  {
    if l != [] {
      FirstAdvanced(x, l[1..], i, k);
      if i < l[0].pos <= |x.text| {
        assert Advanced(x, l, i)[1..] == Advanced(x, l[1..], i);
      }
    }
  }

  /** Trying in order finds the preferred one of the ways after which the rest succeeds. */
  lemma {:induction false} PreferredWay(x: Subject, t: Re, st: State, k: State -> Fate) returns (w: Way)
    requires !First(Ends(x, t, st), k).Fails?
    ensures Best(x, t, w, st, k, First(Ends(x, t, st), k))
    decreases t, Left(x, st), 1
  {
    match t
    case Leaf(op) =>
      w := Stay;
      FirstOne(Ends(x, t, st)[0], k);
    case Empty =>
      w := Stay;
      FirstOne(st, k);
    case Cat(a, b) => w := PreferredCat(x, a, b, st, k);
    case Maybe(a) =>
      FirstConcat(Ends(x, a, st), [st], k);
      FirstOne(st, k);
      if First(Ends(x, a, st), k).Fails? {
        w := Skip;
        forall w' | Succeeds(x, t, w', st, k)
          ensures w' == w
        {
          if w'.Take? {
            Tried(x, a, w'.a, st, k);
          }
        }
      } else {
        var u := PreferredWay(x, a, st, k);
        w := Take(u);
        assert forall w' :: Succeeds(x, t, w', st, k) && w'.Take? ==> Succeeds(x, a, w'.a, st, k);
      }
    case Star(a) => w := PreferredLoop(x, a, st, k);
    case Plus(a) => w := PreferredPlus(x, a, st, k);
    case Group(n, alts) =>
      var st1 := st.(opens := Push(st.opens, n, st.pos));
      FirstCloseAll(AltEnds(x, alts, st1), n, k);
      w := PreferredAlts(x, alts, st1, CloseK(n, k));
      assert forall w' :: Succeeds(x, t, w', st, k) ==> SucceedsAlts(x, alts, w', st1, CloseK(n, k));
  }

  lemma {:induction false} PreferredCat(x: Subject, a: Re, b: Re, st: State, k: State -> Fate) returns (w: Way)
    requires !First(Ends(x, Cat(a, b), st), k).Fails?
    ensures Best(x, Cat(a, b), w, st, k, First(Ends(x, Cat(a, b), st), k))
    decreases Cat(a, b), Left(x, st), 0
  {
    hide First, Left;
    var k' := ThenK(x, b, k);
    FirstEndsAll(x, b, Ends(x, a, st), k);
    var u := PreferredWay(x, a, st, k');
    var e := Walk(x, a, u, st).value;
    var v := PreferredWay(x, b, e, k);
    w := Both(u, v);
    forall w' | Succeeds(x, Cat(a, b), w', st, k)
      ensures w' == w || Before(w, w')
    {
      var e' := Walk(x, a, w'.a, st).value;
      assert Succeeds(x, b, w'.b, e', k);
      Tried(x, b, w'.b, e', k);
      assert Succeeds(x, a, w'.a, st, k');
    }
  }

  lemma {:induction false} PreferredLoop(x: Subject, a: Re, st: State, k: State -> Fate) returns (w: Way)
    requires !First(Loop(x, a, st), k).Fails?
    ensures Best(x, Star(a), w, st, k, First(Loop(x, a, st), k))
    decreases a, Left(x, st), 2
  {
    hide First, Ends, LoopAll, Advanced;
    var l := Ends(x, a, st);
    var more, k' := Advanced(x, l, st.pos), OnwardK(x, st.pos, LoopK(x, a, k));
    FirstConcat(LoopAll(x, a, more), [st], k);
    FirstOne(st, k);
    FirstLoopAll(x, a, more, k);
    FirstAdvanced(x, l, st.pos, LoopK(x, a, k));
    if First(l, k').Fails? {
      w := Leave;
    } else {
      var u := PreferredWay(x, a, st, k');
      var e := Walk(x, a, u, st).value;
      var v := PreferredLoop(x, a, e, k);
      w := Again(u, v);
    }
    forall w' | Succeeds(x, Star(a), w', st, k)
      ensures w' == w || Before(w, w')
    {
      if w'.Again? {
        var e' := Walk(x, a, w'.a, st).value;
        assert Succeeds(x, Star(a), w'.rest, e', k);
        TriedLoop(x, a, w'.rest, e', k);
        assert Succeeds(x, a, w'.a, st, k');
        Tried(x, a, w'.a, st, k');
      }
    }
  }

  lemma {:induction false} PreferredPlus(x: Subject, a: Re, st: State, k: State -> Fate) returns (w: Way)
    requires !First(Ends(x, Plus(a), st), k).Fails?
    ensures Best(x, Plus(a), w, st, k, First(Ends(x, Plus(a), st), k))
    decreases Plus(a), Left(x, st), 0
  {
    hide First, Loop, Left;
    var k' := LoopK(x, a, k);
    FirstLoopAll(x, a, Ends(x, a, st), k);
    var u := PreferredWay(x, a, st, k');
    var e := Walk(x, a, u, st).value;
    var v := PreferredLoop(x, a, e, k);
    w := Again(u, v);
    forall w' | Succeeds(x, Plus(a), w', st, k)
      ensures w' == w || Before(w, w')
    {
      var e' := Walk(x, a, w'.a, st).value;
      assert Succeeds(x, Star(a), w'.rest, e', k);
      TriedLoop(x, a, w'.rest, e', k);
      assert Succeeds(x, a, w'.a, st, k');
    }
  }

  lemma {:induction false} PreferredAlts(x: Subject, alts: Alts, st: State, k: State -> Fate) returns (w: Way)
    requires !First(AltEnds(x, alts, st), k).Fails?
    ensures BestAlts(x, alts, w, st, k, First(AltEnds(x, alts, st), k))
    decreases alts, Left(x, st), 0
  {
    var t := alts.re;
    if alts.Or? {
      FirstConcat(Ends(x, t, st), AltEnds(x, alts.rest, st), k);
    }
    if First(Ends(x, t, st), k).Fails? {
      var v := PreferredAlts(x, alts.rest, st, k);
      w := Pass(v);
    } else {
      var u := PreferredWay(x, t, st, k);
      w := Pick(u);
    }
    forall w' | SucceedsAlts(x, alts, w', st, k)
      ensures w' == w || Before(w, w')
    {
      if w'.Pick? {
        assert Succeeds(x, t, w'.a, st, k);
        Tried(x, t, w'.a, st, k);
      } else {
        assert SucceedsAlts(x, alts.rest, w'.rest, st, k);
      }
    }
  }

  ghost function FoundK(): State -> Fate {
    (e: State) => Finds(e)
  }

  /** `w` is a way to match at `i` and preferred to all others. */
  ghost predicate IsPreferred(x: Subject, alts: Alts, i: nat, w: Way) {
    && WalkAlts(x, alts, w, Start(i)).Some?
    && forall w' :: WalkAlts(x, alts, w', Start(i)).Some? ==> w' == w || Before(w, w')
  }

  /** A match attempt fails exactly if no way leads through the expression, and otherwise ends where the
      way leads that is preferred to all others. Back-references included, whatever the expression. */
  lemma MatchPreferred(x: Subject, alts: Alts, i: nat)
    ensures Wanted(x, alts, i).Some? <==> exists w :: IsPreferred(x, alts, i, w)
    ensures Wanted(x, alts, i).None? ==> forall w :: WalkAlts(x, alts, w, Start(i)).None?
    ensures forall w :: IsPreferred(x, alts, i, w) ==> Wanted(x, alts, i) == WalkAlts(x, alts, w, Start(i))
  {
    var l := AltEnds(x, alts, Start(i));
    forall w | WalkAlts(x, alts, w, Start(i)).Some?
      ensures l != []
    {
      WalkAltsTried(x, alts, w, Start(i));
    }
    if l != [] {
      var w := PreferredAlts(x, alts, Start(i), FoundK());
      assert forall w' :: WalkAlts(x, alts, w', Start(i)).Some? ==> SucceedsAlts(x, alts, w', Start(i), FoundK());
      assert IsPreferred(x, alts, i, w);
      forall w' | IsPreferred(x, alts, i, w')
        ensures w' == w
      {
        if w' != w {
          BeforeOneWay(w, w');
        }
      }
    }
  }

  // ---------------------------------------------------------------------------------------
  // The groups along a way
  // ---------------------------------------------------------------------------------------

  /** Group `k` was passed from one position to another. */
  datatype Span = Span(k: nat, from: nat, to: nat)

  /** The groups passed along a way, in the order in which they were left. */
  function Spans(x: Subject, t: Re, w: Way, st: State): seq<Span>
    requires Walk(x, t, w, st).Some?
    decreases w, 1
  {
    match (t, w)
    case (Cat(a, b), Both(u, v)) => Spans(x, a, u, st) + Spans(x, b, v, Walk(x, a, u, st).value)
    case (Maybe(a), Take(u)) => Spans(x, a, u, st)
    case (Star(a), Again(u, rest)) => Spans(x, a, u, st) + Spans(x, t, rest, Walk(x, a, u, st).value)
    case (Plus(a), Again(u, rest)) => Spans(x, a, u, st) + Spans(x, Star(a), rest, Walk(x, a, u, st).value)
    case (Group(k, alts), _) =>
      var st1 := st.(opens := Push(st.opens, k, st.pos));
      SpansAlts(x, alts, w, st1) + [Span(k, st.pos, WalkAlts(x, alts, w, st1).value.pos)]
    case _ => []
  }

  function SpansAlts(x: Subject, alts: Alts, w: Way, st: State): seq<Span>
    requires WalkAlts(x, alts, w, st).Some?
    decreases w, 0
  {
    match (alts, w)
    case (Only(t), Pick(u)) => Spans(x, t, u, st)
    case (Or(t, _), Pick(u)) => Spans(x, t, u, st)
    case (Or(_, rest), Pass(v)) => SpansAlts(x, rest, v, st)
  }

  /** The alternatives of some group `k` in the expression are `g`. */
  ghost predicate GroupOf(t: Re, k: nat, g: Alts) {
    match t
    case Leaf(_) => false
    case Empty => false
    case Cat(a, b) => GroupOf(a, k, g) || GroupOf(b, k, g)
    case Maybe(a) => GroupOf(a, k, g)
    case Star(a) => GroupOf(a, k, g)
    case Plus(a) => GroupOf(a, k, g)
    case Group(n, alts) => (n == k && alts == g) || GroupOfAlts(alts, k, g)
  }

  ghost predicate GroupOfAlts(alts: Alts, k: nat, g: Alts) {
    match alts
    case Only(t) => GroupOf(t, k, g)
    case Or(t, rest) => GroupOf(t, k, g) || GroupOfAlts(rest, k, g)
  }

  /** Groups appear as such, and none has a group of its own number inside. */
  ghost predicate SelfFree(t: Re) {
    match t
    case Leaf(op) => !op.Open? && !op.Close?
    case Empty => true
    case Cat(a, b) => SelfFree(a) && SelfFree(b)
    case Maybe(a) => SelfFree(a)
    case Star(a) => SelfFree(a)
    case Plus(a) => SelfFree(a)
    case Group(n, alts) => (forall g :: !GroupOfAlts(alts, n, g)) && SelfFreeAlts(alts)
  }

  ghost predicate SelfFreeAlts(alts: Alts) {
    match alts
    case Only(t) => SelfFree(t)
    case Or(t, rest) => SelfFree(t) && SelfFreeAlts(rest)
  }

  /** A group that was passed is one of the expression, and without back-references its alternatives match
      what lies between the two positions. */
  lemma {:induction false} SpanMatches(x: Subject, t: Re, w: Way, st: State, s: Span) returns (g: Alts)
    requires Walk(x, t, w, st).Some? && s in Spans(x, t, w, st)
    ensures GroupOf(t, s.k, g)
    ensures Accepted(t) && NoBackRef(t) && st.pos <= |x.text| ==>
      s.from <= s.to <= |x.text| && MatchesAlts(x, g, s.from, s.to)
    decreases w, 1
  {
    hide Ends, Matches;
    match (t, w)
    case (Cat(a, b), Both(u, v)) => g := SpanInTwo(x, a, b, w, u, v, st, s);
    case (Maybe(a), Take(u)) => g := SpanMatches(x, a, u, st, s);
    case (Star(a), Again(u, rest)) => g := SpanInTwo(x, a, t, w, u, rest, st, s);
    case (Plus(a), Again(u, rest)) => g := SpanInTwo(x, a, Star(a), w, u, rest, st, s);
    case (Group(k, alts), _) =>
      var st1 := st.(opens := Push(st.opens, k, st.pos));
      if s in SpansAlts(x, alts, w, st1) {
        g := SpanMatchesAlts(x, alts, w, st1, s);
      } else {
        g := alts;
        WalkAltsTried(x, alts, w, st1);
        if Accepted(t) && NoBackRef(t) && st.pos <= |x.text| {
          AltEndsMatch(x, alts, st1, WalkAlts(x, alts, w, st1).value);
        }
      }
  }

  lemma {:induction false} SpanInTwo(x: Subject, a: Re, b: Re, w: Way, u: Way, v: Way, st: State, s: Span)
      returns (g: Alts)
    requires w == Both(u, v) || w == Again(u, v)
    requires Walk(x, a, u, st).Some? && Walk(x, b, v, Walk(x, a, u, st).value).Some?
    requires s in Spans(x, a, u, st) || s in Spans(x, b, v, Walk(x, a, u, st).value)
    ensures GroupOf(a, s.k, g) || GroupOf(b, s.k, g)
    ensures Accepted(a) && Accepted(b) && NoBackRef(a) && NoBackRef(b) && st.pos <= |x.text| ==>
      s.from <= s.to <= |x.text| && MatchesAlts(x, g, s.from, s.to)
    decreases w, 0
  {
    if s in Spans(x, a, u, st) {
      g := SpanMatches(x, a, u, st, s);
    } else {
      var e := Walk(x, a, u, st).value;
      g := SpanMatches(x, b, v, e, s);
      WalkTried(x, a, u, st);
      if Accepted(a) && st.pos <= |x.text| {
        EndsForward(x, a, st, e);
      }
    }
  }

  lemma {:induction false} SpanMatchesAlts(x: Subject, alts: Alts, w: Way, st: State, s: Span) returns (g: Alts)
    requires WalkAlts(x, alts, w, st).Some? && s in SpansAlts(x, alts, w, st)
    ensures GroupOfAlts(alts, s.k, g)
    ensures AcceptedAlts(alts) && NoBackRefAlts(alts) && st.pos <= |x.text| ==>
      s.from <= s.to <= |x.text| && MatchesAlts(x, g, s.from, s.to)
    decreases w, 0
  {
    hide MatchesAlts;
    match (alts, w)
    case (Only(t), Pick(u)) => g := SpanMatches(x, t, u, st, s);
    case (Or(t, _), Pick(u)) => g := SpanMatches(x, t, u, st, s);
    case (Or(_, rest), Pass(v)) => g := SpanMatchesAlts(x, rest, v, st, s);
  }

  // ---------------------------------------------------------------------------------------
  // What the stacks hold
  // ---------------------------------------------------------------------------------------

  /** Where group `k` was entered, and left, each time it was passed. */
  function Froms(l: seq<Span>, k: nat): seq<nat> {
    if l == [] then [] else if l[0].k == k then [l[0].from] + Froms(l[1..], k) else Froms(l[1..], k)
  }

  function Tos(l: seq<Span>, k: nat): seq<nat> {
    if l == [] then [] else if l[0].k == k then [l[0].to] + Tos(l[1..], k) else Tos(l[1..], k)
  }

  lemma {:induction false} FromsConcat(l: seq<Span>, m: seq<Span>, k: nat)
    ensures Froms(l + m, k) == Froms(l, k) + Froms(m, k)
  {
    if l == [] {
      assert l + m == m;
    } else {
      assert (l + m)[0] == l[0] && (l + m)[1..] == l[1..] + m;
      FromsConcat(l[1..], m, k);
    }
  }

  lemma {:induction false} TosConcat(l: seq<Span>, m: seq<Span>, k: nat)
    ensures Tos(l + m, k) == Tos(l, k) + Tos(m, k)
  {
    if l == [] {
      assert l + m == m;
    } else {
      assert (l + m)[0] == l[0] && (l + m)[1..] == l[1..] + m;
      TosConcat(l[1..], m, k);
    }
  }

  lemma {:induction false} NoFroms(l: seq<Span>, k: nat)
    requires forall s :: s in l ==> s.k != k
    ensures Froms(l, k) == [] && Tos(l, k) == []
  {
    if l != [] {
      NoFroms(l[1..], k);
    }
  }

  /** Between `st` and `r` the stacks of group `k` have grown by the spans of `l`. */
  ghost predicate Recorded(st: State, r: State, l: seq<Span>, k: nat) {
    && Stack(r.opens, k) == Stack(st.opens, k) + Froms(l, k)
    && Stack(r.closes, k) == Stack(st.closes, k) + Tos(l, k)
  }

  lemma RecordedTwo(st: State, e: State, r: State, l: seq<Span>, m: seq<Span>, k: nat)
    requires Recorded(st, e, l, k) && Recorded(e, r, m, k)
    ensures Recorded(st, r, l + m, k)
  {
    hide Froms, Tos, Stack;
    FromsConcat(l, m, k);
    TosConcat(l, m, k);
  }

  lemma RecordedNone(st: State, r: State, k: nat)
    requires r.opens == st.opens && r.closes == st.closes
    ensures Recorded(st, r, [], k)
  {
  }

  /** The stacks of every group record exactly the times it was passed, in order: the oldest is what a
      back-reference is compared with, the last is what the registers tell. */
  lemma {:induction false} WayRecorded(x: Subject, t: Re, w: Way, st: State, k: nat)
    requires Walk(x, t, w, st).Some? && SelfFree(t)
    ensures Recorded(st, Walk(x, t, w, st).value, Spans(x, t, w, st), k)
    decreases w, 1
  {
    hide Recorded;
    match (t, w)
    case (Leaf(op), _) => LeafRecords(x, op, st, k);
    case (Empty, _) => RecordedNone(st, st, k);
    case (Cat(a, b), Both(u, v)) => TwoRecorded(x, a, b, w, u, v, st, k);
    case (Maybe(a), Take(u)) => WayRecorded(x, a, u, st, k);
    case (Maybe(_), _) => RecordedNone(st, st, k);
    case (Star(a), Again(u, rest)) => TwoRecorded(x, a, t, w, u, rest, st, k);
    case (Star(_), _) => RecordedNone(st, st, k);
    case (Plus(a), Again(u, rest)) => TwoRecorded(x, a, Star(a), w, u, rest, st, k);
    case (Group(n, alts), _) =>
      var st1 := st.(opens := Push(st.opens, n, st.pos));
      WayRecordedAlts(x, alts, w, st1, k);
      var l := SpansAlts(x, alts, w, st1);
      forall s | s in l
        ensures s.k != n
      {
        var g := SpanMatchesAlts(x, alts, w, st1, s);
      }
      GroupRecorded(st, WalkAlts(x, alts, w, st1).value, l, n, k);
  }

  lemma LeafRecords(x: Subject, op: Op, st: State, k: nat)
    requires Walk(x, Leaf(op), Stay, st).Some? && !op.Open? && !op.Close?
    ensures Recorded(st, Walk(x, Leaf(op), Stay, st).value, [], k)
  {
  }

  lemma GroupRecorded(st: State, e: State, l: seq<Span>, n: nat, k: nat)
    requires Recorded(st.(opens := Push(st.opens, n, st.pos)), e, l, k) && forall s :: s in l ==> s.k != n
    ensures Recorded(st, CloseOne(e, n), l + [Span(n, st.pos, e.pos)], k)
  {
    var s := Span(n, st.pos, e.pos);
    FromsConcat(l, [s], k);
    TosConcat(l, [s], k);
    assert [s][1..] == [];
    if k == n {
      NoFroms(l, k);
    }
  }

  lemma {:induction false} TwoRecorded(x: Subject, a: Re, b: Re, w: Way, u: Way, v: Way, st: State, k: nat)
    requires w == Both(u, v) || w == Again(u, v)
    requires SelfFree(a) && SelfFree(b) && Walk(x, a, u, st).Some? && Walk(x, b, v, Walk(x, a, u, st).value).Some?
    ensures var e := Walk(x, a, u, st).value;
      Recorded(st, Walk(x, b, v, e).value, Spans(x, a, u, st) + Spans(x, b, v, e), k)
    decreases w, 0
  {
    hide Recorded;
    var e := Walk(x, a, u, st).value;
    WayRecorded(x, a, u, st, k);
    WayRecorded(x, b, v, e, k);
    RecordedTwo(st, e, Walk(x, b, v, e).value, Spans(x, a, u, st), Spans(x, b, v, e), k);
  }

  lemma {:induction false} WayRecordedAlts(x: Subject, alts: Alts, w: Way, st: State, k: nat)
    requires WalkAlts(x, alts, w, st).Some? && SelfFreeAlts(alts)
    ensures Recorded(st, WalkAlts(x, alts, w, st).value, SpansAlts(x, alts, w, st), k)
    decreases w, 0
  {
    hide Recorded;
    match (alts, w)
    case (Only(t), Pick(u)) => WayRecorded(x, t, u, st, k);
    case (Or(t, _), Pick(u)) => WayRecorded(x, t, u, st, k);
    case (Or(_, rest), Pass(v)) => WayRecordedAlts(x, rest, v, st, k);
  }

  /** The last time group `k` was passed, if it was. */
  function LastSpan(l: seq<Span>, k: nat): Option<Span> {
    if l == [] then None
    else if l[|l| - 1].k == k then Some(l[|l| - 1])
    else LastSpan(l[..|l| - 1], k)
  }

  /** It is one of the spans, and the last ones of the positions recorded are its own. */
  lemma {:induction false} LastSpanIs(l: seq<Span>, k: nat)
    ensures LastSpan(l, k).None? <==> Froms(l, k) == []
    ensures LastSpan(l, k).None? <==> Tos(l, k) == []
    ensures LastSpan(l, k).Some? ==>
      var s, f, t := LastSpan(l, k).value, Froms(l, k), Tos(l, k);
      s in l && s.k == k && f != [] && t != [] && s.from == f[|f| - 1] && s.to == t[|t| - 1]
  {
    if l != [] {
      var m, s := l[..|l| - 1], l[|l| - 1];
      LastSpanIs(m, k);
      assert l == m + [s] && [s][1..] == [];
      FromsConcat(m, [s], k);
      TosConcat(m, [s], k);
    }
  }
}
