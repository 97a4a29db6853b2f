/** Groups of a parsed pattern and what the registers say about them. */
module ReGroups {
  import opened Text
  import opened ReCode
  import opened ReMatch
  import opened ReSim
  import opened ReParse
  import opened ReParseProps
  import opened ReLang
  import opened ReMeaning
  import opened ReWays
  import opened ReRegisters
  import Search = ReSearch

  // ---------------------------------------------------------------------------------------
  // No group of a parsed pattern contains one of its own number
  // ---------------------------------------------------------------------------------------

  ghost predicate Distinct(s: seq<nat>) {
    forall i, j :: 0 <= i < j < |s| ==> s[i] != s[j]
  }

  lemma {:induction false} FromIs(n: nat, m: nat)
    ensures forall i :: 0 <= i < |From(n, m)| ==> From(n, m)[i] == n + i
    decreases m - n
  {
    if n < m {
      FromIs(n + 1, m);
    }
  }

  lemma FromDistinct(n: nat, m: nat)
    ensures Distinct(From(n, m))
  {
    FromIs(n, m);
  }

  lemma DistinctParts(a: seq<nat>, b: seq<nat>)
    requires Distinct(a + b)
    ensures Distinct(a) && Distinct(b)
    ensures forall k :: k in a ==> k !in b
  {
    var s := a + b;
    assert forall i :: 0 <= i < |a| ==> s[i] == a[i];
    assert forall i :: 0 <= i < |b| ==> s[|a| + i] == b[i];
    forall i, j | 0 <= i < |a| && 0 <= j < |b|
      ensures a[i] != b[j]
    {
      assert s[i] != s[|a| + j];
    }
  }

  lemma {:induction false} TimesGroups(t: Re, n: nat, k: nat, g: Alts)
    requires n > 0
    ensures GroupOf(Times(t, n), k, g) <==> GroupOf(t, k, g)
    ensures SelfFree(Times(t, n)) <==> SelfFree(t)
  {
    if n > 1 {
      TimesGroups(t, n - 1, k, g);
    }
  }

  lemma PieceGroups(p: Piece, k: nat, g: Alts)
    ensures GroupOf(PieceRe(p), k, g) ==> GroupOf(TermRe(p.term), k, g)
    ensures SelfFree(TermRe(p.term)) ==> SelfFree(PieceRe(p))
  {
    hide TermRe;
    var t := TermRe(p.term);
    assert GroupOf(Star(t), k, g) == GroupOf(Maybe(t), k, g) == GroupOf(t, k, g);
    assert SelfFree(Star(t)) == SelfFree(Maybe(t)) == SelfFree(t);
    if p.closure.Braces? {
      var min, opt := p.closure.min, p.closure.opt;
      if min > 0 {
        TimesGroups(t, min, k, g);
      }
      if opt > 0 {
        TimesGroups(Maybe(t), opt, k, g);
      }
    }
  }

  /** Groups of the expression carry numbers of the tree. */
  lemma {:induction false} TermNumbered(t: Term, k: nat, g: Alts)
    ensures GroupOf(TermRe(t), k, g) ==> k in TermNumbers(t)
    decreases t, 0
  {
    if t.Paren? {
      AltsNumbered(t.alts, k, g);
    }
  }

  lemma {:induction false} PiecesNumbered(l: PieceList, k: nat, g: Alts)
    ensures GroupOf(PiecesRe(l), k, g) ==> k in PiecesNumbers(l)
    decreases l, 0
  {
    hide PieceRe;
    if l.Snoc? {
      PiecesNumbered(l.init, k, g);
      PieceGroups(l.last, k, g);
      TermNumbered(l.last.term, k, g);
    }
  }

  lemma {:induction false} AddAltGroups(a: Alts, t: Re, k: nat, g: Alts)
    ensures GroupOfAlts(AddAlt(a, t), k, g) <==> GroupOfAlts(a, k, g) || GroupOf(t, k, g)
    ensures SelfFreeAlts(AddAlt(a, t)) <==> SelfFreeAlts(a) && SelfFree(t)
  {
    if a.Or? {
      AddAltGroups(a.rest, t, k, g);
    }
  }

  lemma {:induction false} AltsNumbered(l: AltList, k: nat, g: Alts)
    ensures GroupOfAlts(AltsRe(l), k, g) ==> k in AltsNumbers(l)
    decreases l, 0
  {
    match l
    case One(b) => PiecesNumbered(b, k, g);
    case Bar(init, b) =>
      AltsNumbered(init, k, g);
      PiecesNumbered(b, k, g);
      AddAltGroups(AltsRe(init), PiecesRe(b), k, g);
  }

  lemma {:induction false} TermSelfFree(e: Env, t: Term)
    requires TermSpelled(e, t) && Distinct(TermNumbers(t))
    ensures SelfFree(TermRe(t))
    decreases t, 0
  {
    if t.Paren? {
      DistinctParts([t.number], AltsNumbers(t.alts));
      AltsSelfFree(e, t.alts);
      forall g
        ensures !GroupOfAlts(AltsRe(t.alts), t.number, g)
      {
        AltsNumbered(t.alts, t.number, g);
      }
    }
  }

  lemma {:induction false} PiecesSelfFree(e: Env, l: PieceList)
    requires PiecesSpelled(e, l) && Distinct(PiecesNumbers(l))
    ensures SelfFree(PiecesRe(l))
    decreases l, 0
  {
    hide PieceRe;
    if l.Snoc? {
      DistinctParts(PiecesNumbers(l.init), TermNumbers(l.last.term));
      PiecesSelfFree(e, l.init);
      TermSelfFree(e, l.last.term);
      PieceGroups(l.last, 0, Only(Empty));
    }
  }

  lemma {:induction false} AltsSelfFree(e: Env, l: AltList)
    requires AltsSpelled(e, l) && Distinct(AltsNumbers(l))
    ensures SelfFreeAlts(AltsRe(l))
    decreases l, 0
  {
    match l
    case One(b) => PiecesSelfFree(e, b);
    case Bar(init, b) =>
      DistinctParts(AltsNumbers(init), PiecesNumbers(b));
      AltsSelfFree(e, init);
      PiecesSelfFree(e, b);
      AddAltGroups(AltsRe(init), PiecesRe(b), 0, Only(Empty));
  }

  /** So it is for every pattern that parses. */
  lemma ParsedSelfFree(e: Env)
    requires Parse(e).Ok?
    ensures SelfFreeAlts(AltsRe(Parse(e).value))
  {
    hide ParseAlts, AltsSpelled, AltsRe;
    ParseSound(e);
    AltsRead(e, 0, 1, {});
    FromDistinct(1, Parse(e).parens);
    AltsSelfFree(e, Parse(e).value);
  }

  // ---------------------------------------------------------------------------------------
  // Registers
  // ---------------------------------------------------------------------------------------

  /** The text of group `k` along a way from `i`: that of the last time it was passed, none if it was not. */
  function PassedText(x: Subject, alts: Alts, i: nat, w: Way, k: nat): string
    requires WalkAlts(x, alts, w, Start(i)).Some?
  {
    match LastSpan(SpansAlts(x, alts, w, Start(i)), k)
    case None => ""
    case Some(s) => if s.from <= s.to <= |x.text| then x.text[s.from..s.to] else ""
  }

  /** After a match, group `k` has registers exactly if it was passed on the preferred way, and they are
      those of the last time. */
  lemma RegistersExact(x: Subject, alts: Alts, i: nat, w: Way, k: nat)
    requires SelfFreeAlts(alts) && IsPreferred(x, alts, i, w) && k > 0
    ensures Wanted(x, alts, i).Some?
    ensures var st, l := Wanted(x, alts, i).value, SpansAlts(x, alts, w, Start(i));
      var starts, ends := Search.MatchStarts(i, st), Search.MatchEnds(st);
      match LastSpan(l, k)
      case None => k !in starts && k !in ends
      case Some(s) => k in starts && k in ends && starts[k] == s.from && ends[k] == s.to
  {
    hide WalkAlts, SpansAlts, AltEnds, SelfFreeAlts;
    MatchPreferred(x, alts, i);
    var st, l := Wanted(x, alts, i).value, SpansAlts(x, alts, w, Start(i));
    WayRecordedAlts(x, alts, w, Start(i), k);
    LastSpanIs(l, k);
    FilledAt(map[0 := i], map[], st.opens, k);
    FilledAt(map[], map[], st.closes, k);
  }

  /** Without back-references the alternatives of the group match the text between its registers. */
  lemma RegistersMatch(x: Subject, alts: Alts, i: nat, k: nat) returns (g: Alts)
    requires SelfFreeAlts(alts) && AcceptedAlts(alts) && NoBackRefAlts(alts)
    requires i <= |x.text| && Wanted(x, alts, i).Some? && k > 0 && k in Search.MatchStarts(i, Wanted(x, alts, i).value)
    ensures var st := Wanted(x, alts, i).value;
      var starts, ends := Search.MatchStarts(i, st), Search.MatchEnds(st);
      && GroupOfAlts(alts, k, g) && k in ends
      && starts[k] <= ends[k] <= |x.text| && MatchesAlts(x, g, starts[k], ends[k])
  {
    hide WalkAlts, SpansAlts, AltEnds, SelfFreeAlts, Wanted;
    MatchPreferred(x, alts, i);
    var w :| IsPreferred(x, alts, i, w);
    RegistersExact(x, alts, i, w, k);
    var l := SpansAlts(x, alts, w, Start(i));
    LastSpanIs(l, k);
    g := SpanMatchesAlts(x, alts, w, Start(i), LastSpan(l, k).value);
  }

  /** A back-reference goes on exactly if its group has been left at least once, and the text from here on
      is, as a C string, what lay between the oldest positions recorded for it; it consumes as much. */
  lemma BackRefExact(x: Subject, k: nat, st: State)
    ensures var o, c := Stack(st.opens, k), Stack(st.closes, k);
      Step(x, BackRef(k), st).Go? <==>
        && o != [] && c != []
        && (o[0] == c[0]
            || (o[0] < c[0] <= |x.text| && st.pos + (c[0] - o[0]) <= |x.text|
                && SameText(x.icase, CStr(x.text[st.pos..st.pos + (c[0] - o[0])]), CStr(x.text[o[0]..c[0]]))))
    ensures Step(x, BackRef(k), st).Go? ==>
      Step(x, BackRef(k), st).st == st.(pos := st.pos + (Stack(st.closes, k)[0] - Stack(st.opens, k)[0]))
  {
  }
}
