/** From the pattern text to the match: the main theorems about compiled patterns, and what literals
    with NUL do to them. */
module RePatterns {
  import opened Text
  import opened ReCode
  import opened ReMatch
  import opened ReSim
  import opened ReParse
  import opened ReParseProps
  import opened ReSearch
  import opened ReLang
  import opened ReDiverge

  /** Neither a character nor an escape sequence of the pattern denotes NUL. */
  ghost predicate NoNul(p: string) {
    && NulFree(p)
    && forall i :: 0 <= i < |p| && p[i] == '\\' ==> !DenotesNul(Escape(p, i).kind)
  }

  predicate DenotesNul(k: EscKind) {
    k.EscChar? && Narrowed(k.code) == '\0'
  }

  // ---------------------------------------------------------------------------------------
  // Patterns in which nothing denotes NUL have no literal that begins with it
  // ---------------------------------------------------------------------------------------

  lemma {:induction false} TimesClean(t: Re, n: nat)
    requires n > 0 && Clean(t)
    ensures Clean(Times(t, n))
  {
    if n > 1 {
      TimesClean(t, n - 1);
    }
  }

  lemma RangeClean(t: Re, min: nat, opt: int)
    requires (min > 0 || opt != 0) && Clean(t)
    ensures Clean(RangeRe(t, min, opt))
  {
    if min > 0 {
      TimesClean(t, min);
    }
    if opt > 0 {
      TimesClean(Maybe(t), opt);
    }
  }

  lemma {:induction false} AddAltClean(a: Alts, t: Re)
    requires CleanAlts(a) && Clean(t)
    ensures CleanAlts(AddAlt(a, t))
  {
    if a.Or? {
      AddAltClean(a.rest, t);
    }
  }

  lemma {:induction false} ScanAtomClean(p: string, i: nat, acc: seq<Lit>)
    requires i <= |p| && NoNul(p) && (acc != [] ==> acc[0].c != '\0')
    ensures var r := ScanAtom(p, i, acc); r.Scanned? ==> r.lits[0].c != '\0'
    decreases |p| - i
  {
    hide Escape;
    if i < |p| && ScanAtom(p, i, acc).Scanned? {
      if p[i] == '\\' {
        var e := Escape(p, i);
        if e.kind.EscChar? {
          ScanAtomClean(p, e.idx, acc + [Lit(p[i..e.idx], Narrowed(e.kind.code))]);
        }
      } else {
        ScanAtomClean(p, i + 1, acc + [Lit([p[i]], p[i])]);
      }
    }
  }

  lemma AtomClean(e: Env, i: nat, parens: nat, closed: set<nat>)
    requires i < |e.pattern| && NoNul(e.pattern)
    ensures var r := ParseAtom(e, i, parens, closed); r.Ok? ==> Clean(TermRe(r.value))
  {
    hide ScanAtom, NoNul;
    ScanAtomClean(e.pattern, i, []);
  }

  lemma {:induction false} TermClean(e: Env, i: nat, parens: nat, closed: set<nat>)
    requires i < |e.pattern| && NoNul(e.pattern)
    ensures var r := ParseTerm(e, i, parens, closed); r.Ok? ==> Clean(TermRe(r.value))
    decreases |e.pattern| - i, 0
  {
    hide ParseAtom, ParseAlts, AltsRe, CleanAlts, Escape, NoNul;
    AtomClean(e, i, parens, closed);
    if e.pattern[i] == '(' {
      AltsClean(e, i + 1, parens + 1, closed);
    }
  }

  lemma {:induction false} PieceClean(e: Env, i: nat, parens: nat, closed: set<nat>)
    requires i < |e.pattern| && NoNul(e.pattern)
    ensures var r := ParsePiece(e, i, parens, closed); r.Ok? ==> Clean(PieceRe(r.value))
    decreases |e.pattern| - i, 1
  {
    hide ParseTerm, TermRe, RangeRe, Bracket, NoNul;
    TermClean(e, i, parens, closed);
    var r := ParsePiece(e, i, parens, closed);
    if r.Ok? && r.value.closure.Braces? {
      RangeClean(TermRe(r.value.term), r.value.closure.min, r.value.closure.opt);
    }
  }

  lemma {:induction false} PiecesClean(e: Env, i: nat, parens: nat, closed: set<nat>, acc: PieceList, nullable: bool)
    requires i <= |e.pattern| && NoNul(e.pattern) && Clean(PiecesRe(acc))
    ensures var r := ParsePieces(e, i, parens, closed, acc, nullable); r.Ok? ==> Clean(PiecesRe(r.value))
    decreases |e.pattern| - i, 2
  {
    hide ParsePiece, PieceRe, NoNul;
    if !EndsBranch(e, i) && ParsePiece(e, i, parens, closed).Ok? {
      PieceClean(e, i, parens, closed);
      var p := ParsePiece(e, i, parens, closed);
      PiecesClean(e, p.idx, p.parens, p.closed, Snoc(acc, p.value), nullable && p.nullable);
    }
  }

  lemma BranchClean(e: Env, i: nat, parens: nat, closed: set<nat>)
    requires i <= |e.pattern| && NoNul(e.pattern)
    ensures var r := ParseBranch(e, i, parens, closed); r.Ok? ==> Clean(PiecesRe(r.value))
    decreases |e.pattern| - i, 3
  {
    PiecesClean(e, i, parens, closed, Nil, true);
  }

  lemma {:induction false} BarsClean(e: Env, i: nat, parens: nat, closed: set<nat>, acc: AltList, nullable: bool)
    requires i <= |e.pattern| && NoNul(e.pattern) && CleanAlts(AltsRe(acc))
    ensures var r := ParseBars(e, i, parens, closed, acc, nullable); r.Ok? ==> CleanAlts(AltsRe(r.value))
    decreases |e.pattern| - i, 4
  {
    hide ParseBranch, PiecesRe, AddAlt, NoNul;
    if At(e.pattern, i) == '|' && ParseBranch(e, i + 1, parens, closed).Ok? {
      BranchClean(e, i + 1, parens, closed);
      var b := ParseBranch(e, i + 1, parens, closed);
      AddAltClean(AltsRe(acc), PiecesRe(b.value));
      BarsClean(e, b.idx, b.parens, b.closed, Bar(acc, b.value), nullable || b.nullable);
    }
  }

  lemma {:induction false} AltsClean(e: Env, i: nat, parens: nat, closed: set<nat>)
    requires i <= |e.pattern| && NoNul(e.pattern)
    ensures var r := ParseAlts(e, i, parens, closed); r.Ok? ==> CleanAlts(AltsRe(r.value))
    decreases |e.pattern| - i, 5
  {
    hide ParseBranch, PiecesRe, ParseBars, NoNul;
    BranchClean(e, i, parens, closed);
    if ParseBranch(e, i, parens, closed).Ok? {
      var b := ParseBranch(e, i, parens, closed);
      BarsClean(e, b.idx, b.parens, b.closed, One(b.value), b.nullable);
    }
  }

  // ---------------------------------------------------------------------------------------
  // Main theorems
  // ---------------------------------------------------------------------------------------

  /** The program the compiler builds for a pattern. */
  function Program(e: Env): Code {
    var r := Parse(e);
    if r.Ok? then EmitProgram(AltsRe(r.value)) else []
  }

  /** The patterns the theorems speak of: they compile, the body of no loop can be empty once literals
      that begin with NUL count as empty, and they stay below the limit of 16-bit offsets. */
  ghost predicate Sane(e: Env) {
    Parse(e).Ok? && LoopsAdvanceAlts(AltsRe(Parse(e).value)) && |Program(e)| <= 0x8000
  }

  /** The condition on loops holds for every pattern whose literals do not begin with NUL, in particular
      for those in which neither a character nor an escape denotes NUL. */
  lemma MostAreSane(e: Env)
    requires Parse(e).Ok? && |Program(e)| <= 0x8000
    ensures NoNul(e.pattern) ==> CleanAlts(AltsRe(Parse(e).value))
    ensures CleanAlts(AltsRe(Parse(e).value)) ==> Sane(e)
  {
    hide ParseAlts, EmitAlts, AltsRe, AcceptedAlts, CleanAlts, LoopsAdvanceAlts, NoNul;
    ParseSound(e);
    if NoNul(e.pattern) {
      AltsClean(e, 0, 1, {});
    }
    if CleanAlts(AltsRe(Parse(e).value)) {
      CleanAltsAdvance(AltsRe(Parse(e).value));
    }
  }

  lemma SaneRunnable(e: Env)
    requires Sane(e)
    ensures Runnable(AltsRe(Parse(e).value))
  {
    hide ParseAlts, EmitAlts, AltsRe, AcceptedAlts, LoopsAdvanceAlts;
    ParseSound(e);
  }

  /** Compilation preserves meaning, from the pattern text to the match: at every position of every
      text, running the compiled program terminates inside the program and finds what ordered
      backtracking over the parsed tree finds first. */
  lemma PatternCorrect(e: Env, x: Subject, i: nat)
    requires Sane(e) && i <= |x.text|
    ensures Yields(Program(e), x, 0, Start(i), Wanted(x, AltsRe(Parse(e).value), i))
  {
    hide Parse, EmitAlts, AltsRe, AcceptedAlts, LoopsAdvanceAlts, Yields, Wanted;
    SaneRunnable(e);
    CompiledProgramCorrect(AltsRe(Parse(e).value), x, i);
  }

  /** Without back-references it fails exactly if no stretch of text from `i` on matches, and
      otherwise ends at a stretch that matches. */
  lemma PatternExact(e: Env, x: Subject, i: nat)
    requires Sane(e) && i <= |x.text| && NoBackRefAlts(AltsRe(Parse(e).value))
    ensures var alts, o := AltsRe(Parse(e).value), Wanted(x, AltsRe(Parse(e).value), i);
      && Yields(Program(e), x, 0, Start(i), o)
      && (o.None? <==> forall j :: i <= j <= |x.text| ==> !MatchesAlts(x, alts, i, j))
      && (o.Some? ==> i <= o.value.pos <= |x.text| && MatchesAlts(x, alts, i, o.value.pos))
  {
    hide Parse, Program, EmitAlts, AltsRe, AcceptedAlts, LoopsAdvanceAlts, Yields, Wanted, MatchesAlts,
      NoBackRefAlts;
    SaneRunnable(e);
    PatternCorrect(e, x, i);
    WantedExact(x, AltsRe(Parse(e).value), i);
  }

  /** A search without back-references finds something exactly if some stretch from `i` on matches, and
      then the place where the first such stretch begins. */
  lemma SearchExact(alts: Alts, x: Subject, i: nat)
    requires Runnable(alts) && NoBackRefAlts(alts)
    ensures var at := Leftmost(x, alts, i);
      && (at.None? <==> forall j, k :: i <= j <= k <= |x.text| ==> !MatchesAlts(x, alts, j, k))
      && (at.Some? ==> i <= at.value <= |x.text| && MatchesSome(x, alts, at.value))
      && (at.Some? ==> forall j, k :: i <= j < at.value && j <= k <= |x.text| ==> !MatchesAlts(x, alts, j, k))
  {
    hide EmitAlts, AcceptedAlts, LoopsAdvanceAlts, NoBackRefAlts, Wanted, MatchesAlts, Leftmost;
    LeftmostIs(x, alts, i);
    forall j, k | i <= j <= k <= |x.text| && MatchesAlts(x, alts, j, k)
      ensures MatchesAt(x, alts, j)
    {
      WantedExact(x, alts, j);
    }
    if Leftmost(x, alts, i).Some? {
      WantedExact(x, alts, Leftmost(x, alts, i).value);
    }
  }

  // ---------------------------------------------------------------------------------------
  // Literals with NUL
  // ---------------------------------------------------------------------------------------

  /** A literal is compared as written exactly if it contains no NUL. */
  lemma {:induction false} AtomWhole(text: string)
    ensures CStr(text) == text <==> NulFree(text)
    ensures |CStr(text)| <= |text|
  {
    if text != "" {
      AtomWhole(text[1..]);
      assert text == [text[0]] + text[1..];
    }
  }

  /** The compiler reports every literal as non-nullable. Matching it consumes nothing exactly if it begins
      with NUL, and then it matches everywhere. */
  lemma AtomConsumes(x: Subject, text: string, st: State)
    requires text != "" && st.pos <= |x.text|
    ensures !Nullable(Leaf(Atom(text)))
    ensures st in Ends(x, Leaf(Atom(text)), st) <==> text[0] == '\0'
    ensures text[0] == '\0' ==> Ends(x, Leaf(Atom(text)), st) == [st]
  {
  }

  /** The tree of the pattern `\0*`. */
  lemma NulStarParses(e: Env)
    requires e.pattern == ['\\', '0', '*']
    ensures Parse(e).Ok? && AltsRe(Parse(e).value) == Only(Star(Leaf(Atom(['\0']))))
  {
    var p := e.pattern;
    var lit := Lit(p[0..2], '\0');
    assert Escape(p, 0) == Esc(EscChar(0), 2);
    assert ScanAtom(p, 0, []) == ScanAtom(p, 2, [lit]) == Scanned([lit], 2);
    var t := Ok(Literal([lit]), 2, 1, {}, false);
    assert ParseTerm(e, 0, 1, {}) == t;
    var piece := Piece(t.value, Asterisk);
    assert ParseClosure(e, t.value, 2, 1, {}) == Ok(piece, 3, 1, {}, true);
    assert ParsePiece(e, 0, 1, {}) == Ok(piece, 3, 1, {}, true);
    var branch := Ok(Snoc(Nil, piece), 3, 1, {}, true);
    assert ParsePieces(e, 3, 1, {}, branch.value, true) == branch;
    assert ParseBranch(e, 0, 1, {}) == ParsePieces(e, 0, 1, {}, Nil, true) == branch;
    assert ParseAlts(e, 0, 1, {}) == ParseBars(e, 3, 1, {}, One(branch.value), true);
    assert Parse(e).value == One(branch.value);
    assert LitText([lit]) == ['\0'];
    assert PieceRe(piece) == Star(TermRe(t.value)) == Star(Leaf(Atom(['\0'])));
    assert PiecesRe(branch.value) == PieceRe(piece);
  }

  /** The pattern `\0*` compiles, and running its program never comes to an end, on no text and at no
      position. */
  lemma NulStarDiverges(e: Env, x: Subject, i: nat)
    requires e.pattern == ['\\', '0', '*'] && i <= |x.text|
    ensures Parse(e).Ok? && !Sane(e) && !Finishes(Program(e), x, 0, Start(i))
  {
    hide Parse, Finishes;
    NulStarParses(e);
    var b := Leaf(Atom(['\0']));
    assert Emit(b) == [Node(Atom(['\0']), 0)];
    assert |StarCode(Emit(b))| == 6;
    assert EmitAlts(Only(Star(b))) == AltCode(StarCode(Emit(b)), 0) by {
      StarEmitted(b);
    }
    assert |Program(e)| == 8;
    ProgramEndsExactly(b, x, i);
  }
}
