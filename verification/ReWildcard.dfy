/** Wildcard patterns: their translation into regular expressions, and its exactness. */
module ReWildcard {
  import opened Text
  import opened ReCode
  import opened ReMatch
  import opened ReSim
  import opened ReParse
  import opened ReParseProps
  import opened ReLang
  import opened RePatterns

  // ---------------------------------------------------------------------------------------
  // Translation
  // ---------------------------------------------------------------------------------------

  predicate IsSpecial(c: char) {
    c in ".[]\\+?{}$^|()"
  }

  /** What one wildcard character turns into. */
  function Unit(c: char): string {
    if c == '*' then ".*" else if IsSpecial(c) then ['\\', c] else [c]
  }

  function Translate(w: string): string {
    if w == "" then "" else Translate(w[..|w| - 1]) + Unit(w[|w| - 1])
  }

  method SimplePatternToFullRegularExpression(pattern: string) returns (buf: string)
    ensures buf == Translate(pattern)
  {
    buf := "";
    for i := 0 to |pattern|
      invariant buf == Translate(pattern[..i])
    {
      var c := pattern[i];
      assert pattern[..i + 1][..i] == pattern[..i];
      if c == '*' {
        buf := buf + ".*";
      } else {
        if c in ".[]\\+?{}$^|()" {
          buf := buf + "\\";
        }
        buf := buf + [c];
      }
    }
    assert pattern[..|pattern|] == pattern;
  }

  // ---------------------------------------------------------------------------------------
  // Meaning
  // ---------------------------------------------------------------------------------------

  /** The stretch from `i` to `j` has no newline, unless newlines count as any character. */
  ghost predicate OneLine(x: Subject, i: nat, j: nat)
    requires i <= j <= |x.text|
  {
    x.dotNewline || forall k :: i <= k < j ==> x.text[k] != '\n'
  }

  predicate SameChar(x: Subject, c: char, d: char) {
    if x.icase then ToLower(c) == ToLower(d) else c == d
  }

  /** `*` matches any stretch of a line, every other character itself. */
  ghost predicate Glob(x: Subject, w: string, i: nat, j: nat)
    requires i <= j <= |x.text|
  {
    if w == "" then i == j
    else if w[0] == '*' then exists k :: i <= k <= j && OneLine(x, i, k) && Glob(x, w[1..], k, j)
    else i < j && SameChar(x, w[0], x.text[i]) && Glob(x, w[1..], i + 1, j)
  }

  lemma {:induction false} GlobJoin(x: Subject, g: string, h: string, i: nat, k: nat, j: nat)
    requires i <= k <= j <= |x.text| && Glob(x, g, i, k) && Glob(x, h, k, j)
    ensures Glob(x, g + h, i, j)
  {
    if g == "" {
      assert g + h == h;
    } else {
      assert (g + h)[1..] == g[1..] + h;
      if g[0] == '*' {
        var l :| i <= l <= k && OneLine(x, i, l) && Glob(x, g[1..], l, k);
        GlobJoin(x, g[1..], h, l, k, j);
      } else {
        GlobJoin(x, g[1..], h, i + 1, k, j);
      }
    }
  }

  lemma {:induction false} GlobSplit(x: Subject, g: string, h: string, i: nat, j: nat) returns (k: nat)
    requires i <= j <= |x.text| && Glob(x, g + h, i, j)
    ensures i <= k <= j && Glob(x, g, i, k) && Glob(x, h, k, j)
  {
    if g == "" {
      assert g + h == h;
      k := i;
    } else {
      assert (g + h)[1..] == g[1..] + h;
      if g[0] == '*' {
        var l :| i <= l <= j && OneLine(x, i, l) && Glob(x, g[1..] + h, l, j);
        k := GlobSplit(x, g[1..], h, l, j);
      } else {
        k := GlobSplit(x, g[1..], h, i + 1, j);
      }
    }
  }

  /** `.*` matches the stretches without a newline. */
  lemma {:induction false} AnyRounds(x: Subject, n: nat, i: nat, j: nat)
    requires i <= j <= |x.text|
    ensures Repeats(x, Leaf(Any), n, i, j) <==> n == j - i && OneLine(x, i, j)
  {
    if n > 0 {
      if Repeats(x, Leaf(Any), n, i, j) {
        var k := FirstRound(x, Leaf(Any), n, i, j);
        AnyRounds(x, n - 1, k, j);
      }
      if n == j - i && OneLine(x, i, j) {
        AnyRounds(x, n - 1, i + 1, j);
        assert Matches(x, Leaf(Any), i, i + 1);
      }
    }
  }

  /** An atom without `*` matches itself. */
  lemma {:induction false} LiteralGlob(x: Subject, g: string, i: nat, j: nat)
    requires i <= j <= |x.text| && '*' !in g
    ensures Glob(x, g, i, j) <==> SameText(x.icase, g, x.text[i..j])
  {
    if g == "" {
    } else if i == j {
      assert |Fold(g)| == |g|;
    } else {
      var s := x.text[i..j];
      LiteralGlob(x, g[1..], i + 1, j);
      assert s[1..] == x.text[i + 1..j] && s == [s[0]] + s[1..] && g == [g[0]] + g[1..];
      FoldConcat([g[0]], g[1..]);
      FoldConcat([s[0]], s[1..]);
      assert Fold([g[0]]) == [ToLower(g[0])] && Fold([s[0]]) == [ToLower(s[0])];
      assert Fold(g)[1..] == Fold(g[1..]) && Fold(s)[1..] == Fold(s[1..]);
    }
  }

  // ---------------------------------------------------------------------------------------
  // The parser on a translated wildcard
  // ---------------------------------------------------------------------------------------

  /** Where the `n`th wildcard character ends up. */
  function Place(w: string, n: nat): nat
    requires n <= |w|
  {
    |Translate(w[..n])|
  }

  lemma {:induction false} TranslatePrefix(w: string, n: nat)
    requires n <= |w|
    ensures Place(w, n) <= |Translate(w)| && Translate(w)[..Place(w, n)] == Translate(w[..n])
  {
    if n == |w| {
      assert w[..n] == w;
    } else {
      TranslatePrefix(w[..|w| - 1], n);
      assert w[..|w| - 1][..n] == w[..n];
    }
  }

  lemma UnitAt(w: string, n: nat)
    requires n < |w|
    ensures Place(w, n + 1) == Place(w, n) + |Unit(w[n])| <= |Translate(w)|
    ensures Translate(w)[Place(w, n)..Place(w, n + 1)] == Unit(w[n])
  {
    assert w[..n + 1][..n] == w[..n];
    TranslatePrefix(w, n + 1);
  }

  /** The first character of each unit: never a closure operator, a bar or a closing parenthesis. */
  lemma UnitStart(w: string, n: nat)
    requires n <= |w|
    ensures Place(w, n) <= |Translate(w)| && (n == |w| <==> Place(w, n) == |Translate(w)|)
    ensures n < |w| ==>
      var c := Translate(w)[Place(w, n)];
      c == (if w[n] == '*' then '.' else if IsSpecial(w[n]) then '\\' else w[n])
  {
    hide Translate;
    if n < |w| {
      UnitAt(w, n);
      assert Unit(w[n])[0] == Translate(w)[Place(w, n)..Place(w, n + 1)][0];
    } else {
      assert w[..n] == w;
    }
  }

  /** An escaped special character denotes itself. */
  lemma EscapeAt(w: string, n: nat)
    requires n < |w| && w[n] != '*' && IsSpecial(w[n])
    ensures var p, i := Translate(w), Place(w, n);
      i < |p| && Escape(p, i) == Esc(EscChar(w[n] as int), i + 2) && i + 2 == Place(w, n + 1)
  {
    hide Translate;
    UnitAt(w, n);
    UnitStart(w, n);
    assert Unit(w[n])[1] == Translate(w)[Place(w, n)..Place(w, n + 1)][1];
  }

  lemma LitTextGrow(acc: seq<Lit>, l: Lit)
    ensures LitText(acc + [l]) == LitText(acc) + [l.c]
  {
  }

  /** An atom takes a run of wildcard characters other than `*`, possibly cut short by the look-ahead. */
  lemma {:induction false} ScanWildcard(w: string, n: nat, acc: seq<Lit>) returns (m: nat)
    requires n <= |w| && (acc == [] ==> n < |w| && w[n] != '*')
    ensures n <= m <= |w| && (acc == [] ==> n < m) && '*' !in w[n..m]
    ensures Place(w, n) <= |Translate(w)|
    ensures var r := ScanAtom(Translate(w), Place(w, n), acc);
      r.Scanned? && r.idx == Place(w, m) && LitText(r.lits) == LitText(acc) + w[n..m]
    decreases |w| - n
  {
    hide Translate, Place, Unit, IsSpecial, Escape, ScanAtom, BeforeClosure, LitText;
    var p, i := Translate(w), Place(w, n);
    UnitStart(w, n);
    if n < |w| && w[n] != '*' && (acc == [] || !BeforeClosure(p, i)) {
      UnitAt(w, n);
      var l := Lit(p[i..Place(w, n + 1)], w[n]);
      TakesLiteral(w, n, acc, l);
      m := ScanWildcard(w, n + 1, acc + [l]);
      LitTextGrow(acc, l);
      RunGrows(w, n, m, LitText(acc));
    } else {
      m := n;
      StopsAtom(w, n, acc);
    }
  }

  lemma RunGrows(w: string, n: nat, m: nat, t: string)
    requires n < m <= |w| && w[n] != '*' && '*' !in w[n + 1..m]
    ensures '*' !in w[n..m] && t + [w[n]] + w[n + 1..m] == t + w[n..m]
  {
    assert w[n..m] == [w[n]] + w[n + 1..m];
  }

  lemma StopsAtom(w: string, n: nat, acc: seq<Lit>)
    requires n <= |w| && acc != [] && Place(w, n) <= |Translate(w)|
    requires n < |w| && w[n] != '*' ==> Place(w, n) < |Translate(w)| && BeforeClosure(Translate(w), Place(w, n))
    ensures ScanAtom(Translate(w), Place(w, n), acc) == Scanned(acc, Place(w, n))
  {
    hide Translate, Place, Escape;
    UnitStart(w, n);
    if n < |w| && w[n] != '*' && IsSpecial(w[n]) {
      EscapeAt(w, n);
    }
  }

  lemma TakesLiteral(w: string, n: nat, acc: seq<Lit>, l: Lit)
    requires n < |w| && w[n] != '*' && Place(w, n) <= Place(w, n + 1) <= |Translate(w)|
    requires l == Lit(Translate(w)[Place(w, n)..Place(w, n + 1)], w[n])
    requires Place(w, n) < |Translate(w)| && (acc == [] || !BeforeClosure(Translate(w), Place(w, n)))
    ensures ScanAtom(Translate(w), Place(w, n), acc) == ScanAtom(Translate(w), Place(w, n + 1), acc + [l])
  {
    hide Translate, Place, Escape;
    var p, i := Translate(w), Place(w, n);
    UnitStart(w, n);
    UnitAt(w, n);
    if IsSpecial(w[n]) {
      EscapeAt(w, n);
      assert Narrowed(w[n] as int) == w[n];
    }
  }

  /** The piece that a stretch `g` of the wildcard turns into. */
  ghost predicate PieceFor(p: Piece, g: string) {
    || (g == "*" && p == Piece(Simple(".", Any), Asterisk))
    || (g != "" && '*' !in g && p.closure.Once? && p.term.Literal? && LitText(p.term.lits) == g)
  }

  lemma ParseWildPiece(e: Env, w: string, n: nat) returns (m: nat)
    requires e.pattern == Translate(w) && NulFree(w) && n < |w|
    ensures n < m <= |w| && Place(w, n) < |e.pattern|
    ensures var r := ParsePiece(e, Place(w, n), 1, {});
      r.Ok? && r.idx == Place(w, m) && r.parens == 1 && r.closed == {} && PieceFor(r.value, w[n..m])
  {
    hide Translate, Place, Escape, ScanAtom;
    var i := Place(w, n);
    UnitStart(w, n);
    UnitAt(w, n);
    if w[n] == '*' {
      m := n + 1;
      UnitStart(w, m);
      assert Unit('*')[1] == e.pattern[i..Place(w, m)][1];
      assert w[n..m] == "*";
    } else {
      m := ScanWildcard(w, n, []);
      UnitStart(w, m);
      if IsSpecial(w[n]) {
        EscapeAt(w, n);
      }
      var r := ParseTerm(e, i, 1, {});
      assert w[n..m] == [w[n]] + w[n + 1..m];
    }
  }

  /** The pieces so far, followed by the wildcard `g`. */
  ghost predicate MatchesThenGlob(x: Subject, acc: PieceList, g: string, i: nat, j: nat)
    requires i <= j <= |x.text|
  {
    exists k :: i <= k <= j && Matches(x, PiecesRe(acc), i, k) && Glob(x, g, k, j)
  }

  lemma PieceMeans(x: Subject, p: Piece, g: string, i: nat, j: nat)
    requires PieceFor(p, g) && NulFree(g) && i <= j <= |x.text|
    ensures Matches(x, PieceRe(p), i, j) <==> Glob(x, g, i, j)
  {
    if g == "*" {
      StarMeans(x, i, j);
    } else {
      LiteralGlob(x, g, i, j);
      CStrOfNulFree(g);
      assert PieceRe(p) == Leaf(Atom(g));
    }
  }

  lemma StarMeans(x: Subject, i: nat, j: nat)
    requires i <= j <= |x.text|
    ensures Matches(x, Star(Leaf(Any)), i, j) <==> Glob(x, "*", i, j)
  {
    if Matches(x, Star(Leaf(Any)), i, j) {
      var n := StarCount(x, Leaf(Any), i, j);
      AnyRounds(x, n, i, j);
      assert Glob(x, "", j, j);
    }
    if Glob(x, "*", i, j) {
      var k :| i <= k <= j && OneLine(x, i, k) && Glob(x, "*"[1..], k, j);
      AnyRounds(x, j - i, i, j);
    }
  }

  lemma SnocMeans(x: Subject, acc: PieceList, p: Piece, i: nat, j: nat) returns (k: nat)
    requires i <= j <= |x.text| && Matches(x, PiecesRe(Snoc(acc, p)), i, j)
    ensures i <= k <= j && Matches(x, PiecesRe(acc), i, k) && Matches(x, PieceRe(p), k, j)
  {
    if acc.Nil? {
      k := i;
    } else {
      k := CatParts(x, PiecesRe(acc), PieceRe(p), i, j);
    }
  }

  lemma MeansSnoc(x: Subject, acc: PieceList, p: Piece, i: nat, k: nat, j: nat)
    requires i <= k <= j <= |x.text| && Matches(x, PiecesRe(acc), i, k) && Matches(x, PieceRe(p), k, j)
    ensures Matches(x, PiecesRe(Snoc(acc, p)), i, j)
  {
  }

  /** Moving one piece from the wildcard to the pieces changes nothing. */
  lemma PieceMoves(x: Subject, acc: PieceList, p: Piece, g: string, h: string, i: nat, j: nat)
    requires PieceFor(p, g) && NulFree(g) && i <= j <= |x.text|
    ensures MatchesThenGlob(x, Snoc(acc, p), h, i, j) <==> MatchesThenGlob(x, acc, g + h, i, j)
  {
    hide Matches, Glob, PiecesRe, PieceRe, PieceFor;
    if MatchesThenGlob(x, Snoc(acc, p), h, i, j) {
      var k :| i <= k <= j && Matches(x, PiecesRe(Snoc(acc, p)), i, k) && Glob(x, h, k, j);
      var l := SnocMeans(x, acc, p, i, k);
      PieceMeans(x, p, g, l, k);
      GlobJoin(x, g, h, l, k, j);
    }
    if MatchesThenGlob(x, acc, g + h, i, j) {
      var l :| i <= l <= j && Matches(x, PiecesRe(acc), i, l) && Glob(x, g + h, l, j);
      var k := GlobSplit(x, g, h, l, j);
      PieceMeans(x, p, g, l, k);
      MeansSnoc(x, acc, p, i, l, k);
    }
  }

  /** No back-references, and every atom is matched. */
  predicate Plain(t: Re) {
    NoBackRef(t) && Clean(t)
  }

  lemma PiecePlain(acc: PieceList, p: Piece, g: string)
    requires PieceFor(p, g) && NulFree(g) && Plain(PiecesRe(acc))
    ensures Plain(PiecesRe(Snoc(acc, p)))
  {
    if g != "*" {
      assert PieceRe(p) == Leaf(Atom(g));
      CStrOfNulFree(g);
    } else {
      assert PieceRe(p) == Star(Leaf(Any));
    }
  }

  lemma {:induction false} ParseWildPieces(e: Env, w: string, n: nat, acc: PieceList, nullable: bool,
      x: Subject, i: nat, j: nat)
    requires e.pattern == Translate(w) && NulFree(w) && n <= |w| && i <= j <= |x.text|
    requires Plain(PiecesRe(acc))
    ensures Place(w, n) <= |e.pattern|
    ensures var r := ParsePieces(e, Place(w, n), 1, {}, acc, nullable);
      && r.Ok? && r.idx == |e.pattern| && Plain(PiecesRe(r.value))
      && (Matches(x, PiecesRe(r.value), i, j) <==> MatchesThenGlob(x, acc, w[n..], i, j))
    decreases |w| - n
  {
    hide Translate, Place, ParsePiece, Matches, PiecesRe, PieceFor, MatchesThenGlob, Plain;
    UnitStart(w, n);
    if n == |w| {
      NothingLeft(x, acc, i, j);
      assert w[n..] == "";
    } else {
      var m := ParseWildPiece(e, w, n);
      var p := ParsePiece(e, Place(w, n), 1, {});
      PiecePlain(acc, p.value, w[n..m]);
      ParseWildPieces(e, w, m, Snoc(acc, p.value), nullable && p.nullable, x, i, j);
      PieceMoves(x, acc, p.value, w[n..m], w[m..], i, j);
      assert w[n..] == w[n..m] + w[m..];
    }
  }

  lemma NothingLeft(x: Subject, acc: PieceList, i: nat, j: nat)
    requires i <= j <= |x.text|
    ensures Matches(x, PiecesRe(acc), i, j) <==> MatchesThenGlob(x, acc, "", i, j)
  {
    assert Glob(x, "", j, j);
  }

  /** Wildcard translation is exact: the translation compiles, and matches a stretch exactly if the
      wildcard does. */
  lemma TranslationExact(e: Env, w: string, x: Subject, i: nat, j: nat)
    requires e.pattern == Translate(w) && NulFree(w) && i <= j <= |x.text|
    ensures Parse(e).Ok? && (MatchesAlts(x, AltsRe(Parse(e).value), i, j) <==> Glob(x, w, i, j))
    ensures NoBackRefAlts(AltsRe(Parse(e).value)) && CleanAlts(AltsRe(Parse(e).value))
  {
    hide ParsePieces, PiecesRe, Matches, Glob;
    PlainNil();
    assert w[..0] == "" && w[0..] == w && Place(w, 0) == 0;
    ParseWildPieces(e, w, 0, Nil, true, x, i, j);
    var b := ParsePieces(e, 0, 1, {}, Nil, true);
    NilFirst(x, w, i, j);
    assert ParseBranch(e, 0, 1, {}) == b;
    assert ParseBars(e, b.idx, b.parens, b.closed, One(b.value), b.nullable).Ok?;
    assert ParseAlts(e, 0, 1, {}) == Ok(One(b.value), b.idx, b.parens, b.closed, b.nullable);
    assert Parse(e).value == One(b.value);
  }

  lemma NilFirst(x: Subject, w: string, i: nat, j: nat)
    requires i <= j <= |x.text|
    ensures MatchesThenGlob(x, Nil, w, i, j) <==> Glob(x, w, i, j)
  {
    assert Matches(x, PiecesRe(Nil), i, i);
  }

  lemma PlainNil()
    ensures Plain(PiecesRe(Nil))
  {
  }

  /** The compiled translation, run at `i`, fails exactly if no stretch from `i` on matches the
      wildcard, and otherwise ends at a stretch that does. */
  lemma WildcardExact(e: Env, w: string, x: Subject, i: nat)
    requires e.pattern == Translate(w) && NulFree(w) && i <= |x.text| && |Program(e)| <= 0x8000
    ensures Parse(e).Ok?
    ensures var o := Wanted(x, AltsRe(Parse(e).value), i);
      && Yields(Program(e), x, 0, Start(i), o)
      && (o.None? <==> forall j :: i <= j <= |x.text| ==> !Glob(x, w, i, j))
      && (o.Some? ==> i <= o.value.pos <= |x.text| && Glob(x, w, i, o.value.pos))
  {
    hide Parse, AltsRe, EmitAlts, AcceptedAlts, CleanAlts, LoopsAdvanceAlts, NoBackRefAlts, MatchesAlts, Glob,
      Yields, Translate, Wanted;
    ParseSound(e);
    TranslationExact(e, w, x, i, i);
    var alts := AltsRe(Parse(e).value);
    CleanAltsAdvance(alts);
    CompiledProgramCorrect(alts, x, i);
    WantedExact(x, alts, i);
    forall j | i <= j <= |x.text|
      ensures MatchesAlts(x, alts, i, j) <==> Glob(x, w, i, j)
    {
      TranslationExact(e, w, x, i, j);
    }
    if Wanted(x, alts, i).None? {
      forall j | i <= j <= |x.text|
        ensures !Glob(x, w, i, j)
      {
        assert !MatchesAlts(x, alts, i, j);
      }
    } else {
      var j := Wanted(x, alts, i).value.pos;
      assert MatchesAlts(x, alts, i, j) && Glob(x, w, i, j);
    }
  }
}
