/** What the parser guarantees: the tree spells exactly the consumed text, a closure binds to one
    character of an atom, groups are numbered by their opening parentheses, the nullability that
    is computed on the way is that of the tree, and closure operands are not nullable. */
module ReParseProps {
  import opened Text
  import opened ReCode
  import opened ReParse

  // ---------------------------------------------------------------------------------------
  // Denotations of closures and alternatives
  // ---------------------------------------------------------------------------------------

  lemma {:induction false} TimesAccepted(t: Re, n: nat)
    requires n > 0
    ensures Nullable(Times(t, n)) == Nullable(t)
    ensures Accepted(Times(t, n)) == Accepted(t)
  {
    if n > 1 {
      TimesAccepted(t, n - 1);
    }
  }

  lemma RangeAccepted(t: Re, min: nat, opt: int)
    requires (min > 0 || opt != 0) && Accepted(t) && !Nullable(t)
    ensures Accepted(RangeRe(t, min, opt)) && Nullable(RangeRe(t, min, opt)) == (min == 0)
  {
    if min > 0 {
      TimesAccepted(t, min);
    }
    if opt > 0 {
      TimesAccepted(Maybe(t), opt);
    }
  }

  lemma {:induction false} AddAltAccepted(a: Alts, t: Re)
    ensures AcceptedAlts(AddAlt(a, t)) == (AcceptedAlts(a) && Accepted(t))
    ensures NullableAlts(AddAlt(a, t)) == (NullableAlts(a) || Nullable(t))
  {
    if a.Or? {
      AddAltAccepted(a.rest, t);
    }
  }

  // ---------------------------------------------------------------------------------------
  // Properties of concrete trees
  // ---------------------------------------------------------------------------------------

  /** A closure operator binds to a single character, class or group. */
  predicate Tight(p: Piece) {
    (p.term.Literal? && !p.closure.Once? ==> |p.term.lits| == 1) && TightTerm(p.term)
  }

  predicate TightTerm(t: Term) {
    t.Paren? ==> TightAlts(t.alts)
  }

  predicate TightPieces(l: PieceList) {
    l.Snoc? ==> TightPieces(l.init) && Tight(l.last)
  }

  predicate TightAlts(l: AltList) {
    match l
    case One(b) => TightPieces(b)
    case Bar(init, b) => TightAlts(init) && TightPieces(b)
  }

  /** The group numbers of a tree in the order of the opening parentheses. */
  function TermNumbers(t: Term): seq<nat> {
    if t.Paren? then [t.number] + AltsNumbers(t.alts) else []
  }

  function PiecesNumbers(l: PieceList): seq<nat> {
    match l
    case Nil => []
    case Snoc(init, last) => PiecesNumbers(init) + TermNumbers(last.term)
  }

  function AltsNumbers(l: AltList): seq<nat> {
    match l
    case One(b) => PiecesNumbers(b)
    case Bar(init, b) => AltsNumbers(init) + PiecesNumbers(b)
  }

  function From(n: nat, m: nat): seq<nat>
    decreases m - n
  {
    if n < m then [n] + From(n + 1, m) else []
  }

  lemma {:induction false} FromSplit(n: nat, k: nat, m: nat)
    requires n <= k <= m
    ensures From(n, m) == From(n, k) + From(k, m)
    decreases k - n
  {
    if n < k {
      FromSplit(n + 1, k, m);
    }
  }

  lemma FromEmpty(n: nat)
    ensures From(n, n) == []
  {
  }

  lemma Regroup<T>(a: seq<T>, b: seq<T>, c: seq<T>, d: seq<T>)
    requires d == b + c
    ensures a + b + c == a + d
  {
  }

  lemma SliceJoin(p: string, i: nat, j: nat, k: nat)
    requires i <= j <= k <= |p|
    ensures p[i..k] == p[i..j] + p[j..k]
  {
  }

  // ---------------------------------------------------------------------------------------
  // The parser
  // ---------------------------------------------------------------------------------------

  lemma LitsGrow(acc: seq<Lit>, l: Lit)
    ensures LitRaw(acc + [l]) == LitRaw(acc) + l.raw
  {
    assert (acc + [l])[..|acc|] == acc;
  }

  /** An atom is the text it consumes; only a one-character atom stands before a closure. */
  lemma {:induction false} ScanAtomSpells(p: string, i: nat, acc: seq<Lit>)
    requires i <= |p|
    requires |acc| > 1 && i < |p| ==> !IsClosureChar(p[i])
    ensures var r := ScanAtom(p, i, acc);
      r.Scanned? ==>
        && LitRaw(r.lits) == LitRaw(acc) + p[i..r.idx]
        && (|r.lits| > 1 && r.idx < |p| ==> !IsClosureChar(p[r.idx]))
    decreases |p| - i
  {
    hide Escape, LitRaw;
    var r := ScanAtom(p, i, acc);
    if r.Scanned? && r.lits != acc {
      var next, l := AtomStep(p, i, acc);
      LitsGrow(acc, l);
      ScanAtomSpells(p, next, acc + [l]);
      SliceJoin(p, i, next, r.idx);
      Regroup(LitRaw(acc), p[i..next], p[next..r.idx], p[i..r.idx]);
    } else if r.Scanned? {
      ScanAtomStays(p, i, acc);
    }
  }

  /** An atom that grows takes one literal, which no closure operator follows unless it is the first. */
  lemma AtomStep(p: string, i: nat, acc: seq<Lit>) returns (next: nat, l: Lit)
    requires i <= |p| && ScanAtom(p, i, acc).Scanned? && ScanAtom(p, i, acc).lits != acc
    ensures i < next <= |p| && l.raw == p[i..next]
    ensures ScanAtom(p, i, acc) == ScanAtom(p, next, acc + [l])
    ensures acc != [] && next < |p| ==> !IsClosureChar(p[next])
  {
    if p[i] == '\\' {
      var e := Escape(p, i);
      next, l := e.idx, Lit(p[i..e.idx], Narrowed(e.kind.code));
    } else {
      next, l := i + 1, Lit([p[i]], p[i]);
    }
  }

  /** The atom only grows while it moves on. */
  lemma {:induction false} ScanAtomStays(p: string, i: nat, acc: seq<Lit>)
    requires i <= |p|
    ensures var r := ScanAtom(p, i, acc);
      r.Scanned? ==> |r.lits| >= |acc| && (|r.lits| == |acc| ==> r.idx == i)
    decreases |p| - i
  {
    var r := ScanAtom(p, i, acc);
    if i < |p| && r.Scanned? {
      if p[i] == '\\' {
        var e := Escape(p, i);
        if e.kind.EscChar? {
          ScanAtomStays(p, e.idx, acc + [Lit(p[i..e.idx], Narrowed(e.kind.code))]);
        }
      } else {
        ScanAtomStays(p, i + 1, acc + [Lit([p[i]], p[i])]);
      }
    }
  }

  /** What holds of every terminal that was parsed from `i` on. */
  ghost predicate TermOk(e: Env, i: nat, parens: nat, r: Parsed<Term>) {
    r.Ok? ==>
      && i < r.idx <= |e.pattern|
      && TermRaw(r.value) == e.pattern[i..r.idx]
      && TightTerm(r.value) && parens <= r.parens && TermNumbers(r.value) == From(parens, r.parens)
      && Accepted(TermRe(r.value)) && Nullable(TermRe(r.value)) == r.nullable
      && (r.value.Literal? ==> |r.value.lits| > 0)
      && (r.value.Literal? && |r.value.lits| > 1 && r.idx < |e.pattern| ==> !IsClosureChar(e.pattern[r.idx]))
  }

  lemma AtomSound(e: Env, i: nat, parens: nat, closed: set<nat>)
    requires i < |e.pattern|
    ensures TermOk(e, i, parens, ParseAtom(e, i, parens, closed))
  {
    hide ScanAtom;
    ScanAtomSpells(e.pattern, i, []);
    FromEmpty(parens);
  }

  lemma EscapeSound(e: Env, i: nat, parens: nat, closed: set<nat>)
    requires i < |e.pattern|
    ensures TermOk(e, i, parens, ParseEscape(e, i, parens, closed))
  {
    hide ParseAtom, Escape, From;
    AtomSound(e, i, parens, closed);
    FromEmpty(parens);
  }

  lemma {:induction false} TermSound(e: Env, i: nat, parens: nat, closed: set<nat>)
    requires i < |e.pattern|
    ensures TermOk(e, i, parens, ParseTerm(e, i, parens, closed))
    decreases |e.pattern| - i, 0
  {
    hide ParseAtom, ParseEscape, ParseParen, From;
    FromEmpty(parens);
    if e.pattern[i] == '(' {
      ParenSound(e, i, parens, closed);
    } else {
      EscapeSound(e, i, parens, closed);
      AtomSound(e, i, parens, closed);
    }
  }

  lemma {:induction false} ParenSound(e: Env, i: nat, parens: nat, closed: set<nat>)
    requires i < |e.pattern| && e.pattern[i] == '('
    ensures TermOk(e, i, parens, ParseParen(e, i, parens, closed))
    decreases |e.pattern| - i - 1, 9
  {
    hide ParseAlts, AltsRaw, AltsNumbers, TightAlts, AltsRe, AcceptedAlts, NullableAlts;
    AltsSound(e, i + 1, parens + 1, closed);
    var r := ParseParen(e, i, parens, closed);
    if r.Ok? {
      SliceJoin(e.pattern, i, i + 1, r.idx);
      SliceJoin(e.pattern, i + 1, r.idx - 1, r.idx);
    }
  }

  lemma {:induction false} PieceSound(e: Env, i: nat, parens: nat, closed: set<nat>)
    requires i < |e.pattern|
    ensures var r := ParsePiece(e, i, parens, closed);
      r.Ok? ==>
        && PieceRaw(r.value) == e.pattern[i..r.idx]
        && Tight(r.value) && parens <= r.parens && TermNumbers(r.value.term) == From(parens, r.parens)
        && Accepted(PieceRe(r.value)) && Nullable(PieceRe(r.value)) == r.nullable
    decreases |e.pattern| - i, 1
  {
    hide ParseTerm, TermRe, TermRaw, TightTerm, From, TermNumbers, RangeRe, Bracket;
    TermSound(e, i, parens, closed);
    var t := ParseTerm(e, i, parens, closed);
    var r := ParsePiece(e, i, parens, closed);
    if r.Ok? {
      SliceJoin(e.pattern, i, t.idx, r.idx);
      if r.value.closure.Braces? {
        RangeAccepted(TermRe(t.value), r.value.closure.min, r.value.closure.opt);
      }
    }
  }

  lemma {:induction false} PiecesSound(e: Env, i: nat, parens: nat, closed: set<nat>, acc: PieceList, nullable: bool)
    requires i <= |e.pattern|
    requires TightPieces(acc) && Accepted(PiecesRe(acc)) && Nullable(PiecesRe(acc)) == nullable
    ensures var r := ParsePieces(e, i, parens, closed, acc, nullable);
      r.Ok? ==>
        && PiecesRaw(r.value) == PiecesRaw(acc) + e.pattern[i..r.idx]
        && TightPieces(r.value) && parens <= r.parens
        && PiecesNumbers(r.value) == PiecesNumbers(acc) + From(parens, r.parens)
        && Accepted(PiecesRe(r.value)) && Nullable(PiecesRe(r.value)) == r.nullable
    decreases |e.pattern| - i, 2
  {
    hide ParsePiece, PieceRe, PieceRaw, Tight, From, TermNumbers;
    var r := ParsePieces(e, i, parens, closed, acc, nullable);
    if EndsBranch(e, i) {
      FromEmpty(parens);
    } else if r.Ok? {
      PieceSound(e, i, parens, closed);
      var p := ParsePiece(e, i, parens, closed);
      PiecesSound(e, p.idx, p.parens, p.closed, Snoc(acc, p.value), nullable && p.nullable);
      SliceJoin(e.pattern, i, p.idx, r.idx);
      Regroup(PiecesRaw(acc), e.pattern[i..p.idx], e.pattern[p.idx..r.idx], e.pattern[i..r.idx]);
      FromSplit(parens, p.parens, r.parens);
      Regroup(PiecesNumbers(acc), From(parens, p.parens), From(p.parens, r.parens), From(parens, r.parens));
    }
  }

  lemma {:induction false} BranchSound(e: Env, i: nat, parens: nat, closed: set<nat>)
    requires i <= |e.pattern|
    ensures var r := ParseBranch(e, i, parens, closed);
      r.Ok? ==>
        && PiecesRaw(r.value) == e.pattern[i..r.idx]
        && TightPieces(r.value) && parens <= r.parens && PiecesNumbers(r.value) == From(parens, r.parens)
        && Accepted(PiecesRe(r.value)) && Nullable(PiecesRe(r.value)) == r.nullable
    decreases |e.pattern| - i, 3
  {
    PiecesSound(e, i, parens, closed, Nil, true);
  }

  lemma {:induction false} BarsSound(e: Env, i: nat, parens: nat, closed: set<nat>, acc: AltList, nullable: bool)
    requires i <= |e.pattern|
    requires TightAlts(acc) && AcceptedAlts(AltsRe(acc)) && NullableAlts(AltsRe(acc)) == nullable
    ensures var r := ParseBars(e, i, parens, closed, acc, nullable);
      r.Ok? ==>
        && AltsRaw(r.value) == AltsRaw(acc) + e.pattern[i..r.idx]
        && TightAlts(r.value) && parens <= r.parens
        && AltsNumbers(r.value) == AltsNumbers(acc) + From(parens, r.parens)
        && AcceptedAlts(AltsRe(r.value)) && NullableAlts(AltsRe(r.value)) == r.nullable
    decreases |e.pattern| - i, 4
  {
    hide ParseBranch, PiecesRe, PiecesRaw, TightPieces, PiecesNumbers, From, AddAlt, Accepted, Nullable;
    var r := ParseBars(e, i, parens, closed, acc, nullable);
    if At(e.pattern, i) != '|' {
      FromEmpty(parens);
    } else if r.Ok? {
      BranchSound(e, i + 1, parens, closed);
      var b := ParseBranch(e, i + 1, parens, closed);
      AddAltAccepted(AltsRe(acc), PiecesRe(b.value));
      BarsSound(e, b.idx, b.parens, b.closed, Bar(acc, b.value), nullable || b.nullable);
      SliceJoin(e.pattern, i, i + 1, b.idx);
      Regroup(AltsRaw(acc), "|", e.pattern[i + 1..b.idx], e.pattern[i..b.idx]);
      SliceJoin(e.pattern, i, b.idx, r.idx);
      Regroup(AltsRaw(acc), e.pattern[i..b.idx], e.pattern[b.idx..r.idx], e.pattern[i..r.idx]);
      FromSplit(parens, b.parens, r.parens);
      Regroup(AltsNumbers(acc), From(parens, b.parens), From(b.parens, r.parens), From(parens, r.parens));
    }
  }

  lemma {:induction false} AltsSound(e: Env, i: nat, parens: nat, closed: set<nat>)
    requires i <= |e.pattern|
    ensures var r := ParseAlts(e, i, parens, closed);
      r.Ok? ==>
        && AltsRaw(r.value) == e.pattern[i..r.idx]
        && TightAlts(r.value) && parens <= r.parens && AltsNumbers(r.value) == From(parens, r.parens)
        && AcceptedAlts(AltsRe(r.value)) && NullableAlts(AltsRe(r.value)) == r.nullable
    decreases |e.pattern| - i, 5
  {
    BranchSound(e, i, parens, closed);
    var b := ParseBranch(e, i, parens, closed);
    var r := ParseAlts(e, i, parens, closed);
    if r.Ok? {
      BarsSound(e, b.idx, b.parens, b.closed, One(b.value), b.nullable);
      SliceJoin(e.pattern, i, b.idx, r.idx);
      FromSplit(parens, b.parens, r.parens);
    }
  }

  /** A pattern that parses is spelled exactly by its tree, groups numbered from 1 by their opening
      parentheses, and its expression has no nullable closure operand. */
  lemma ParseSound(e: Env)
    ensures var r := Parse(e);
      r.Ok? ==>
        && AltsRaw(r.value) == e.pattern && TightAlts(r.value)
        && AltsNumbers(r.value) == From(1, r.parens)
        && AcceptedAlts(AltsRe(r.value)) && NullableAlts(AltsRe(r.value)) == r.nullable
  {
    AltsSound(e, 0, 1, {});
  }
}
