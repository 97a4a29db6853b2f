/** The parser accepts what it should: every readable tree is what parsing its spelling gives. */
module ReReadBack {
  import opened Text
  import opened ReCode
  import opened ReMatch
  import opened ReParse
  import opened ReParseProps
  import opened ReMeaning

  // ---------------------------------------------------------------------------------------
  // Readable trees
  // ---------------------------------------------------------------------------------------

  predicate IsHex(c: char) {
    IsDigit(c) || 'a' <= c <= 'f' || 'A' <= c <= 'F'
  }

  /** Escapes that stand for a character whatever follows: three octal digits, `x` with two hexadecimal
      digits, a letter of the C language, or a character of ASCII that is no letter or digit. */
  predicate EscapeReadable(raw: string) {
    && |raw| >= 2 && raw[0] == '\\'
    && (|| (|raw| == 2 && raw[1] in "tnrf")
        || (|raw| == 2 && !IsAlnum(raw[1]) && raw[1] as int < 0x80)
        || (|raw| == 4 && raw[1] == 'x' && IsHex(raw[2]) && IsHex(raw[3]))
        || (|raw| == 4 && IsOctal(raw[1]) && IsOctal(raw[2]) && IsOctal(raw[3])))
  }

  predicate LitReadable(l: Lit) {
    && LitSpelled(l)
    && (if |l.raw| == 1 then l.raw[0] != '\0' else EscapeReadable(l.raw))
  }

  predicate BracesReadable(c: Closure)
    requires c.Braces?
  {
    && |c.raw| >= 2 && c.raw[0] == '{' && c.raw[|c.raw| - 1] == '}' && (c.min > 0 || c.opt != 0)
    && var inner := c.raw[1..|c.raw| - 1];
      var k := Comma(inner);
      && AllDigits(inner[..k]) && c.min == (if k == 0 then 1 else Number(inner[..k], 10))
      && (if k == |inner| then c.opt == 0
          else if k + 1 == |inner| then c.opt == -1
          else AllDigits(inner[k + 1..]) && c.opt >= 0 && c.min + c.opt == Number(inner[k + 1..], 10))
  }

  /** The text stands in the pattern at `i`. */
  predicate Stands(p: string, raw: string, i: nat) {
    i + |raw| <= |p| && p[i..i + |raw|] == raw
  }

  function Numbers(nums: seq<nat>): set<nat> {
    set k | k in nums
  }

  ghost predicate SimpleReadable(e: Env, raw: string, op: Op, closed: set<nat>) {
    && SimpleSpelled(e, raw, op)
    && (op.BackRef? ==> op.number in closed && raw[1] != '0')
    && (raw != "" && raw[0] == '[' ==> forall i :: Stands(e.pattern, raw, i) ==> ClassAt(e, raw, op, i))
  }

  /** Can the terminal be read when `parens` is the number of the next group and `closed` are closed? */
  ghost predicate TermReadable(e: Env, t: Term, parens: nat, closed: set<nat>)
    decreases t
  {
    match t
    case Simple(raw, op) => SimpleReadable(e, raw, op, closed)
    case Literal(lits) => LitsReadable(lits)
    case Paren(number, alts) => number == parens && AltsReadable(e, alts, parens + 1, closed)
  }

  ghost predicate PieceReadable(e: Env, p: Piece, parens: nat, closed: set<nat>)
    decreases p
  {
    && TermReadable(e, p.term, parens, closed)
    && (!p.closure.Once? ==> !Nullable(TermRe(p.term)) && (p.term.Literal? ==> |p.term.lits| == 1))
    && (p.closure.Braces? ==> BracesReadable(p.closure))
  }

  predicate IsWord(p: Piece) {
    p.term.Literal? && p.closure.Once?
  }

  predicate IsReference(p: Piece) {
    p.term.Simple? && p.term.op.BackRef?
  }

  /** Two pieces that would not be read as one: literals are collected into one atom, and a digit behind a
      back-reference makes it an octal number. */
  predicate Apart(a: Piece, b: Piece) {
    && !(IsWord(a) && IsWord(b))
    && (IsReference(a) && PieceRaw(b) != "" ==> !IsOctal(PieceRaw(b)[0]))
  }

  ghost predicate PiecesReadable(e: Env, l: PieceList, parens: nat, closed: set<nat>)
    decreases l
  {
    match l
    case Nil => true
    case Snoc(init, last) =>
      var nums := PiecesNumbers(init);
      && PiecesReadable(e, init, parens, closed)
      && PieceReadable(e, last, parens + |nums|, closed + Numbers(nums))
      && (init.Snoc? ==> Apart(init.last, last))
  }

  ghost predicate AltsReadable(e: Env, l: AltList, parens: nat, closed: set<nat>)
    decreases l
  {
    match l
    case One(b) => PiecesReadable(e, b, parens, closed)
    case Bar(init, b) =>
      var nums := AltsNumbers(init);
      AltsReadable(e, init, parens, closed) && PiecesReadable(e, b, parens + |nums|, closed + Numbers(nums))
  }

  /** The pattern does not end in an escaped closure character, on which the look-ahead of the compiler
      would split an atom. */
  predicate NoQuirk(p: string) {
    |p| >= 2 && p[|p| - 2] == '\\' ==> !IsClosureChar(p[|p| - 1])
  }

  // ---------------------------------------------------------------------------------------
  // Escapes and numbers
  // ---------------------------------------------------------------------------------------

  lemma StandsParts(p: string, a: string, b: string, i: nat)
    requires Stands(p, a + b, i)
    ensures Stands(p, a, i) && Stands(p, b, i + |a|)
  {
    assert p[i..i + |a|] == (a + b)[..|a|];
    assert p[i + |a|..i + |a| + |b|] == (a + b)[|a|..];
  }

  lemma StandsAt(p: string, raw: string, i: nat, k: nat)
    requires Stands(p, raw, i) && k < |raw|
    ensures i + k < |p| && p[i + k] == raw[k]
  {
    assert raw[k] == p[i..i + |raw|][k];
  }

  /** The escape is read to its end, as a character. */
  lemma EscapeRead(p: string, raw: string, i: nat)
    requires Stands(p, raw, i) && EscapeReadable(raw)
    ensures i < |p| && p[i] == '\\' && i + 1 < |p|
    ensures var e := Escape(p, i);
      e.kind.EscChar? && e.kind.code >= 0 && e.idx == i + |raw| && Narrowed(e.kind.code) == CharOf(raw)
  {
    hide Number;
    StandsAt(p, raw, i, 0);
    StandsAt(p, raw, i, 1);
    if |raw| == 4 {
      StandsAt(p, raw, i, 2);
      StandsAt(p, raw, i, 3);
      if raw[1] == 'x' {
        TwoHex(p, i + 2);
      }
    }
    EscapeDenotes(p, i);
  }

  lemma TwoHex(p: string, i: nat)
    requires i + 1 < |p| && IsHex(p[i]) && IsHex(p[i + 1])
    ensures var r := HexEscape(p, i, 2, 0); r.kind.EscChar? && r.kind.code >= 0 && r.idx == i + 2
  {
    assert HexEscape(p, i, 2, 0) == HexEscape(p, i + 1, 1, HexValue(p[i]));
    assert HexEscape(p, i + 1, 1, HexValue(p[i])) == HexEscape(p, i + 2, 0, 16 * HexValue(p[i]) + HexValue(p[i + 1]));
  }

  lemma {:induction false} DigitsRead(p: string, from: nat, i: nat, to: nat, value: nat)
    requires from <= i <= to < |p| && AllDigits(p[from..to]) && !IsDigit(p[to]) && value == Number(p[from..i], 10)
    ensures Digits(p, i, value).1 == to && Digits(p, i, value).0 == Number(p[from..to], 10)
    decreases |p| - i
  {
    hide Number;
    if i < to {
      assert p[i] == p[from..to][i - from];
      NumberSnoc(p, from, i, 10);
      DigitsRead(p, from, i + 1, to, 10 * value + (p[i] as int - '0' as int));
    }
  }

  lemma NumberRead(p: string, from: nat, to: nat, default: nat)
    requires from <= to < |p| && AllDigits(p[from..to]) && !IsDigit(p[to])
    ensures var (v, j) := ReadNumber(p, from, default);
      j == to && v == if from == to then default else Number(p[from..to], 10)
  {
    hide Number;
    NumberNone(10);
    assert p[from..from] == "";
    if from < to {
      assert p[from] == p[from..to][0];
      DigitsRead(p, from, from, to, 0);
    }
  }

  lemma {:induction false} CommaFound(s: string)
    ensures Comma(s) < |s| ==> s[Comma(s)] == ','
  {
    if s != "" && s[0] != ',' {
      CommaFound(s[1..]);
    }
  }

  lemma BracesRead(p: string, c: Closure, i: nat)
    requires c.Braces? && BracesReadable(c) && Stands(p, c.raw, i)
    ensures i < |p| && p[i] == '{' && Bracket(p, i) == Bracketed(c.min, c.opt, i + |c.raw|)
    ensures c.min > 0 || c.opt != 0
  {
    hide Number, Comma, Digits, ReadNumber;
    var raw, end := c.raw, i + |c.raw|;
    InnerOf(p, i, end);
    var inner := p[i + 1..end - 1];
    StandsAt(p, raw, i, 0);
    StandsAt(p, raw, i, |raw| - 1);
    var k := Comma(inner);
    CommaFound(inner);
    var j := i + 1 + k;
    assert inner[..k] == p[i + 1..j];
    assert k < |inner| ==> p[j] == inner[k];
    NumberRead(p, i + 1, j, 1);
    if k + 1 < |inner| {
      assert inner[k + 1..] == p[j + 1..end - 1];
      assert p[j + 1] == inner[k + 1..][0];
      NumberRead(p, j + 1, end - 1, c.min);
    }
  }

  // ---------------------------------------------------------------------------------------
  // Atoms
  // ---------------------------------------------------------------------------------------

  /** A literal at `j` is taken into the atom, unless a closure operator follows that needs it. */
  lemma TakeLit(p: string, j: nat, l: Lit, acc: seq<Lit>)
    requires Stands(p, l.raw, j) && LitReadable(l) && j < |p| && (acc != [] ==> !BeforeClosure(p, j))
    ensures ScanAtom(p, j, acc) == ScanAtom(p, j + |l.raw|, acc + [l])
  {
    hide Escape, CharOf;
    StandsAt(p, l.raw, j, 0);
    if |l.raw| == 1 {
      PlainChar(p[j]);
      assert [p[j]] == l.raw;
    } else {
      EscapeRead(p, l.raw, j);
    }
  }

  /** The literal at `j` is not left to a closure operator. */
  lemma NoClosureBehind(p: string, j: nat, l: Lit)
    requires Stands(p, l.raw, j) && LitReadable(l) && j < |p| && NoQuirk(p)
    requires j + |l.raw| < |p| ==> !IsClosureChar(p[j + |l.raw|])
    ensures !BeforeClosure(p, j)
  {
    hide Escape, CharOf;
    StandsAt(p, l.raw, j, 0);
    if |l.raw| > 1 {
      StandsAt(p, l.raw, j, 1);
      EscapeRead(p, l.raw, j);
    }
  }

  /** The atom ends at `j`. */
  predicate AtomEnds(p: string, j: nat) {
    j == |p|
    || (j < |p| && !BadLookAhead(p, j)
        && (|| EndsAtom(p[j]) || IsClosureChar(p[j])
            || (p[j] == '\\' && !Escape(p, j).kind.EscChar?)
            || BeforeClosure(p, j)))
  }

  lemma AtomStops(p: string, j: nat, acc: seq<Lit>)
    requires AtomEnds(p, j) && acc != []
    ensures ScanAtom(p, j, acc) == Scanned(acc, j)
  {
    hide Escape;
  }

  lemma LitRawSplit(lits: seq<Lit>, n: nat)
    requires n < |lits|
    ensures LitRaw(lits[..n + 1]) == LitRaw(lits[..n]) + lits[n].raw
  {
    assert lits[..n + 1] == lits[..n] + [lits[n]];
    LitsGrow(lits[..n], lits[n]);
  }

  lemma {:induction false} LitStands(p: string, lits: seq<Lit>, i: nat, n: nat)
    requires Stands(p, LitRaw(lits), i) && n < |lits|
    ensures Stands(p, lits[n].raw, i + |LitRaw(lits[..n])|)
    decreases |lits|
  {
    var m := |lits| - 1;
    LitRawSplit(lits, m);
    assert lits[..m + 1] == lits;
    StandsParts(p, LitRaw(lits[..m]), lits[m].raw, i);
    if n < m {
      LitStands(p, lits[..m], i, n);
      assert lits[..m][..n] == lits[..n];
    }
  }

  predicate LitsReadable(lits: seq<Lit>) {
    lits != [] && forall i :: 0 <= i < |lits| ==> LitReadable(lits[i])
  }

  /** The first `n` literals are collected. */
  lemma {:induction false} LitsTaken(p: string, lits: seq<Lit>, i: nat, n: nat)
    requires Stands(p, LitRaw(lits), i) && LitsReadable(lits) && NoQuirk(p) && n <= |lits|
    requires |lits| > 1 && i + |LitRaw(lits)| < |p| ==> !IsClosureChar(p[i + |LitRaw(lits)|])
    ensures i + |LitRaw(lits[..n])| <= |p|
    ensures ScanAtom(p, i, []) == ScanAtom(p, i + |LitRaw(lits[..n])|, lits[..n])
  {
    hide ScanAtom, BeforeClosure, LitReadable, EscapeReadable, NoQuirk;
    if n == 0 {
      assert lits[..0] == [];
    } else {
      var m := n - 1;
      LitsTaken(p, lits, i, m);
      LitRawSplit(lits, m);
      LitStands(p, lits, i, m);
      var j := i + |LitRaw(lits[..m])|;
      LitNotEmpty(lits[m]);
      if m > 0 {
        if n < |lits| {
          LitStands(p, lits, i, n);
          LitNotEmpty(lits[n]);
          StandsAt(p, lits[n].raw, i + |LitRaw(lits[..n])|, 0);
        } else {
          assert lits[..n] == lits;
        }
        NoClosureBehind(p, j, lits[m]);
      }
      TakeLit(p, j, lits[m], lits[..m]);
      assert lits[..m] + [lits[m]] == lits[..n];
    }
  }

  lemma LitNotEmpty(l: Lit)
    requires LitReadable(l)
    ensures l.raw != "" && !IsClosureChar(l.raw[0]) && !EndsAtom(l.raw[0]) && l.raw[0] != '\0'
  {
  }

  lemma AtomRead(p: string, lits: seq<Lit>, i: nat)
    requires Stands(p, LitRaw(lits), i) && LitsReadable(lits) && NoQuirk(p)
    requires var end := i + |LitRaw(lits)|;
      AtomEnds(p, end) && (|lits| > 1 && end < |p| ==> !IsClosureChar(p[end]))
    ensures ScanAtom(p, i, []) == Scanned(lits, i + |LitRaw(lits)|)
  {
    hide ScanAtom, AtomEnds, LitReadable, NoQuirk, LitRaw;
    assert lits[..|lits|] == lits;
    LitsTaken(p, lits, i, |lits|);
    AtomStops(p, i + |LitRaw(lits)|, lits);
  }

  /** How an atom begins. */
  lemma AtomBegins(p: string, lits: seq<Lit>, i: nat)
    requires Stands(p, LitRaw(lits), i) && LitsReadable(lits)
    ensures i < |p| && !IsClosureChar(p[i]) && !EndsAtom(p[i]) && p[i] != '\0'
    ensures p[i] == '\\' ==> Escape(p, i).kind.EscChar?
  {
    hide LitReadable, Escape, EscapeReadable, LitRaw;
    assert lits[..0] == [];
    NoLits();
    LitStands(p, lits, i, 0);
    LitNotEmpty(lits[0]);
    StandsAt(p, lits[0].raw, i, 0);
    if p[i] == '\\' {
      FirstEscape(lits[0]);
      EscapeRead(p, lits[0].raw, i);
    }
  }

  lemma NoLits()
    ensures LitRaw([]) == ""
  {
  }

  lemma LiteralRead(e: Env, lits: seq<Lit>, i: nat, parens: nat, closed: set<nat>)
    requires Stands(e.pattern, LitRaw(lits), i) && LitsReadable(lits) && NoQuirk(e.pattern)
    requires var end := i + |LitRaw(lits)|;
      AtomEnds(e.pattern, end) && (|lits| > 1 && end < |e.pattern| ==> !IsClosureChar(e.pattern[end]))
    ensures i < |e.pattern|
    ensures ParseTerm(e, i, parens, closed) == Ok(Literal(lits), i + |LitRaw(lits)|, parens, closed, false)
  {
    hide ScanAtom, AtomEnds, LitsReadable, Escape, NoQuirk, Stands, LitRaw;
    AtomRead(e.pattern, lits, i);
    AtomBegins(e.pattern, lits, i);
  }

  lemma FirstEscape(l: Lit)
    requires LitReadable(l) && l.raw[0] == '\\'
    ensures EscapeReadable(l.raw)
  {
  }

  // ---------------------------------------------------------------------------------------
  // Simple terminals
  // ---------------------------------------------------------------------------------------

  lemma SimpleRead(e: Env, raw: string, op: Op, i: nat, parens: nat, closed: set<nat>)
    requires Stands(e.pattern, raw, i) && SimpleReadable(e, raw, op, closed)
    requires op.BackRef? ==> !IsOctal(At(e.pattern, i + 2))
    ensures i < |e.pattern|
    ensures var r := ParseTerm(e, i, parens, closed);
      r.Ok? && r.value == Simple(raw, op) && r.idx == i + |raw| && r.parens == parens && r.closed == closed
  {
    hide ParseAtom, ParseParen, HexEscape, OctalEscape;
    StandsAt(e.pattern, raw, i, 0);
    if raw[0] == '[' {
      assert ClassAt(e, raw, op, i);
    } else if |raw| == 2 {
      StandsAt(e.pattern, raw, i, 1);
      SimpleEscape(e.pattern, i);
    } else {
      assert raw == [raw[0]];
    }
  }

  /** Escapes that stand for no character. */
  lemma SimpleEscape(p: string, i: nat)
    requires i + 1 < |p| && p[i] == '\\'
    ensures p[i + 1] == 'b' || p[i + 1] == 'B' ==> Escape(p, i) == Esc(EscComplex, i + 2)
    ensures p[i + 1] in "wWsSdD" ==> Escape(p, i) == Esc(EscClass, i + 2)
    ensures IsDigit(p[i + 1]) && p[i + 1] != '0' && !IsOctal(At(p, i + 2)) ==> Escape(p, i) == Esc(EscBackRef, i + 2)
  {
  }

  // ---------------------------------------------------------------------------------------
  // Pieces
  // ---------------------------------------------------------------------------------------

  /** Nothing that belongs to the piece follows at `j`. */
  predicate PieceEnds(p: string, j: nat, a: Piece) {
    && (j < |p| ==> !IsClosureChar(p[j]))
    && (IsWord(a) ==> AtomEnds(p, j))
    && (IsReference(a) ==> !IsOctal(At(p, j)))
  }

  ghost predicate Reads<T>(r: Parsed<T>, v: T, idx: nat, parens: nat, closed: set<nat>) {
    r.Ok? && r.value == v && r.idx == idx && r.parens == parens && r.closed == closed
  }

  lemma NumbersConcat(a: seq<nat>, b: seq<nat>)
    ensures Numbers(a + b) == Numbers(a) + Numbers(b)
  {
  }

  /** A terminal is read as it is spelled, if what follows does not belong to it. */
  lemma {:induction false} TermRead(e: Env, a: Piece, i: nat, parens: nat, closed: set<nat>)
    requires PieceReadable(e, a, parens, closed) && Stands(e.pattern, TermRaw(a.term), i) && NoQuirk(e.pattern)
    requires var j := i + |TermRaw(a.term)|;
      if a.closure.Once? then PieceEnds(e.pattern, j, a) else j < |e.pattern| && IsClosureChar(e.pattern[j])
    ensures i < |e.pattern|
    ensures Reads(ParseTerm(e, i, parens, closed), a.term, i + |TermRaw(a.term)|,
                  parens + |TermNumbers(a.term)|, closed + Numbers(TermNumbers(a.term)))
    decreases a.term, 0
  {
    hide ParseTerm, AtomEnds, NoQuirk, LitsReadable, SimpleReadable, AltsReadable, BracesReadable, AltsRe, AltsRaw;
    match a.term
    case Simple(raw, op) => SimpleEnds(e, a, i, parens, closed);
    case Literal(lits) =>
      if !a.closure.Once? {
        ClosureEndsAtom(e.pattern, i + |LitRaw(lits)|);
      }
      LiteralRead(e, lits, i, parens, closed);
    case Paren(number, alts) => ParenRead(e, number, alts, i, parens, closed);
  }

  lemma ClosureEndsAtom(p: string, j: nat)
    requires j < |p| && IsClosureChar(p[j])
    ensures AtomEnds(p, j)
  {
  }

  lemma SimpleEnds(e: Env, a: Piece, i: nat, parens: nat, closed: set<nat>)
    requires a.term.Simple? && PieceReadable(e, a, parens, closed) && Stands(e.pattern, a.term.raw, i)
    requires a.closure.Once? ==> PieceEnds(e.pattern, i + |a.term.raw|, a)
    ensures i < |e.pattern|
    ensures Reads(ParseTerm(e, i, parens, closed), a.term, i + |a.term.raw|, parens, closed)
  {
    hide ParseTerm;
    SimpleRead(e, a.term.raw, a.term.op, i, parens, closed);
  }

  lemma {:induction false} ParenRead(e: Env, number: nat, alts: AltList, i: nat, parens: nat, closed: set<nat>)
    requires number == parens && AltsReadable(e, alts, parens + 1, closed) && NoQuirk(e.pattern)
    requires Stands(e.pattern, "(" + AltsRaw(alts) + ")", i)
    ensures i < |e.pattern|
    ensures var nums := [number] + AltsNumbers(alts);
      Reads(ParseTerm(e, i, parens, closed), Paren(number, alts), i + |AltsRaw(alts)| + 2,
            parens + |nums|, closed + Numbers(nums))
    decreases alts, 1
  {
    hide ParseAlts, AltsReadable, AltsRaw, AltsNumbers, NoQuirk;
    var p, raw := e.pattern, AltsRaw(alts);
    StandsParts(p, "(" + raw, ")", i);
    StandsParts(p, "(", raw, i);
    StandsAt(p, "(", i, 0);
    StandsAt(p, ")", i + 1 + |raw|, 0);
    AltsReadBack(e, alts, i + 1, parens + 1, closed);
    NumbersConcat([number], AltsNumbers(alts));
    assert Numbers([number]) == {number};
  }

  lemma PieceRead(e: Env, a: Piece, i: nat, parens: nat, closed: set<nat>)
    requires PieceReadable(e, a, parens, closed) && Stands(e.pattern, PieceRaw(a), i) && NoQuirk(e.pattern)
    requires PieceEnds(e.pattern, i + |PieceRaw(a)|, a)
    ensures i < |e.pattern|
    ensures Reads(ParsePiece(e, i, parens, closed), a, i + |PieceRaw(a)|,
                  parens + |TermNumbers(a.term)|, closed + Numbers(TermNumbers(a.term)))
    decreases a.term, 1
  {
    hide ParseTerm, NoQuirk, TermReadable, TermRaw, TermRe, TermNumbers, AtomEnds, BracesReadable, Bracket;
    var p, j := e.pattern, i + |TermRaw(a.term)|;
    StandsParts(p, TermRaw(a.term), ClosureRaw(a.closure), i);
    if a.closure.Braces? {
      BracesRead(p, a.closure, j);
    } else if !a.closure.Once? {
      StandsAt(p, ClosureRaw(a.closure), j, 0);
    }
    TermRead(e, a, i, parens, closed);
    TermSound(e, i, parens, closed);
    if a.closure.Braces? {
      assert p[j..j + |a.closure.raw|] == a.closure.raw;
    }
  }

  /** A readable piece does not begin like the end of something. */
  lemma PieceBegins(e: Env, a: Piece, parens: nat, closed: set<nat>)
    requires PieceReadable(e, a, parens, closed)
    ensures TermRaw(a.term) != ""
    ensures var c := TermRaw(a.term)[0]; !IsClosureChar(c) && c != '|' && c != ')'
    ensures !a.term.Literal? ==>
      var c := TermRaw(a.term)[0]; EndsAtom(c) || (c == '\\' && a.term.Simple? && |a.term.raw| == 2)
  {
    if a.term.Literal? {
      var lits := a.term.lits;
      LitNotEmpty(lits[0]);
      LitStands(LitRaw(lits), lits, 0, 0);
      assert lits[..0] == [];
      StandsAt(LitRaw(lits), lits[0].raw, 0, 0);
    }
  }

  /** What follows a piece does not belong to it if the two are apart. */
  lemma NextEnds(e: Env, a: Piece, b: Piece, j: nat, parens: nat, closed: set<nat>)
    requires PieceReadable(e, b, parens, closed) && Apart(a, b) && Stands(e.pattern, PieceRaw(b), j)
    requires PieceEnds(e.pattern, j + |PieceRaw(b)|, b)
    ensures PieceEnds(e.pattern, j, a)
  {
    hide PieceReadable, AtomEnds, TermRaw;
    var p := e.pattern;
    PieceBegins(e, b, parens, closed);
    StandsAt(p, PieceRaw(b), j, 0);
    assert PieceRaw(b)[0] == TermRaw(b.term)[0];
    if IsWord(a) {
      if b.term.Literal? {
        LiteralEndsAtom(e, b, j, parens, closed);
      } else {
        OtherEndsAtom(e, b, j, parens, closed);
      }
    }
  }

  lemma LiteralEndsAtom(e: Env, b: Piece, j: nat, parens: nat, closed: set<nat>)
    requires PieceReadable(e, b, parens, closed) && b.term.Literal? && !b.closure.Once?
    requires Stands(e.pattern, PieceRaw(b), j)
    ensures AtomEnds(e.pattern, j)
  {
    hide Escape, LitReadable, BracesReadable, LitRaw, Nullable;
    var lits := b.term.lits;
    OneLit(lits);
    ClosureBegins(b.closure);
    StandsParts(e.pattern, lits[0].raw, ClosureRaw(b.closure), j);
    StandsAt(e.pattern, ClosureRaw(b.closure), j + |lits[0].raw|, 0);
    LitBeforeClosure(e.pattern, lits[0], j);
  }

  lemma OneLit(lits: seq<Lit>)
    requires |lits| == 1
    ensures LitRaw(lits) == lits[0].raw
  {
    assert lits[..0] == [] && LitRaw([]) == "";
  }

  lemma ClosureBegins(c: Closure)
    requires !c.Once? && (c.Braces? ==> BracesReadable(c))
    ensures ClosureRaw(c) != "" && IsClosureChar(ClosureRaw(c)[0])
  {
  }

  lemma LitBeforeClosure(p: string, l: Lit, j: nat)
    requires Stands(p, l.raw, j) && LitReadable(l) && j + |l.raw| < |p| && IsClosureChar(p[j + |l.raw|])
    ensures AtomEnds(p, j)
  {
    hide Escape, EscapeReadable, CharOf;
    StandsAt(p, l.raw, j, 0);
    if |l.raw| > 1 {
      FirstEscapeOf(l);
      EscapeRead(p, l.raw, j);
    } else {
      PlainIsNoEscape(l);
    }
  }

  lemma FirstEscapeOf(l: Lit)
    requires LitReadable(l) && |l.raw| > 1
    ensures EscapeReadable(l.raw)
  {
  }

  lemma PlainIsNoEscape(l: Lit)
    requires LitReadable(l) && |l.raw| == 1
    ensures l.raw[0] != '\\'
  {
  }

  lemma OtherEndsAtom(e: Env, b: Piece, j: nat, parens: nat, closed: set<nat>)
    requires PieceReadable(e, b, parens, closed) && !b.term.Literal?
    requires Stands(e.pattern, PieceRaw(b), j) && PieceEnds(e.pattern, j + |PieceRaw(b)|, b)
    ensures AtomEnds(e.pattern, j)
  {
    hide Escape;
    var p := e.pattern;
    PieceBegins(e, b, parens, closed);
    StandsParts(p, TermRaw(b.term), ClosureRaw(b.closure), j);
    StandsAt(p, TermRaw(b.term), j, 0);
    if p[j] == '\\' {
      StandsAt(p, TermRaw(b.term), j, 1);
      SimpleEscape(p, j);
    }
  }

  // ---------------------------------------------------------------------------------------
  // Branches and alternatives
  // ---------------------------------------------------------------------------------------

  /** The parser gets through the pieces of `l` and goes on behind them. */
  lemma {:induction false} PiecesReadBack(e: Env, l: PieceList, i: nat, parens: nat, closed: set<nat>)
    requires PiecesReadable(e, l, parens, closed) && Stands(e.pattern, PiecesRaw(l), i) && NoQuirk(e.pattern)
    requires l.Snoc? ==> PieceEnds(e.pattern, i + |PiecesRaw(l)|, l.last)
    ensures var nums := PiecesNumbers(l);
      ParsePieces(e, i, parens, closed, Nil, true) ==
        ParsePieces(e, i + |PiecesRaw(l)|, parens + |nums|, closed + Numbers(nums), l, Nullable(PiecesRe(l)))
    decreases l, 0
  {
    hide ParsePieces, PieceReadable, PieceEnds, NoQuirk, PieceRaw, TermNumbers, Apart, Stands, PiecesRe;
    if l.Snoc? {
      var init, a := l.init, l.last;
      var nums, j := PiecesNumbers(init), i + |PiecesRaw(init)|;
      var n, cl := parens + |nums|, closed + Numbers(nums);
      StandsParts(e.pattern, PiecesRaw(init), PieceRaw(a), i);
      if init.Snoc? {
        NextEnds(e, init.last, a, j, n, cl);
      }
      PiecesReadBack(e, init, i, parens, closed);
      PieceRead(e, a, j, n, cl);
      PiecesGoOn(e, init, a, j, n, cl);
      NumbersConcat(nums, TermNumbers(a.term));
      assert cl + Numbers(TermNumbers(a.term)) == closed + Numbers(nums + TermNumbers(a.term));
    } else {
      assert closed + Numbers([]) == closed;
      NilNullable();
    }
  }

  lemma NilNullable()
    ensures Nullable(PiecesRe(Nil))
  {
  }

  /** One more piece. */
  lemma PiecesGoOn(e: Env, init: PieceList, a: Piece, j: nat, parens: nat, closed: set<nat>)
    requires PieceReadable(e, a, parens, closed) && Stands(e.pattern, PieceRaw(a), j) && j < |e.pattern|
    requires ParsePiece(e, j, parens, closed).Ok? && ParsePiece(e, j, parens, closed).value == a
    ensures var r := ParsePiece(e, j, parens, closed);
      ParsePieces(e, j, parens, closed, init, Nullable(PiecesRe(init))) ==
        ParsePieces(e, r.idx, r.parens, r.closed, Snoc(init, a), Nullable(PiecesRe(Snoc(init, a))))
  {
    hide ParsePiece, PieceReadable, PieceRe, PieceRaw, Stands;
    PieceSound(e, j, parens, closed);
    BranchGoesOn(e, a, j, parens, closed);
  }

  lemma BranchGoesOn(e: Env, a: Piece, j: nat, parens: nat, closed: set<nat>)
    requires PieceReadable(e, a, parens, closed) && Stands(e.pattern, PieceRaw(a), j)
    ensures !EndsBranch(e, j)
  {
    hide PieceReadable, TermRaw;
    PieceBegins(e, a, parens, closed);
    StandsAt(e.pattern, PieceRaw(a), j, 0);
    assert PieceRaw(a)[0] == TermRaw(a.term)[0];
  }

  /** A branch ends at a bar, a closing parenthesis or the end of the pattern. */
  lemma BranchRead(e: Env, b: PieceList, i: nat, parens: nat, closed: set<nat>)
    requires PiecesReadable(e, b, parens, closed) && Stands(e.pattern, PiecesRaw(b), i) && NoQuirk(e.pattern)
    requires EndsBranch(e, i + |PiecesRaw(b)|)
    ensures var nums := PiecesNumbers(b);
      ParseBranch(e, i, parens, closed) ==
        Ok(b, i + |PiecesRaw(b)|, parens + |nums|, closed + Numbers(nums), Nullable(PiecesRe(b)))
    decreases b, 1
  {
    hide PiecesReadable, NoQuirk, PiecesRe, PiecesRaw, PiecesNumbers;
    if b.Snoc? {
      EndEnds(e, i + |PiecesRaw(b)|, b.last);
    }
    PiecesReadBack(e, b, i, parens, closed);
  }

  lemma EndEnds(e: Env, j: nat, a: Piece)
    requires j <= |e.pattern| && EndsBranch(e, j)
    ensures PieceEnds(e.pattern, j, a)
  {
  }

  lemma {:induction false} AltsReadBack(e: Env, l: AltList, i: nat, parens: nat, closed: set<nat>)
    requires AltsReadable(e, l, parens, closed) && Stands(e.pattern, AltsRaw(l), i) && NoQuirk(e.pattern)
    requires EndsBranch(e, i + |AltsRaw(l)|)
    ensures var nums := AltsNumbers(l);
      ParseAlts(e, i, parens, closed) ==
        ParseBars(e, i + |AltsRaw(l)|, parens + |nums|, closed + Numbers(nums), l, NullableAlts(AltsRe(l)))
    decreases l, 0
  {
    hide PiecesReadable, ParseBranch, ParseBars, PiecesRaw, PiecesRe, PiecesNumbers, Nullable, NoQuirk, AddAlt, Stands;
    match l
    case One(b) => BranchRead(e, b, i, parens, closed);
    case Bar(init, b) =>
      var nums, j := AltsNumbers(init), i + |AltsRaw(init)|;
      var n, cl := parens + |nums|, closed + Numbers(nums);
      BarStands(e, AltsRaw(init), PiecesRaw(b), i);
      AltsReadBack(e, init, i, parens, closed);
      BranchRead(e, b, j + 1, n, cl);
      BarGoesOn(e, init, b, j, n, cl);
      NumbersConcat(nums, PiecesNumbers(b));
      assert cl + Numbers(PiecesNumbers(b)) == closed + Numbers(nums + PiecesNumbers(b));
  }

  lemma BarStands(e: Env, a: string, b: string, i: nat)
    requires Stands(e.pattern, a + "|" + b, i)
    ensures Stands(e.pattern, a, i) && Stands(e.pattern, b, i + |a| + 1)
    ensures i + |a| < |e.pattern| && e.pattern[i + |a|] == '|'
  {
    StandsParts(e.pattern, a + "|", b, i);
    StandsParts(e.pattern, a, "|", i);
    StandsAt(e.pattern, "|", i + |a|, 0);
  }

  /** One more alternative behind a bar. */
  lemma BarGoesOn(e: Env, init: AltList, b: PieceList, j: nat, parens: nat, closed: set<nat>)
    requires j < |e.pattern| && e.pattern[j] == '|' && ParseBranch(e, j + 1, parens, closed).Ok?
    requires var r := ParseBranch(e, j + 1, parens, closed); r.value == b && r.nullable == Nullable(PiecesRe(b))
    ensures var r := ParseBranch(e, j + 1, parens, closed);
      ParseBars(e, j, parens, closed, init, NullableAlts(AltsRe(init))) ==
        ParseBars(e, r.idx, r.parens, r.closed, Bar(init, b), NullableAlts(AltsRe(Bar(init, b))))
  {
    hide ParseBranch, Nullable, PiecesRe, AddAlt, NullableAlts;
    AddAltAccepted(AltsRe(init), PiecesRe(b));
  }

  /** Parsing the spelling of a readable tree gives the tree back. */
  lemma ParseReads(e: Env, l: AltList)
    requires e.pattern == AltsRaw(l) && AltsReadable(e, l, 1, {}) && NoQuirk(e.pattern)
    ensures Parse(e).Ok? && Parse(e).value == l
  {
    hide ParseAlts, AltsReadable, AltsRaw, AltsNumbers, AltsRe, NoQuirk;
    assert e.pattern[0..|e.pattern|] == e.pattern;
    AltsReadBack(e, l, 0, 1, {});
  }
}
