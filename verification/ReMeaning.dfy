/** What a pattern means, read off its spelling: which character an escape stands for, how often a
    closure operator lets its operand be repeated, and which stretches of text a concrete tree
    matches. The expression that the compiler makes of a pattern has exactly that meaning. */
module ReMeaning {
  import opened Text
  import opened ReCode
  import opened ReMatch
  import opened ReParse
  import opened ReParseProps
  import opened ReLang
  import opened ReWays

  // ---------------------------------------------------------------------------------------
  // Numbers
  // ---------------------------------------------------------------------------------------

  /** The number that digits denote. */
  function Number(s: string, base: nat): int {
    if s == "" then 0 else Number(s[..|s| - 1], base) * base + HexValue(s[|s| - 1])
  }

  lemma NumberSnoc(p: string, from: nat, i: nat, base: nat)
    requires from <= i < |p|
    ensures Number(p[from..i + 1], base) == Number(p[from..i], base) * base + HexValue(p[i])
  {
    assert p[from..i + 1][..i - from] == p[from..i];
  }

  predicate AllDigits(s: string) {
    forall i :: 0 <= i < |s| ==> IsDigit(s[i])
  }

  lemma {:induction false} DigitsDenote(p: string, from: nat, i: nat, value: nat)
    requires from <= i <= |p| && value == Number(p[from..i], 10) && AllDigits(p[from..i])
    ensures var (v, j) := Digits(p, i, value); v == Number(p[from..j], 10) && AllDigits(p[from..j])
    decreases |p| - i
  {
    hide Number;
    if IsDigit(At(p, i)) {
      NumberSnoc(p, from, i, 10);
      assert p[from..i + 1] == p[from..i] + [p[i]];
      DigitsDenote(p, from, i + 1, 10 * value + (p[i] as int - '0' as int));
    }
  }

  /** A number that is read is the one written; the default if none is. */
  lemma ReadNumberDenotes(p: string, i: nat, default: nat)
    requires i <= |p|
    ensures var (v, j) := ReadNumber(p, i, default);
      && AllDigits(p[i..j]) && (j == i <==> !IsDigit(At(p, i)))
      && v == if j == i then default else Number(p[i..j], 10)
  {
    assert p[i..i] == "";
    DigitsDenote(p, i, i, 0);
  }

  /** Where the first comma is, or the end. */
  function Comma(s: string): (c: nat)
    ensures c <= |s|
  {
    if s == "" || s[0] == ',' then 0 else 1 + Comma(s[1..])
  }

  lemma {:induction false} CommaIs(s: string, c: nat)
    requires c <= |s| && AllDigits(s[..c]) && (c < |s| ==> s[c] == ',')
    ensures Comma(s) == c
  {
    if c > 0 {
      assert s[0] == s[..c][0] && s[1..][..c - 1] == s[..c][1..];
      CommaIs(s[1..], c - 1);
    }
  }

  /** Does the closure operator spelled `raw` allow `n` repetitions? Without an operator the operand stands
      once; the first number in braces is 1 if it is left out. */
  predicate AllowedBy(raw: string, n: nat) {
    if raw == "" then n == 1
    else if raw == "?" then n <= 1
    else if raw == "*" then true
    else if raw == "+" then n >= 1
    else if |raw| < 2 then false
    else
      var inner := raw[1..|raw| - 1];
      var c := Comma(inner);
      var min := if c == 0 then 1 else Number(inner[..c], 10);
      if c >= |inner| then n == min
      else if c + 1 == |inner| then n >= min
      else min <= n <= Number(inner[c + 1..], 10)
  }

  lemma InnerOf(p: string, i: nat, k: nat)
    requires i + 2 <= k <= |p|
    ensures p[i..k][1..k - i - 1] == p[i + 1..k - 1]
  {
    var a, b := p[i..k][1..k - i - 1], p[i + 1..k - 1];
    assert |a| == |b|;
    forall m | 0 <= m < |a|
      ensures a[m] == b[m]
    {
      assert p[i..k][m + 1] == p[i + m + 1];
    }
  }

  /** The braces from `i` to `k`, whose first number ends at `j`. */
  lemma AllowedInBraces(p: string, i: nat, j: nat, k: nat, n: nat)
    requires i + 1 <= j < k <= |p| && p[i] == '{' && AllDigits(p[i + 1..j]) && (j < k - 1 ==> p[j] == ',')
    ensures var min := if j == i + 1 then 1 else Number(p[i + 1..j], 10);
      AllowedBy(p[i..k], n) <==>
        if j == k - 1 then n == min
        else if j == k - 2 then n >= min
        else min <= n <= Number(p[j + 1..k - 1], 10)
  {
    hide Number, Comma;
    var raw, inner, c := p[i..k], p[i + 1..k - 1], j - i - 1;
    InnerOf(p, i, k);
    assert inner[..c] == p[i + 1..j];
    CommaIs(inner, c);
    if j < k - 2 {
      assert inner[c + 1..] == p[j + 1..k - 1];
    }
  }

  /** The numbers between the braces are those read. */
  lemma BracketDenotes(p: string, i: nat, n: nat)
    requires i < |p| && p[i] == '{' && Bracket(p, i).Bracketed?
    ensures var r := Bracket(p, i);
      && i + 2 <= r.idx && p[r.idx - 1] == '}'
      && (AllowedBy(p[i..r.idx], n) <==> Allowed(n, r.min, r.opt))
  {
    hide Number, AllowedBy, Digits;
    var r := Bracket(p, i);
    var (min, j) := ReadNumber(p, i + 1, 1);
    ReadNumberDenotes(p, i + 1, 1);
    if At(p, j) != '}' && At(p, j + 1) != '}' {
      ReadNumberDenotes(p, j + 1, min);
    }
    AllowedInBraces(p, i, j, r.idx, n);
  }

  // ---------------------------------------------------------------------------------------
  // Characters
  // ---------------------------------------------------------------------------------------

  /** The character with a code; characters have 8 bits. */
  function Chr(code: int): char {
    (code % 0x100) as char
  }

  /** The character that a spelling stands for: itself, or an escape with `x` and a hexadecimal number,
      with an octal number, with one of the letters of the C language, or with the character itself. */
  function CharOf(raw: string): char
    requires raw != ""
  {
    if |raw| == 1 then raw[0]
    else if raw[1] == 'x' then Chr(Number(raw[2..], 16))
    else if IsOctal(raw[1]) then Chr(Number(raw[1..], 8))
    else if raw[1] == 't' then Chr(9)
    else if raw[1] == 'n' then Chr(10)
    else if raw[1] == 'r' then Chr(13)
    else if raw[1] == 'f' then Chr(12)
    else Chr(raw[1] as int)
  }

  lemma {:induction false} HexDenotes(p: string, from: nat, i: nat, n: nat, value: int)
    requires from <= i <= |p| && value == Number(p[from..i], 16)
    ensures var r := HexEscape(p, i, n, value);
      r.kind.EscChar? ==> r.kind.code == Number(p[from..r.idx], 16)
    decreases n
  {
    hide Number;
    if i < |p| && n > 0 && HexValue(p[i]) >= 0 {
      NumberSnoc(p, from, i, 16);
      HexDenotes(p, from, i + 1, n - 1, 16 * value + HexValue(p[i]));
    }
  }

  lemma OctalDenotes(p: string, i: nat)
    requires i + 1 < |p| && IsOctal(p[i + 1])
    ensures var r := OctalEscape(p, i + 2, OctalValue(p[i + 1]));
      r.kind.EscChar? && r.kind.code == Number(p[i + 1..r.idx], 8)
  {
    hide Number;
    NumberNone(8);
    assert p[i + 1..i + 1] == "";
    NumberSnoc(p, i + 1, i + 1, 8);
    if IsOctal(At(p, i + 2)) {
      NumberSnoc(p, i + 1, i + 2, 8);
      if IsOctal(At(p, i + 3)) {
        NumberSnoc(p, i + 1, i + 3, 8);
      }
    }
  }

  lemma NumberNone(base: nat)
    ensures Number("", base) == 0
  {
  }

  /** An escape that reads as a character stands for the one it spells. */
  lemma EscapeDenotes(p: string, i: nat)
    requires i < |p| && p[i] == '\\' && Escape(p, i).kind.EscChar?
    ensures var e := Escape(p, i);
      i + 2 <= e.idx && CharOf(p[i..e.idx]) == Narrowed(e.kind.code)
  {
    hide Number, HexEscape, OctalEscape;
    var e := Escape(p, i);
    var raw := p[i..e.idx];
    assert raw[1] == p[i + 1] && raw[2..] == p[i + 2..e.idx] && raw[1..] == p[i + 1..e.idx];
    if p[i + 1] == 'x' {
      NumberNone(16);
      assert p[i + 2..i + 2] == "";
      HexDenotes(p, i + 2, i + 2, 2, 0);
    } else if IsOctal(p[i + 1]) {
      OctalDenotes(p, i);
    }
  }

  // ---------------------------------------------------------------------------------------
  // Trees whose parts stand for what they spell
  // ---------------------------------------------------------------------------------------

  /** A literal is an escape or a character without a meaning of its own. */
  predicate LitSpelled(l: Lit) {
    && l.raw != "" && l.c == CharOf(l.raw)
    && (if |l.raw| == 1 then !EndsAtom(l.raw[0]) && !IsClosureChar(l.raw[0]) && l.raw[0] != '\\' else l.raw[0] == '\\')
  }

  predicate LitsSpelled(lits: seq<Lit>) {
    forall i :: 0 <= i < |lits| ==> LitSpelled(lits[i])
  }

  /** The class spelled `raw` stands at `i`. */
  predicate ClassAt(e: Env, raw: string, op: Op, i: nat) {
    i + |raw| <= |e.pattern| && e.pattern[i..i + |raw|] == raw
    && op.AnyOf? && e.classAt(e.pattern, i) == Some((op.members, i + |raw|))
  }

  ghost predicate SimpleSpelled(e: Env, raw: string, op: Op) {
    || (raw == "." && op == Any)
    || (raw == "^" && op == Bol)
    || (raw == "$" && op == Eol)
    || (raw == "\\b" && op == Bow(true))
    || (raw == "\\B" && op == Bow(false))
    || (|raw| == 2 && raw[0] == '\\' && raw[1] in "wWsSdD" && op == AnyOf(e.classOf(raw[1])))
    || (|raw| == 2 && raw[0] == '\\' && IsDigit(raw[1]) && op == BackRef(HexValue(raw[1])))
    || (raw != "" && raw[0] == '[' && exists i :: ClassAt(e, raw, op, i))
  }

  ghost predicate ClosureSpelled(c: Closure) {
    c.Braces? ==>
      && |c.raw| >= 2 && c.raw[0] == '{' && c.raw[|c.raw| - 1] == '}' && (c.min > 0 || c.opt != 0)
      && forall n: nat :: AllowedBy(c.raw, n) <==> Allowed(n, c.min, c.opt)
  }

  ghost predicate TermSpelled(e: Env, t: Term) {
    match t
    case Simple(raw, op) => SimpleSpelled(e, raw, op)
    case Literal(lits) => LitsSpelled(lits)
    case Paren(_, alts) => AltsSpelled(e, alts)
  }

  ghost predicate PieceSpelled(e: Env, p: Piece) {
    TermSpelled(e, p.term) && ClosureSpelled(p.closure)
  }

  ghost predicate PiecesSpelled(e: Env, l: PieceList) {
    l.Snoc? ==> PiecesSpelled(e, l.init) && PieceSpelled(e, l.last)
  }

  ghost predicate AltsSpelled(e: Env, l: AltList) {
    match l
    case One(b) => PiecesSpelled(e, b)
    case Bar(init, b) => AltsSpelled(e, init) && PiecesSpelled(e, b)
  }

  // ---------------------------------------------------------------------------------------
  // The parser reads what is spelled
  // ---------------------------------------------------------------------------------------

  lemma {:induction false} AtomReads(p: string, i: nat, acc: seq<Lit>)
    requires i <= |p| && LitsSpelled(acc)
    ensures ScanAtom(p, i, acc).Scanned? ==> LitsSpelled(ScanAtom(p, i, acc).lits)
    decreases |p| - i
  {
    hide Escape, CharOf;
    if ScanAtom(p, i, acc).Scanned? && ScanAtom(p, i, acc).lits != acc {
      if p[i] == '\\' {
        var e := Escape(p, i);
        EscapeDenotes(p, i);
        AtomReads(p, e.idx, acc + [Lit(p[i..e.idx], Narrowed(e.kind.code))]);
      } else {
        PlainChar(p[i]);
        AtomReads(p, i + 1, acc + [Lit([p[i]], p[i])]);
      }
    }
  }

  lemma PlainChar(c: char)
    ensures CharOf([c]) == c
  {
  }

  lemma ParseAtomReads(e: Env, i: nat, parens: nat, closed: set<nat>)
    requires i < |e.pattern|
    ensures var r := ParseAtom(e, i, parens, closed); r.Ok? ==> TermSpelled(e, r.value)
  {
    AtomReads(e.pattern, i, []);
  }

  lemma ParseEscapeReads(e: Env, i: nat, parens: nat, closed: set<nat>)
    requires i < |e.pattern| && e.pattern[i] == '\\'
    ensures var r := ParseEscape(e, i, parens, closed); r.Ok? ==> TermSpelled(e, r.value)
  {
    hide ParseAtom, HexEscape, OctalEscape;
    ParseAtomReads(e, i, parens, closed);
    var esc := Escape(e.pattern, i);
    if !esc.kind.EscChar? && !esc.kind.EscError? {
      EscapeKinds(e.pattern, i);
      assert e.pattern[i..esc.idx] == ['\\', e.pattern[i + 1]];
    }
  }

  /** The other escapes are two characters long. */
  lemma EscapeKinds(p: string, i: nat)
    requires i < |p| && !Escape(p, i).kind.EscChar? && !Escape(p, i).kind.EscError?
    ensures var e := Escape(p, i);
      && e.idx == i + 2 <= |p|
      && (e.kind.EscComplex? ==> p[i + 1] == 'b' || p[i + 1] == 'B')
      && (e.kind.EscClass? ==> p[i + 1] in "wWsSdD")
      && (e.kind.EscBackRef? ==> IsDigit(p[i + 1]))
  {
    if p[i + 1] == 'x' {
      HexKind(p, i + 2, 2, 0);
    }
  }

  lemma {:induction false} HexKind(p: string, i: nat, n: nat, value: int)
    requires i <= |p|
    ensures HexEscape(p, i, n, value).kind.EscChar? || HexEscape(p, i, n, value).kind.EscError?
    decreases n
  {
    if i < |p| && n > 0 && HexValue(p[i]) >= 0 {
      HexKind(p, i + 1, n - 1, 16 * value + HexValue(p[i]));
    }
  }

  lemma {:induction false} TermReads(e: Env, i: nat, parens: nat, closed: set<nat>)
    requires i < |e.pattern|
    ensures var r := ParseTerm(e, i, parens, closed); r.Ok? ==> TermSpelled(e, r.value)
    decreases |e.pattern| - i, 0
  {
    hide ParseAtom, ParseEscape, ParseAlts;
    var r := ParseTerm(e, i, parens, closed);
    var c := e.pattern[i];
    if c == '(' {
      AltsRead(e, i + 1, parens + 1, closed);
    } else if c == '[' {
      if r.Ok? {
        assert ClassAt(e, r.value.raw, r.value.op, i);
      }
    } else if c == '\\' {
      ParseEscapeReads(e, i, parens, closed);
    } else {
      ParseAtomReads(e, i, parens, closed);
    }
  }

  lemma ClosureReads(e: Env, t: Term, j: nat, n: nat, cl: set<nat>)
    requires j < |e.pattern| && TermSpelled(e, t)
    ensures var r := ParseClosure(e, t, j, n, cl); r.Ok? ==> PieceSpelled(e, r.value)
  {
    hide Bracket, AllowedBy;
    if e.pattern[j] == '{' && Bracket(e.pattern, j).Bracketed? {
      BracketDenotes(e.pattern, j, 0);
      forall m: nat
        ensures var b := Bracket(e.pattern, j); AllowedBy(e.pattern[j..b.idx], m) <==> Allowed(m, b.min, b.opt)
      {
        BracketDenotes(e.pattern, j, m);
      }
    }
  }

  lemma {:induction false} PieceReads(e: Env, i: nat, parens: nat, closed: set<nat>)
    requires i < |e.pattern|
    ensures var r := ParsePiece(e, i, parens, closed); r.Ok? ==> PieceSpelled(e, r.value)
    decreases |e.pattern| - i, 1
  {
    hide ParseTerm, ParseClosure, TermSpelled;
    TermReads(e, i, parens, closed);
    var t := ParseTerm(e, i, parens, closed);
    if t.Ok? && t.idx < |e.pattern| {
      ClosureReads(e, t.value, t.idx, t.parens, t.closed);
    }
  }

  lemma {:induction false} PiecesRead(e: Env, i: nat, parens: nat, closed: set<nat>, acc: PieceList, nullable: bool)
    requires i <= |e.pattern| && PiecesSpelled(e, acc)
    ensures var r := ParsePieces(e, i, parens, closed, acc, nullable); r.Ok? ==> PiecesSpelled(e, r.value)
    decreases |e.pattern| - i, 2
  {
    hide ParsePiece, PieceSpelled;
    if !EndsBranch(e, i) {
      PieceReads(e, i, parens, closed);
      var p := ParsePiece(e, i, parens, closed);
      if p.Ok? {
        PiecesRead(e, p.idx, p.parens, p.closed, Snoc(acc, p.value), nullable && p.nullable);
      }
    }
  }

  lemma {:induction false} BarsRead(e: Env, i: nat, parens: nat, closed: set<nat>, acc: AltList, nullable: bool)
    requires i <= |e.pattern| && AltsSpelled(e, acc)
    ensures var r := ParseBars(e, i, parens, closed, acc, nullable); r.Ok? ==> AltsSpelled(e, r.value)
    decreases |e.pattern| - i, 4
  {
    hide ParsePieces, PiecesSpelled;
    if At(e.pattern, i) == '|' {
      NoPieces(e);
      PiecesRead(e, i + 1, parens, closed, Nil, true);
      var b := ParseBranch(e, i + 1, parens, closed);
      if b.Ok? {
        BarsRead(e, b.idx, b.parens, b.closed, Bar(acc, b.value), nullable || b.nullable);
      }
    }
  }

  lemma NoPieces(e: Env)
    ensures PiecesSpelled(e, Nil)
  {
  }

  lemma {:induction false} AltsRead(e: Env, i: nat, parens: nat, closed: set<nat>)
    requires i <= |e.pattern|
    ensures var r := ParseAlts(e, i, parens, closed); r.Ok? ==> AltsSpelled(e, r.value)
    decreases |e.pattern| - i, 5
  {
    hide ParsePieces, ParseBars, PiecesSpelled;
    NoPieces(e);
    PiecesRead(e, i, parens, closed, Nil, true);
    var b := ParseBranch(e, i, parens, closed);
    if b.Ok? {
      BarsRead(e, b.idx, b.parens, b.closed, One(b.value), b.nullable);
    }
  }

  // ---------------------------------------------------------------------------------------
  // Meaning
  // ---------------------------------------------------------------------------------------

  /** The text that literals stand for. */
  function TextOf(lits: seq<Lit>): string
    requires LitsSpelled(lits)
  {
    seq(|lits|, i requires 0 <= i < |lits| => CharOf(lits[i].raw))
  }

  ghost predicate TermMeans(x: Subject, e: Env, t: Term, i: nat, j: nat)
    requires i <= j <= |x.text| && TermSpelled(e, t)
    decreases t, 0
  {
    match t
    case Simple(_, op) => LeafMatches(x, op, i, j)
    case Literal(lits) => SameText(x.icase, CStr(TextOf(lits)), x.text[i..j])
    case Paren(_, alts) => AltsMean(x, e, alts, i, j)
  }

  /** `n` times in a row. */
  ghost predicate TermRepeats(x: Subject, e: Env, t: Term, n: nat, i: nat, j: nat)
    requires i <= j <= |x.text| && TermSpelled(e, t)
    decreases t, n + 1
  {
    if n == 0 then i == j
    else exists k :: i <= k <= j && TermMeans(x, e, t, i, k) && TermRepeats(x, e, t, n - 1, k, j)
  }

  /** A terminal with a closure operator: as often as the operator's spelling allows. */
  ghost predicate PieceMeans(x: Subject, e: Env, p: Piece, i: nat, j: nat)
    requires i <= j <= |x.text| && PieceSpelled(e, p)
    decreases p, 0
  {
    exists n: nat :: AllowedBy(ClosureRaw(p.closure), n) && TermRepeats(x, e, p.term, n, i, j)
  }

  /** One piece behind the other. */
  ghost predicate PiecesMean(x: Subject, e: Env, l: PieceList, i: nat, j: nat)
    requires i <= j <= |x.text| && PiecesSpelled(e, l)
    decreases l, 0
  {
    match l
    case Nil => i == j
    case Snoc(init, last) => exists k :: i <= k <= j && PiecesMean(x, e, init, i, k) && PieceMeans(x, e, last, k, j)
  }

  /** Any of the alternatives. */
  ghost predicate AltsMean(x: Subject, e: Env, l: AltList, i: nat, j: nat)
    requires i <= j <= |x.text| && AltsSpelled(e, l)
    decreases l, 0
  {
    match l
    case One(b) => PiecesMean(x, e, b, i, j)
    case Bar(init, b) => AltsMean(x, e, init, i, j) || PiecesMean(x, e, b, i, j)
  }

  lemma {:induction false} TermExact(x: Subject, e: Env, t: Term, i: nat, j: nat)
    requires i <= j <= |x.text| && TermSpelled(e, t)
    ensures TermMeans(x, e, t, i, j) <==> Matches(x, TermRe(t), i, j)
    decreases t, 0
  {
    match t
    case Simple(_, _) =>
    case Literal(lits) => assert TextOf(lits) == LitText(lits);
    case Paren(_, alts) => AltsExact(x, e, alts, i, j);
  }

  lemma {:induction false} RepeatsExact(x: Subject, e: Env, t: Term, n: nat, i: nat, j: nat)
    requires i <= j <= |x.text| && TermSpelled(e, t)
    ensures TermRepeats(x, e, t, n, i, j) <==> Repeats(x, TermRe(t), n, i, j)
    decreases t, n + 1
  {
    hide TermMeans, Matches, TermSpelled;
    if n > 0 {
      forall k | i <= k <= j
        ensures TermMeans(x, e, t, i, k) <==> Matches(x, TermRe(t), i, k)
        ensures TermRepeats(x, e, t, n - 1, k, j) <==> Repeats(x, TermRe(t), n - 1, k, j)
      {
        TermExact(x, e, t, i, k);
        RepeatsExact(x, e, t, n - 1, k, j);
      }
    }
  }

  lemma OnceIs(x: Subject, t: Re, i: nat, j: nat)
    requires i <= j <= |x.text|
    ensures Repeats(x, t, 1, i, j) <==> Matches(x, t, i, j)
    ensures Repeats(x, t, 0, i, j) <==> i == j
  {
    if Matches(x, t, i, j) {
      assert Repeats(x, t, 0, j, j);
    }
  }

  lemma PlusCount(x: Subject, a: Re, i: nat, j: nat) returns (n: nat)
    requires i <= j <= |x.text| && Matches(x, Plus(a), i, j)
    ensures n > 0 && Repeats(x, a, n, i, j)
  {
    n :| n > 0 && Repeats(x, a, n, i, j);
  }

  /** The expression of a piece matches as many repetitions as the closure operator allows. */
  lemma PieceRepeats(x: Subject, p: Piece, i: nat, j: nat)
    requires i <= j <= |x.text| && ClosureSpelled(p.closure)
    ensures Matches(x, PieceRe(p), i, j) <==>
      exists n: nat :: AllowedBy(ClosureRaw(p.closure), n) && Repeats(x, TermRe(p.term), n, i, j)
  {
    hide Repeats, Number, Comma, TermRe, RangeRe;
    var t, raw := TermRe(p.term), ClosureRaw(p.closure);
    OnceIs(x, t, i, j);
    match p.closure
    case Once => assert AllowedBy(raw, 1);
    case Question => assert AllowedBy(raw, 0) && AllowedBy(raw, 1);
    case Asterisk =>
      if Matches(x, Star(t), i, j) {
        var n := StarCount(x, t, i, j);
        assert AllowedBy(raw, n);
      }
    case PlusSign =>
      if Matches(x, Plus(t), i, j) {
        var n := PlusCount(x, t, i, j);
        assert AllowedBy(raw, n);
      }
    case Braces(_, min, opt) => BracesRepeat(x, p.closure, t, i, j);
  }

  lemma BracesRepeat(x: Subject, c: Closure, t: Re, i: nat, j: nat)
    requires i <= j <= |x.text| && ClosureSpelled(c) && c.Braces?
    ensures Matches(x, RangeRe(t, c.min, c.opt), i, j) <==>
      exists n: nat :: AllowedBy(c.raw, n) && Repeats(x, t, n, i, j)
  {
    hide Repeats, AllowedBy, RangeRe, Matches;
    RangeExact(x, t, c.min, c.opt, i, j);
  }

  lemma {:induction false} PieceExact(x: Subject, e: Env, p: Piece, i: nat, j: nat)
    requires i <= j <= |x.text| && PieceSpelled(e, p)
    ensures PieceMeans(x, e, p, i, j) <==> Matches(x, PieceRe(p), i, j)
    decreases p, 0
  {
    hide TermSpelled, ClosureSpelled, AllowedBy, Matches, Repeats, TermRepeats, PieceRe;
    PieceRepeats(x, p, i, j);
    forall n: nat
      ensures TermRepeats(x, e, p.term, n, i, j) <==> Repeats(x, TermRe(p.term), n, i, j)
    {
      RepeatsExact(x, e, p.term, n, i, j);
    }
  }

  lemma {:induction false} PiecesExact(x: Subject, e: Env, l: PieceList, i: nat, j: nat)
    requires i <= j <= |x.text| && PiecesSpelled(e, l)
    ensures PiecesMean(x, e, l, i, j) <==> Matches(x, PiecesRe(l), i, j)
    decreases l, 0
  {
    hide PieceSpelled, PieceMeans, PieceRe;
    if l.Snoc? {
      forall k | i <= k <= j
        ensures PiecesMean(x, e, l.init, i, k) <==> Matches(x, PiecesRe(l.init), i, k)
        ensures PieceMeans(x, e, l.last, k, j) <==> Matches(x, PieceRe(l.last), k, j)
      {
        PiecesExact(x, e, l.init, i, k);
        PieceExact(x, e, l.last, k, j);
      }
    }
  }

  lemma {:induction false} AddAltMatches(x: Subject, a: Alts, t: Re, i: nat, j: nat)
    requires i <= j <= |x.text|
    ensures MatchesAlts(x, AddAlt(a, t), i, j) <==> MatchesAlts(x, a, i, j) || Matches(x, t, i, j)
  {
    if a.Or? {
      AddAltMatches(x, a.rest, t, i, j);
    }
  }

  lemma {:induction false} AltsExact(x: Subject, e: Env, l: AltList, i: nat, j: nat)
    requires i <= j <= |x.text| && AltsSpelled(e, l)
    ensures AltsMean(x, e, l, i, j) <==> MatchesAlts(x, AltsRe(l), i, j)
    decreases l, 0
  {
    hide PiecesSpelled, PiecesMean, PiecesRe;
    match l
    case One(b) => PiecesExact(x, e, b, i, j);
    case Bar(init, b) =>
      AltsExact(x, e, init, i, j);
      PiecesExact(x, e, b, i, j);
      AddAltMatches(x, AltsRe(init), PiecesRe(b), i, j);
  }

  /** The expression made of a pattern matches exactly the stretches that the pattern means by its
      spelling: every character, operator and number stands for what it says. */
  lemma MeaningExact(e: Env, x: Subject, i: nat, j: nat)
    requires Parse(e).Ok? && i <= j <= |x.text|
    ensures AltsRaw(Parse(e).value) == e.pattern && AltsSpelled(e, Parse(e).value)
    ensures MatchesAlts(x, AltsRe(Parse(e).value), i, j) <==> AltsMean(x, e, Parse(e).value, i, j)
  {
    hide ParseAlts, AltsSpelled, AltsMean, MatchesAlts;
    ParseSound(e);
    AltsRead(e, 0, 1, {});
    AltsExact(x, e, Parse(e).value, i, j);
  }
}
