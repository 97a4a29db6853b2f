/** The pattern language: concrete syntax trees that remember their spelling, the parser that the
    compiler runs over a pattern, and the expression each tree denotes. */
module ReParse {
  import opened Text
  import opened ReCode
  import opened ReMatch

  // ---------------------------------------------------------------------------------------
  // Concrete syntax
  // ---------------------------------------------------------------------------------------

  /** A character of an atom and how the pattern spells it. */
  datatype Lit = Lit(raw: string, c: char)

  datatype Term =
    | Simple(raw: string, op: Op)
    | Literal(lits: seq<Lit>)
    | Paren(number: nat, alts: AltList)

  /** Closure operators; `opt` is the number of optional repetitions, negative for no limit. */
  datatype Closure = Once | Question | Asterisk | PlusSign | Braces(raw: string, min: nat, opt: int)

  datatype Piece = Piece(term: Term, closure: Closure)

  datatype PieceList = Nil | Snoc(init: PieceList, last: Piece)

  datatype AltList = One(pieces: PieceList) | Bar(init: AltList, last: PieceList)

  function LitRaw(lits: seq<Lit>): string {
    if lits == [] then "" else LitRaw(lits[..|lits| - 1]) + lits[|lits| - 1].raw
  }

  function LitText(lits: seq<Lit>): string {
    seq(|lits|, i requires 0 <= i < |lits| => lits[i].c)
  }

  function TermRaw(t: Term): string {
    match t
    case Simple(raw, _) => raw
    case Literal(lits) => LitRaw(lits)
    case Paren(_, alts) => "(" + AltsRaw(alts) + ")"
  }

  function ClosureRaw(c: Closure): string {
    match c
    case Once => ""
    case Question => "?"
    case Asterisk => "*"
    case PlusSign => "+"
    case Braces(raw, _, _) => raw
  }

  function PieceRaw(p: Piece): string {
    TermRaw(p.term) + ClosureRaw(p.closure)
  }

  function PiecesRaw(l: PieceList): string {
    match l
    case Nil => ""
    case Snoc(init, last) => PiecesRaw(init) + PieceRaw(last)
  }

  function AltsRaw(l: AltList): string {
    match l
    case One(b) => PiecesRaw(b)
    case Bar(init, b) => AltsRaw(init) + "|" + PiecesRaw(b)
  }

  // ---------------------------------------------------------------------------------------
  // Denotation
  // ---------------------------------------------------------------------------------------

  /** `n` copies of `t` in a row. */
  function Times(t: Re, n: nat): Re
    requires n > 0
  {
    if n == 1 then t else Cat(Times(t, n - 1), t)
  }

  /** `X{min,min+opt}` as `min` copies of X followed by `opt` copies of `X?`; `X{min,}` ends in `X*`. */
  function RangeRe(t: Re, min: nat, opt: int): Re
    requires min > 0 || opt != 0
  {
    if opt == 0 then Times(t, min)
    else
      var tail := if opt < 0 then Star(t) else Times(Maybe(t), opt);
      if min == 0 then tail else Cat(Times(t, min), tail)
  }

  function TermRe(t: Term): Re {
    match t
    case Simple(_, op) => Leaf(op)
    case Literal(lits) => Leaf(Atom(LitText(lits)))
    case Paren(n, alts) => Group(n, AltsRe(alts))
  }

  function PieceRe(p: Piece): Re {
    var t := TermRe(p.term);
    match p.closure
    case Once => t
    case Question => Maybe(t)
    case Asterisk => Star(t)
    case PlusSign => Plus(t)
    case Braces(_, min, opt) => if min == 0 && opt == 0 then Empty else RangeRe(t, min, opt)
  }

  function PiecesRe(l: PieceList): Re {
    match l
    case Nil => Empty
    case Snoc(init, last) => if init.Nil? then PieceRe(last) else Cat(PiecesRe(init), PieceRe(last))
  }

  function AddAlt(a: Alts, t: Re): Alts {
    match a
    case Only(u) => Or(u, Only(t))
    case Or(u, rest) => Or(u, AddAlt(rest, t))
  }

  function AltsRe(l: AltList): Alts {
    match l
    case One(b) => Only(PiecesRe(b))
    case Bar(init, b) => AddAlt(AltsRe(init), PiecesRe(b))
  }

  // ---------------------------------------------------------------------------------------
  // Scanning
  // ---------------------------------------------------------------------------------------

  datatype EscKind = EscError | EscComplex | EscClass | EscBackRef | EscChar(code: int)

  /** What an escape sequence stands for, and where the pattern goes on. */
  datatype Esc = Esc(kind: EscKind, idx: nat)

  /** The value of an 8-bit `char` when widened: the upper half is negative. */
  function Widened(c: char): int {
    if c as int < 0x80 then c as int else c as int - 0x100
  }

  /** Narrowing to an 8-bit character. */
  function Narrowed(code: int): char {
    (code % 0x100) as char
  }

  function HexValue(c: char): int {
    if IsDigit(c) then c as int - '0' as int
    else if 'a' <= ToLower(c) <= 'f' then ToLower(c) as int - 'a' as int + 10
    else -1
  }

  /** At most `n` hexadecimal digits from `i` on. */
  function HexEscape(p: string, i: nat, n: nat, value: int): (r: Esc)
    requires i <= |p|
    ensures i <= r.idx <= |p|
    decreases n
  {
    if i < |p| && n > 0 then
      if HexValue(p[i]) >= 0 then HexEscape(p, i + 1, n - 1, 16 * value + HexValue(p[i]))
      else Esc(EscError, i)
    else Esc(EscChar(value), i)
  }

  function OctalValue(c: char): int {
    c as int - '0' as int
  }

  /** An octal escape whose first digit has been read; up to two more follow at `i`. */
  function OctalEscape(p: string, i: nat, value: int): (r: Esc)
    requires i <= |p|
    ensures i <= r.idx <= |p|
  {
    if !IsOctal(At(p, i)) then Esc(EscChar(value), i)
    else
      var v := 8 * value + OctalValue(p[i]);
      if !IsOctal(At(p, i + 1)) then Esc(EscChar(v), i + 1)
      else Esc(EscChar(8 * v + OctalValue(p[i + 1])), i + 2)
  }

  /** The escape sequence that starts with the backslash at `i`. */
  function Escape(p: string, i: nat): (r: Esc)
    requires i < |p|
    ensures i <= r.idx <= |p|
    ensures !r.kind.EscError? ==> i + 2 <= r.idx
  {
    if i + 1 >= |p| then Esc(EscError, i)
    else
      var c, j := p[i + 1], i + 2;
      if c == 'b' || c == 'B' then Esc(EscComplex, j)
      else if c in "wWsSdD" then Esc(EscClass, j)
      else if c == 'x' then HexEscape(p, j, 2, 0)
      else if c == 't' then Esc(EscChar(9), j)
      else if c == 'n' then Esc(EscChar(10), j)
      else if c == 'r' then Esc(EscChar(13), j)
      else if c == 'f' then Esc(EscChar(12), j)
      else if IsOctal(c) && (IsOctal(At(p, j)) || c == '0') then OctalEscape(p, j, OctalValue(c))
      else if IsDigit(c) then Esc(EscBackRef, j)
      else Esc(EscChar(Widened(c)), j)
  }

  /** Decimal digits from `i` on, continuing the number read so far. */
  function Digits(p: string, i: nat, value: nat): (r: (nat, nat))
    requires i <= |p|
    ensures i <= r.1 <= |p|
    decreases |p| - i
  {
    if IsDigit(At(p, i)) then Digits(p, i + 1, 10 * value + (p[i] as int - '0' as int)) else (value, i)
  }

  /** A number, or the default if there is none. */
  function ReadNumber(p: string, i: nat, default: nat): (r: (nat, nat))
    requires i <= |p|
    ensures i <= r.1 <= |p|
  {
    if IsDigit(At(p, i)) then Digits(p, i, 0) else (default, i)
  }

  datatype Bracketed = BadBracket | Bracketed(min: nat, opt: int, idx: nat)

  /** The operator `{n}`, `{n,}` or `{n,m}` whose opening brace is at `i`. */
  function Bracket(p: string, i: nat): (r: Bracketed)
    requires i < |p|
    ensures r.Bracketed? ==> i < r.idx <= |p|
  {
    var (min, j) := ReadNumber(p, i + 1, 1);
    if At(p, j) == '}' then Bracketed(min, 0, j + 1)
    else if At(p, j) != ',' then BadBracket
    else if At(p, j + 1) == '}' then Bracketed(min, -1, j + 2)
    else
      var (max, k) := ReadNumber(p, j + 1, min);
      if max < min || At(p, k) != '}' then BadBracket else Bracketed(min, max - min, k + 1)
  }

  // ---------------------------------------------------------------------------------------
  // Parsing
  // ---------------------------------------------------------------------------------------

  /** The pattern together with the parts of its language that are left open: what the character
      class starting at a position denotes and where it ends, and the members of `\w`, `\s`, ... */
  datatype Env = Env(pattern: string, classAt: (string, nat) -> Option<(set<char>, nat)>, classOf: char -> set<char>)

  /** `Reluctant` marks patterns with a non-greedy closure, whose code is not modelled. */
  datatype Parsed<+T> =
    | Failed
    | Reluctant
    | Ok(value: T, idx: nat, parens: nat, closed: set<nat>, nullable: bool)

  predicate IsClosureChar(c: char) { c == '{' || c == '?' || c == '*' || c == '+' }

  predicate EndsAtom(c: char) {
    c == '^' || c == '$' || c == '.' || c == '[' || c == '(' || c == ')' || c == '|'
  }

  /** Does the literal at `i` have to be left to a closure operator that follows it? */
  predicate BeforeClosure(p: string, i: nat)
    requires i < |p|
  {
    i + 1 < |p| &&
    var c := if p[i] == '\\' && Escape(p, i).idx < |p| then p[Escape(p, i).idx] else p[i + 1];
    IsClosureChar(c)
  }

  /** Does looking past the escape at `i` hit a character code that reads as an error? */
  predicate BadLookAhead(p: string, i: nat)
    requires i < |p|
  {
    i + 1 < |p| && p[i] == '\\' &&
    var k := Escape(p, i).kind;
    k.EscChar? && k.code < 0
  }

  datatype Scanned = NoAtom | Scanned(lits: seq<Lit>, idx: nat)

  /** As many literals as belong to one atom. */
  function ScanAtom(p: string, i: nat, acc: seq<Lit>): (r: Scanned)
    requires i <= |p|
    ensures r.Scanned? ==> r.lits != [] && i <= r.idx <= |p| && (acc == [] ==> i < r.idx)
    decreases |p| - i
  {
    var stop := if acc == [] then NoAtom else Scanned(acc, i);
    if i == |p| then stop
    else if BadLookAhead(p, i) then NoAtom
    else if BeforeClosure(p, i) && acc != [] then stop
    else if EndsAtom(p[i]) || IsClosureChar(p[i]) then stop
    else if p[i] == '\\' then
      var e := Escape(p, i);
      if !e.kind.EscChar? then stop
      else ScanAtom(p, e.idx, acc + [Lit(p[i..e.idx], Narrowed(e.kind.code))])
    else ScanAtom(p, i + 1, acc + [Lit([p[i]], p[i])])
  }

  function ParseAtom(e: Env, i: nat, parens: nat, closed: set<nat>): (r: Parsed<Term>)
    requires i < |e.pattern|
    ensures r.Ok? ==> i < r.idx <= |e.pattern|
  {
    match ScanAtom(e.pattern, i, [])
    case NoAtom => Failed
    case Scanned(lits, j) => Ok(Literal(lits), j, parens, closed, false)
  }

  function ParseEscape(e: Env, i: nat, parens: nat, closed: set<nat>): (r: Parsed<Term>)
    requires i < |e.pattern|
    ensures r.Ok? ==> i < r.idx <= |e.pattern|
  {
    var p := e.pattern;
    var esc := Escape(p, i);
    match esc.kind
    case EscClass => Ok(Simple(p[i..esc.idx], AnyOf(e.classOf(p[esc.idx - 1]))), esc.idx, parens, closed, false)
    case EscComplex => Ok(Simple(p[i..esc.idx], Bow(p[esc.idx - 1] == 'b')), esc.idx, parens, closed, true)
    case EscBackRef =>
      var k := p[esc.idx - 1] as int - '0' as int;
      if k in closed && k >= 0 then Ok(Simple(p[i..esc.idx], BackRef(k)), esc.idx, parens, closed, true)
      else Failed
    case EscError => Failed
    case EscChar(_) => ParseAtom(e, i, parens, closed)
  }

  function ParseTerm(e: Env, i: nat, parens: nat, closed: set<nat>): (r: Parsed<Term>)
    requires i < |e.pattern|
    ensures r.Ok? ==> i < r.idx <= |e.pattern|
    decreases |e.pattern| - i, 0
  {
    var c := e.pattern[i];
    if c == '$' then Ok(Simple([c], Eol), i + 1, parens, closed, true)
    else if c == '^' then Ok(Simple([c], Bol), i + 1, parens, closed, true)
    else if c == '.' then Ok(Simple([c], Any), i + 1, parens, closed, false)
    else if c == '[' then
      match e.classAt(e.pattern, i)
      case None => Failed
      case Some((members, j)) =>
        if i < j <= |e.pattern| then Ok(Simple(e.pattern[i..j], AnyOf(members)), j, parens, closed, false)
        else Failed
    else if c == '(' then ParseParen(e, i, parens, closed)
    else if c == ')' || c == '|' || c == '\0' || IsClosureChar(c) then Failed
    else if c == '\\' then ParseEscape(e, i, parens, closed)
    else ParseAtom(e, i, parens, closed)
  }

  function ParseParen(e: Env, i: nat, parens: nat, closed: set<nat>): (r: Parsed<Term>)
    requires i < |e.pattern|
    ensures r.Ok? ==> i < r.idx <= |e.pattern|
    decreases |e.pattern| - i - 1, 9
  {
    match ParseAlts(e, i + 1, parens + 1, closed)
    case Failed => Failed
    case Reluctant => Reluctant
    case Ok(alts, j, n, cl, nullable) =>
      if At(e.pattern, j) == ')' then Ok(Paren(parens, alts), j + 1, n, cl + {parens}, nullable)
      else Failed
  }

  /** A terminal with its closure operator. */
  function ParsePiece(e: Env, i: nat, parens: nat, closed: set<nat>): (r: Parsed<Piece>)
    requires i < |e.pattern|
    ensures r.Ok? ==> i < r.idx <= |e.pattern|
    decreases |e.pattern| - i, 1
  {
    match ParseTerm(e, i, parens, closed)
    case Failed => Failed
    case Reluctant => Reluctant
    case Ok(t, j, n, cl, nullable) =>
      if j >= |e.pattern| || !IsClosureChar(e.pattern[j]) then Ok(Piece(t, Once), j, n, cl, nullable)
      else if nullable then Failed
      else ParseClosure(e, t, j, n, cl)
  }

  /** The closure operator at `j` behind the non-nullable terminal `t`. */
  function ParseClosure(e: Env, t: Term, j: nat, n: nat, cl: set<nat>): (r: Parsed<Piece>)
    requires j < |e.pattern|
    ensures r.Ok? ==> j < r.idx <= |e.pattern|
  {
    var c := e.pattern[j];
    if c == '{' then
      match Bracket(e.pattern, j)
      case BadBracket => Failed
      case Bracketed(min, opt, k) =>
        if min == 0 && opt == 0 then Failed
        else Ok(Piece(t, Braces(e.pattern[j..k], min, opt)), k, n, cl, min == 0)
    else if At(e.pattern, j + 1) == '?' then Reluctant
    else if c == '?' then Ok(Piece(t, Question), j + 1, n, cl, true)
    else if c == '*' then Ok(Piece(t, Asterisk), j + 1, n, cl, true)
    else Ok(Piece(t, PlusSign), j + 1, n, cl, false)
  }

  predicate EndsBranch(e: Env, i: nat) {
    i >= |e.pattern| || e.pattern[i] == '|' || e.pattern[i] == ')'
  }

  /** The rest of a branch whose pieces so far are `acc`. */
  function ParsePieces(e: Env, i: nat, parens: nat, closed: set<nat>, acc: PieceList, nullable: bool)
      : (r: Parsed<PieceList>)
    requires i <= |e.pattern|
    ensures r.Ok? ==> i <= r.idx <= |e.pattern|
    decreases |e.pattern| - i, 2
  {
    if EndsBranch(e, i) then Ok(acc, i, parens, closed, nullable)
    else
      match ParsePiece(e, i, parens, closed)
      case Failed => Failed
      case Reluctant => Reluctant
      case Ok(p, j, n, cl, pieceNullable) =>
        ParsePieces(e, j, n, cl, Snoc(acc, p), nullable && pieceNullable)
  }

  function ParseBranch(e: Env, i: nat, parens: nat, closed: set<nat>): (r: Parsed<PieceList>)
    requires i <= |e.pattern|
    ensures r.Ok? ==> i <= r.idx <= |e.pattern|
    decreases |e.pattern| - i, 3
  {
    ParsePieces(e, i, parens, closed, Nil, true)
  }

  /** The rest of an expression whose alternatives so far are `acc`. */
  function ParseBars(e: Env, i: nat, parens: nat, closed: set<nat>, acc: AltList, nullable: bool): (r: Parsed<AltList>)
    requires i <= |e.pattern|
    ensures r.Ok? ==> i <= r.idx <= |e.pattern|
    decreases |e.pattern| - i, 4
  {
    if At(e.pattern, i) != '|' then Ok(acc, i, parens, closed, nullable)
    else
      match ParseBranch(e, i + 1, parens, closed)
      case Failed => Failed
      case Reluctant => Reluctant
      case Ok(b, j, n, cl, branchNullable) => ParseBars(e, j, n, cl, Bar(acc, b), nullable || branchNullable)
  }

  function ParseAlts(e: Env, i: nat, parens: nat, closed: set<nat>): (r: Parsed<AltList>)
    requires i <= |e.pattern|
    ensures r.Ok? ==> i <= r.idx <= |e.pattern|
    decreases |e.pattern| - i, 5
  {
    match ParseBranch(e, i, parens, closed)
    case Failed => Failed
    case Reluctant => Reluctant
    case Ok(b, j, n, cl, nullable) => ParseBars(e, j, n, cl, One(b), nullable)
  }

  /** A whole pattern: an expression with nothing behind it. */
  function Parse(e: Env): Parsed<AltList> {
    match ParseAlts(e, 0, 1, {})
    case Failed => Failed
    case Reluctant => Reluctant
    case Ok(alts, j, n, cl, nullable) =>
      if j == |e.pattern| then Ok(alts, j, n, cl, nullable) else Failed
  }
}
