/** Regular expressions as trees, and the node program the compiler lays out for each tree.

    A program is an array of nodes; `next` is an offset relative to the node itself, and 0 marks
    the one open end of a fragment that still has to be linked. */
module ReCode {

  /** Opcodes of the matching engine with their operand. */
  datatype Op =
    | End
    | Bol
    | Eol
    | Any
    | AnyOf(members: set<char>)
    | Branch
    | Atom(text: string)
    | Open(number: nat)
    | Close(number: nat)
    | BackRef(number: nat)
    | Goto
    | Nothing
    | Bow(positive: bool)

  datatype Node = Node(op: Op, next: int)

  type Code = seq<Node>

  /** The expressions that a pattern denotes once `X{n,m}` has been unfolded. */
  datatype Re =
    | Leaf(op: Op)
    | Empty
    | Cat(left: Re, right: Re)
    | Maybe(body: Re)
    | Star(body: Re)
    | Plus(body: Re)
    | Group(number: nat, alts: Alts)

  datatype Alts = Only(re: Re) | Or(re: Re, rest: Alts)

  /** The leaf opcodes a terminal can produce. */
  predicate IsTerminalOp(op: Op) {
    op.Bol? || op.Eol? || op.Any? || op.AnyOf? || op.Atom? || op.BackRef? || op.Bow?
  }

  /** The compiler's nullability analysis. */
  predicate Nullable(t: Re) {
    match t
    case Leaf(op) => !(op.Any? || op.AnyOf? || op.Atom?)
    case Empty => true
    case Cat(a, b) => Nullable(a) && Nullable(b)
    case Maybe(_) => true
    case Star(_) => true
    case Plus(a) => Nullable(a)
    case Group(_, alts) => NullableAlts(alts)
  }

  predicate NullableAlts(alts: Alts) {
    match alts
    case Only(t) => Nullable(t)
    case Or(t, rest) => Nullable(t) || NullableAlts(rest)
  }

  /** Trees the compiler accepts: leaves are terminals, closure operands are not nullable. */
  predicate Accepted(t: Re) {
    match t
    case Leaf(op) => IsTerminalOp(op)
    case Empty => true
    case Cat(a, b) => Accepted(a) && Accepted(b)
    case Maybe(a) => Accepted(a) && !Nullable(a)
    case Star(a) => Accepted(a) && !Nullable(a)
    case Plus(a) => Accepted(a) && !Nullable(a)
    case Group(_, alts) => AcceptedAlts(alts)
  }

  predicate AcceptedAlts(alts: Alts) {
    match alts
    case Only(t) => Accepted(t)
    case Or(t, rest) => Accepted(t) && AcceptedAlts(rest)
  }

  // ---------------------------------------------------------------------------------------
  // Code layout
  // ---------------------------------------------------------------------------------------

  /** Sets the offset of node `i`. */
  function SetNext(c: Code, i: nat, offset: int): Code
    requires i < |c|
  {
    c[i := c[i].(next := offset)]
  }

  /** Links the open end of a fragment, its last node, `offset` nodes further. */
  function Link(c: Code, offset: int): Code
    requires |c| > 0
  {
    SetNext(c, |c| - 1, offset)
  }

  function MaybeCode(x: Code): Code
    requires |x| > 0
  {
    [Node(Branch, |x| + 1)] + Link(x, 2) + [Node(Branch, 1), Node(Nothing, 0)]
  }

  function StarCode(x: Code): Code
    requires |x| > 0
  {
    [Node(Branch, |x| + 3)] + Link(x, 1)
    + [Node(Branch, 1), Node(Goto, -(|x| + 2)), Node(Branch, 1), Node(Nothing, 0)]
  }

  function PlusCode(x: Code): Code
    requires |x| > 0
  {
    Link(x, 1) + [Node(Branch, 2), Node(Goto, -(|x| + 1)), Node(Branch, 1), Node(Nothing, 0)]
  }

  function CatCode(x: Code, y: Code): Code
    requires |x| > 0
  {
    Link(x, 1) + y
  }

  /** One alternative whose body ends `after` nodes before the common end node. */
  function AltCode(x: Code, after: nat): Code
    requires |x| > 0
  {
    [Node(Branch, |x| + 1)] + Link(x, after + 1)
  }

  function GroupCode(number: nat, alts: Code): Code {
    [Node(Open(number), 1)] + alts + [Node(Close(number), 0)]
  }

  /** The program fragment of a tree. */
  function Emit(t: Re): (c: Code)
    ensures |c| > 0 && c[|c| - 1].next == 0
  {
    match t
    case Leaf(op) => [Node(op, 0)]
    case Empty => [Node(Nothing, 0)]
    case Cat(a, b) => CatCode(Emit(a), Emit(b))
    case Maybe(a) => MaybeCode(Emit(a))
    case Star(a) => StarCode(Emit(a))
    case Plus(a) => PlusCode(Emit(a))
    case Group(n, alts) => GroupCode(n, EmitAlts(alts))
  }

  /** All alternatives, each one's end linked to the node just after the last alternative. */
  function EmitAlts(alts: Alts): (c: Code)
    ensures |c| > 1 && c[0].op == Branch
  {
    match alts
    case Only(t) => AltCode(Emit(t), 0)
    case Or(t, rest) => var r := EmitAlts(rest); AltCode(Emit(t), |r|) + r
  }

  /** A whole program. */
  function EmitProgram(alts: Alts): Code {
    EmitAlts(alts) + [Node(End, 0)]
  }

  /** The literal every match has to start with: that of the first atom if there is only one way. */
  function CompiledPrefix(p: Code): string {
    if |p| > 1 && p[0].op.Branch? && 0 <= p[0].next < |p| && p[p[0].next].op.End? && p[1].op.Atom?
    then p[1].op.text else ""
  }

  // ---------------------------------------------------------------------------------------
  // The fragment invariant
  // ---------------------------------------------------------------------------------------

  /** Following `next` from node `i` leads forward to node `e`, the end of the chain. */
  predicate Chain(c: Code, i: nat, e: nat)
    decreases e - i
  {
    i <= e < |c| &&
    if c[i].next == 0 then i == e else 0 < c[i].next <= e - i && Chain(c, i + c[i].next, e)
  }

  /** Every node but those listed as open points at a node of the fragment other than itself. */
  ghost predicate Closed(c: Code, i: nat) {
    i < |c| && c[i].next != 0 && 0 <= i + c[i].next < |c|
  }

  /** A fragment: exactly one open node, the last one, which the chain from the entry reaches. */
  ghost predicate Fragment(c: Code) {
    && |c| > 0
    && Chain(c, 0, |c| - 1)
    && forall i :: 0 <= i < |c| - 1 ==> Closed(c, i)
  }

  lemma {:induction false} ChainGrows(c: Code, pre: Code, post: Code, i: nat, e: nat)
    requires Chain(c, i, e)
    ensures Chain(pre + c + post, |pre| + i, |pre| + e)
    decreases e - i
  {
    var d := pre + c + post;
    assert d[|pre| + i] == c[i];
    if c[i].next != 0 {
      ChainGrows(c, pre, post, i + c[i].next, e);
    }
  }

  /** Linking the end of one chain to the start of another joins them. */
  lemma {:induction false} ChainJoin(c: Code, i: nat, m: nat, j: nat, e: nat)
    requires Chain(c, i, m) && m < j && Chain(c, j, e)
    ensures Chain(SetNext(c, m, j - m), i, e)
    decreases m - i
  {
    var d := SetNext(c, m, j - m);
    if i == m {
      ChainAfterUpdate(c, m, j - m, j, e);
    } else {
      ChainJoin(c, i + c[i].next, m, j, e);
    }
  }

  /** A node before the start of a chain does not matter to it. */
  lemma {:induction false} ChainAfterUpdate(c: Code, m: nat, offset: int, j: nat, e: nat)
    requires m < j && Chain(c, j, e)
    ensures Chain(SetNext(c, m, offset), j, e)
    decreases e - j
  {
    if c[j].next != 0 {
      ChainAfterUpdate(c, m, offset, j + c[j].next, e);
    }
  }
}
