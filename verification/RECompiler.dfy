/** The one-pass compiler: it reads the pattern and patches the node array as it goes. Every method
    is proved against the parser and against the code that `Emit` lays out for the parsed tree. */
module RECompilers {
  import opened Text
  import opened ReCode
  import opened ReMatch
  import opened ReFragment
  import opened ReParse

  /** Patching inside a program acts on the fragment alone. */
  lemma SetNextShift(pre: Code, c: Code, i: nat, offset: int)
    requires i < |c|
    ensures SetNext(pre + c, |pre| + i, offset) == pre + SetNext(c, i, offset)
  {
  }

  lemma ChainShift(pre: Code, c: Code, i: nat, e: nat)
    requires Chain(c, i, e)
    ensures Chain(pre + c, |pre| + i, |pre| + e)
  {
    ChainGrows(c, pre, [], i, e);
    assert pre + c + [] == pre + c;
  }

  /** The chain of `x` inside larger code. */
  lemma ChainInside(pre: Code, x: Code, post: Code)
    requires Fragment(x)
    ensures Chain(pre + x + post, |pre|, |pre| + |x| - 1)
  {
    ChainGrows(x, pre, post, 0, |x| - 1);
  }

  lemma MaybeFacts(t: Re)
    ensures Fragment(Emit(t)) && Fragment(MaybeCode(Emit(t)))
    ensures Emit(Maybe(t)) == MaybeCode(Emit(t)) && Times(Maybe(t), 1) == Maybe(t)
  {
    EmitFragment(t);
    EmitFragment(Maybe(t));
  }

  lemma OneMoreTime(t: Re, n: nat)
    requires n > 0
    ensures Emit(Times(t, n + 1)) == Link(Emit(Times(t, n)), 1) + Emit(t)
  {
  }

  lemma NodeFragment(op: Op)
    ensures Fragment([Node(op, 0)])
  {
  }

  /** One alternative whose body is still open. */
  function HeadCode(x: Code): Code {
    [Node(Branch, |x| + 1)] + x
  }

  /** Alternatives whose branch nodes are linked but whose bodies are still open. */
  function BarCode(a: Alts): Code {
    match a
    case Only(t) => HeadCode(Emit(t))
    case Or(t, rest) => HeadCode(Emit(t)) + BarCode(rest)
  }

  /** Where the last alternative starts. */
  function LastBranch(a: Alts): (n: nat)
    ensures n < |BarCode(a)|
  {
    match a
    case Only(t) => 0
    case Or(t, rest) => |HeadCode(Emit(t))| + LastBranch(rest)
  }

  /** Alternatives while more of them may follow: the last branch node is open as well. */
  function OpenCode(a: Alts): Code {
    SetNext(BarCode(a), LastBranch(a), 0)
  }

  /** The open alternatives behind the first one. */
  function Behind(a: Alts): Code {
    if a.Or? then BarCode(a.rest) else []
  }

  lemma {:induction false} BarShape(a: Alts)
    ensures |BarCode(a)| == |EmitAlts(a)| && BarCode(a)[0].op == Branch
    ensures BarCode(a) == HeadCode(Emit(a.re)) + Behind(a)
  {
    if a.Or? {
      BarShape(a.rest);
    }
  }

  lemma OpenOr(t: Re, rest: Alts)
    ensures OpenCode(Or(t, rest)) == HeadCode(Emit(t)) + OpenCode(rest)
  {
    hide Emit, SetNext;
    SetNextShift(HeadCode(Emit(t)), BarCode(rest), LastBranch(rest), 0);
  }

  lemma {:induction false} OpenChain(a: Alts)
    ensures Chain(OpenCode(a), 0, LastBranch(a))
  {
    hide Emit;
    match a
    case Only(_) =>
    case Or(t, rest) =>
      OpenChain(rest);
      OpenOr(t, rest);
      ChainShift(HeadCode(Emit(t)), OpenCode(rest), 0, LastBranch(rest));
  }

  lemma {:induction false} AddBar(a: Alts, t: Re)
    ensures BarCode(AddAlt(a, t)) == BarCode(a) + HeadCode(Emit(t))
    ensures LastBranch(AddAlt(a, t)) == |BarCode(a)|
  {
    hide Emit, HeadCode;
    match a
    case Only(u) => assert LastBranch(Only(t)) == 0;
    case Or(u, rest) => AddBar(rest, t);
  }

  lemma OpenHead(x: Code)
    ensures SetNext(HeadCode(x), 0, 0) == [Node(Branch, 0)] + x
  {
  }

  lemma AddOpen(a: Alts, t: Re)
    ensures OpenCode(AddAlt(a, t)) == BarCode(a) + ([Node(Branch, 0)] + Emit(t))
  {
    hide Emit, BarCode, LastBranch, AddAlt, SetNext;
    AddBar(a, t);
    OpenHead(Emit(t));
    SetNextShift(BarCode(a), HeadCode(Emit(t)), 0, 0);
  }

  /** Taking the first of several alternatives apart. */
  lemma FirstAlt(a: Alts, front: Code, last: Node)
    ensures BarCode(a) + [last] == HeadCode(Emit(a.re)) + (Behind(a) + [last])
    ensures front + EmitAlts(a)
         == front + AltCode(Emit(a.re), |Behind(a)|) + if a.Or? then EmitAlts(a.rest) else []
  {
    hide Emit, HeadCode, AltCode;
    BarShape(a);
    if a.Or? {
      BarShape(a.rest);
    }
  }

  lemma CloseHead(x: Code, post: Code)
    ensures SetNext(SetNext(HeadCode(x), 0, 0) + post, 0, |HeadCode(x)|) == HeadCode(x) + post
  {
  }

  /** Linking the last alternative to what follows all of them. */
  lemma {:induction false} CloseBars(a: Alts, post: Code)
    ensures SetNext(OpenCode(a) + post, LastBranch(a), |BarCode(a)| - LastBranch(a)) == BarCode(a) + post
  {
    hide Emit, SetNext;
    match a
    case Only(t) => CloseHead(Emit(t), post);
    case Or(t, rest) =>
      CloseBars(rest, post);
      OpenOr(t, rest);
      var h := HeadCode(Emit(t));
      assert h + OpenCode(rest) + post == h + (OpenCode(rest) + post);
      SetNextLength(BarCode(rest), LastBranch(rest), 0);
      SetNextShift(h, OpenCode(rest) + post, LastBranch(rest), |BarCode(rest)| - LastBranch(rest));
      assert h + (BarCode(rest) + post) == h + BarCode(rest) + post;
  }

  lemma SetNextLength(c: Code, i: nat, offset: int)
    requires i < |c|
    ensures |SetNext(c, i, offset)| == |c|
  {
  }

  /** What a parsing method returns: the fragment's node, -1 for an error, -2 for a closure whose
      code is not modelled. */
  function Returned<T>(r: Parsed<T>, node: nat): int {
    match r
    case Ok(_, _, _, _, _) => node
    case Failed => -1
    case Reluctant => -2
  }

  lemma EmptyCode()
    ensures Emit(PiecesRe(Nil)) == [Node(Nothing, 0)]
  {
  }

  lemma ParenCode(n: nat, l: AltList)
    ensures Emit(TermRe(Paren(n, l))) == GroupCode(n, EmitAlts(AltsRe(l)))
  {
  }

  /** The code of a repetition with an optional tail. */
  lemma RangeCode(t: Re, min: nat, opt: int)
    requires opt != 0
    ensures var tail := if opt < 0 then StarCode(Emit(t)) else Emit(Times(Maybe(t), opt));
      Emit(RangeRe(t, min, opt)) == if min == 0 then tail else Link(Emit(Times(t, min)), 1) + tail
  {
  }

  lemma OpenOnly(t: Re)
    ensures OpenCode(Only(t)) == [Node(Branch, 0)] + Emit(t)
  {
  }

  lemma JoinPieces(acc: PieceList, p: Piece)
    ensures Emit(PiecesRe(Snoc(acc, p)))
         == if acc.Nil? then Emit(PieceRe(p)) else Link(Emit(PiecesRe(acc)), 1) + Emit(PieceRe(p))
  {
  }

  lemma FragmentNonempty(x: Code)
    requires Fragment(x)
    ensures |x| > 0
  {
  }

  /** The same end is linked, whether seen as that of `c` or of its last part `x`. */
  lemma LastLinked(pre: Code, c: Code, front: Code, x: Code)
    requires |c| > 0 && |x| > 0 && pre + c == front + x
    ensures pre + Link(c, 1) == front + Link(x, 1)
  {
    assert Link(pre + c, 1) == pre + Link(c, 1);
    assert Link(front + x, 1) == front + Link(x, 1);
  }

  /** `ret` is where the alternatives behind `pre` start, or the opening node just before them. */
  ghost predicate EntryOf(pre: Code, ret: nat) {
    ret == |pre| || (ret + 1 == |pre| && pre[ret].op.Open? && pre[ret].next == 1)
  }

  /** The code before the first alternative once the opening node, if any, is linked to it. */
  ghost function Opened(paren: bool, entry: nat, c: Code): Code {
    if paren && entry < |c| then SetNext(c, entry, 1) else c
  }

  lemma OpenLength(a: Alts)
    ensures |OpenCode(a)| == |BarCode(a)|
  {
  }

  /** The chain from the entry leads to the last alternative. */
  lemma BarsChain(pre: Code, a: Alts, post: Code, ret: nat)
    requires EntryOf(pre, ret)
    ensures Chain(pre + (OpenCode(a) + post), ret, |pre| + LastBranch(a))
  {
    hide OpenCode, LastBranch;
    var c := OpenCode(a) + post;
    OpenChain(a);
    ChainGrows(OpenCode(a), [], post, 0, LastBranch(a));
    assert [] + OpenCode(a) + post == c;
    ChainShift(pre, c, 0, LastBranch(a));
  }

  lemma HeadShape(a: Alts)
    ensures |BarCode(a)| == 1 + |Emit(a.re)| + |Behind(a)| && BarCode(a)[0].op == Branch
    ensures a.Or? ==> Behind(a) == BarCode(a.rest)
  {
    BarShape(a);
  }

  lemma AltLength(x: Code, after: nat)
    requires |x| > 0
    ensures |AltCode(x, after)| == |x| + 1
  {
  }

  /** The program after the pieces of `acc`, of which the last begins at `chain`. */
  ghost predicate Chained(c: Code, pre: Code, acc: PieceList, chain: int) {
    if acc.Nil? then chain == -1 && c == pre
    else c == pre + Emit(PiecesRe(acc)) && 0 <= chain < |c| && Fragment(c[chain..])
  }

  lemma ChainedEmpty(pre: Code)
    ensures Chained(pre, pre, Nil, -1)
  {
  }

  lemma ChainedIs(c: Code, pre: Code, acc: PieceList, chain: int)
    requires Chained(c, pre, acc, chain)
    ensures (acc.Nil? <==> chain == -1) && c == if acc.Nil? then pre else pre + Emit(PiecesRe(acc))
  {
  }

  class RECompiler {
    var fInstruction: Code
    var fPattern: string
    var fPatternIdx: nat
    var fNofParentheses: nat
    var fClosedParentheses: set<nat>
    const classAt: (string, nat) -> Option<(set<char>, nat)>
    const classOf: char -> set<char>

    constructor (classAt: (string, nat) -> Option<(set<char>, nat)>, classOf: char -> set<char>)
      ensures this.classAt == classAt && this.classOf == classOf
    {
      this.classAt, this.classOf := classAt, classOf;
      fInstruction, fPattern, fPatternIdx, fNofParentheses, fClosedParentheses := [], "", 0, 0, {};
    }

    ghost function Environment(): Env
      reads this
    {
      Env(fPattern, classAt, classOf)
    }

    // -------------------------------------------------------------------------------------
    // The node array
    // -------------------------------------------------------------------------------------

    /** Makes room for a node in the middle by moving the nodes behind it one by one. */
    method InsertNode(op: Op, insertAt: nat)
      requires insertAt <= |fInstruction|
      modifies this`fInstruction
      ensures fInstruction == old(fInstruction[..insertAt]) + [Node(op, 0)] + old(fInstruction[insertAt..])
    {
      ghost var was := fInstruction;
      var i := |fInstruction|;
      fInstruction := fInstruction + [Node(Nothing, 0)];
      while i > insertAt
        invariant insertAt <= i <= |was| && |fInstruction| == |was| + 1
        invariant forall k :: 0 <= k < i ==> fInstruction[k] == was[k]
        invariant forall k :: i < k <= |was| ==> fInstruction[k] == was[k - 1]
      {
        fInstruction := fInstruction[i := fInstruction[i - 1]];
        i := i - 1;
      }
      fInstruction := fInstruction[insertAt := Node(op, 0)];
    }

    /** Walks the chain from `node` to its end `e` and points that end to `pointTo`. */
    method SetNextOfEnd(node: nat, pointTo: nat, ghost e: nat)
      requires Chain(fInstruction, node, e)
      modifies this`fInstruction
      ensures fInstruction == SetNext(old(fInstruction), e, pointTo - e)
    {
      var n := node;
      while fInstruction[n].next != 0
        invariant Chain(fInstruction, n, e)
        decreases e - n
      {
        n := n + fInstruction[n].next;
      }
      fInstruction := fInstruction[n := fInstruction[n].(next := pointTo - n)];
    }

    method AppendNode(op: Op) returns (node: nat)
      modifies this`fInstruction
      ensures node == old(|fInstruction|) && fInstruction == old(fInstruction) + [Node(op, 0)]
    {
      fInstruction := fInstruction + [Node(op, 0)];
      node := |fInstruction| - 1;
    }

    method CopyProgram(from: nat, len: nat) returns (prog: Code)
      requires from + len <= |fInstruction|
      ensures prog == fInstruction[from..from + len]
    {
      prog := [];
      var i := from;
      while i < from + len
        invariant from <= i <= from + len && prog == fInstruction[from..i]
      {
        prog := prog + [fInstruction[i]];
        i := i + 1;
      }
    }

    method AppendProgram(prog: Code) returns (node: nat)
      modifies this`fInstruction
      ensures node == old(|fInstruction|) && fInstruction == old(fInstruction) + prog
    {
      node := |fInstruction|;
      var i := 0;
      while i < |prog|
        invariant 0 <= i <= |prog| && fInstruction == old(fInstruction) + prog[..i]
      {
        fInstruction := fInstruction + [prog[i]];
        i := i + 1;
      }
      assert prog[..|prog|] == prog;
    }

    /** Links the last fragment `x` of the program to the code appended behind it. */
    method LinkTo(node: nat, pointTo: nat, ghost pre: Code, ghost x: Code, ghost post: Code)
      requires Fragment(x) && node == |pre| && fInstruction == pre + x + post
      modifies this`fInstruction
      ensures fInstruction == pre + Link(x, pointTo - (|pre| + |x| - 1)) + post
    {
      ChainInside(pre, x, post);
      ghost var e := |pre| + |x| - 1;
      SetNextOfEnd(node, pointTo, e);
    }

    /** Links the fragment `x` at `chain`, the end of `pre + c`, to the fragment `y` behind it. */
    method LinkPiece(chain: nat, node: nat, ghost pre: Code, ghost c: Code, ghost front: Code, ghost x: Code,
        ghost y: Code)
      requires Fragment(x) && |c| > 0 && pre + c == front + x && chain == |front|
      requires fInstruction == front + x + y && node == |front| + |x|
      modifies this`fInstruction
      ensures fInstruction == pre + Link(c, 1) + y && |pre + Link(c, 1)| == node
    {
      hide Fragment;
      FragmentNonempty(x);
      LinkTo(chain, node, front, x, y);
      LastLinked(pre, c, front, x);
      SetNextLength(c, |c| - 1, 1);
    }

    /** `X?` */
    method GenerateQuestion(terminalNode: nat, ghost pre: Code, ghost x: Code)
      requires Fragment(x) && terminalNode == |pre| && fInstruction == pre + x
      modifies this`fInstruction
      ensures fInstruction == pre + MaybeCode(x)
    {
      ghost var n := |x|;
      ghost var b := [Node(Branch, 0)];
      InsertNode(Branch, terminalNode);
      assert fInstruction == pre + b + x;
      var second := AppendNode(Branch);
      SetNextOfEnd(terminalNode, second, terminalNode);
      b := [Node(Branch, n + 1)];
      assert fInstruction == pre + b + x + [Node(Branch, 0)];
      var nothing := AppendNode(Nothing);
      ghost var t := [Node(Branch, 0), Node(Nothing, 0)];
      assert fInstruction == (pre + b) + x + t;
      assert Chain(fInstruction, second, second);
      SetNextOfEnd(terminalNode, nothing, second);
      t := [Node(Branch, 1), Node(Nothing, 0)];
      assert fInstruction == (pre + b) + x + t;
      LinkTo(terminalNode + 1, nothing, pre + b, x, t);
      assert fInstruction == pre + MaybeCode(x);
    }

    /** `X*`: first the loop behind the body, then the way around it. */
    method GenerateStar(terminalNode: nat, ghost pre: Code, ghost x: Code)
      requires Fragment(x) && terminalNode == |pre| && fInstruction == pre + x
      modifies this`fInstruction
      ensures fInstruction == pre + StarCode(x)
    {
      hide Fragment, Chain;
      FragmentNonempty(x);
      ghost var n := |x|;
      InsertNode(Branch, terminalNode);
      ghost var inner := pre + [Node(Branch, 0)];
      assert fInstruction == inner + x;
      GenerateLoop(terminalNode, inner, x);
      ghost var body := Link(x, 1) + [Node(Branch, 1), Node(Goto, -(n + 2))];
      assert fInstruction == pre + ([Node(Branch, 0)] + body);
      GenerateWayOut(terminalNode, pre, body);
      assert [Node(Branch, |body| + 1)] + body + [Node(Branch, 1), Node(Nothing, 0)] == StarCode(x);
    }

    /** The end of the body leads to an option whose operand jumps back to the start. */
    method GenerateLoop(terminalNode: nat, ghost pre: Code, ghost x: Code)
      requires Fragment(x) && terminalNode + 1 == |pre| && fInstruction == pre + x
      modifies this`fInstruction
      ensures fInstruction == pre + (Link(x, 1) + [Node(Branch, 1), Node(Goto, -(|x| + 2))])
    {
      hide Fragment, Chain;
      FragmentNonempty(x);
      NodeFragment(Branch);
      NodeFragment(Goto);
      var option := AppendNode(Branch);
      LinkTo(terminalNode + 1, option, pre, x, [Node(Branch, 0)]);
      ghost var y := CatCode(x, [Node(Branch, 0)]);
      CatFragment(x, [Node(Branch, 0)]);
      assert fInstruction == pre + y;
      var back := AppendNode(Goto);
      LinkTo(terminalNode + 1, back, pre, y, [Node(Goto, 0)]);
      ghost var z := CatCode(y, [Node(Goto, 0)]);
      CatFragment(y, [Node(Goto, 0)]);
      assert fInstruction == pre + z + [];
      LinkTo(terminalNode + 1, terminalNode, pre, z, []);
      assert Link(z, -(|x| + 2)) == Link(x, 1) + [Node(Branch, 1), Node(Goto, -(|x| + 2))];
    }

    /** The branch before the body gets the option to match nothing. */
    method GenerateWayOut(terminalNode: nat, ghost pre: Code, ghost body: Code)
      requires terminalNode == |pre| && fInstruction == pre + ([Node(Branch, 0)] + body)
      modifies this`fInstruction
      ensures fInstruction == pre + ([Node(Branch, |body| + 1)] + body + [Node(Branch, 1), Node(Nothing, 0)])
    {
      var other := AppendNode(Branch);
      assert fInstruction == pre + ([Node(Branch, 0)] + body + [Node(Branch, 0)]);
      SetNextOfEnd(terminalNode, other, terminalNode);
      ghost var b := [Node(Branch, |body| + 1)];
      assert fInstruction == pre + (b + body + [Node(Branch, 0)]);
      var nothing := AppendNode(Nothing);
      assert fInstruction == pre + (b + body + [Node(Branch, 0), Node(Nothing, 0)]);
      assert Chain(fInstruction, other, other);
      SetNextOfEnd(terminalNode, nothing, other);
    }

    /** `X+` */
    method GeneratePlus(terminalNode: nat, ghost pre: Code, ghost x: Code)
      requires Fragment(x) && terminalNode == |pre| && fInstruction == pre + x
      modifies this`fInstruction
      ensures fInstruction == pre + PlusCode(x)
    {
      hide Fragment;
      FragmentNonempty(x);
      ghost var n := |x|;
      var branch := AppendNode(Branch);
      LinkTo(terminalNode, branch, pre, x, [Node(Branch, 0)]);
      ghost var y := Link(x, 1);
      var back := AppendNode(Goto);
      assert fInstruction == pre + y + [Node(Branch, 0), Node(Goto, 0)];
      SetNextOfEnd(back, terminalNode, back);
      var option := AppendNode(Branch);
      assert fInstruction == pre + y + [Node(Branch, 0), Node(Goto, -(n + 1)), Node(Branch, 0)];
      SetNextOfEnd(branch, option, branch);
      var nothing := AppendNode(Nothing);
      ghost var t := [Node(Branch, 2), Node(Goto, -(n + 1)), Node(Branch, 0), Node(Nothing, 0)];
      assert fInstruction == pre + (y + t);
      assert Chain(t, 2, 2);
      JoinChain(x, t, 2);
      ChainShift(pre, y + t, 0, n + 2);
      SetNextOfEnd(terminalNode, nothing, |pre| + n + 2);
      SetNextShift(pre, y + t, n + 2, 1);
      assert SetNext(y + t, n + 2, 1) == PlusCode(x);
    }

    /** Appends further copies of a terminal, each linked to its predecessor. */
    method RepeatTerminal(prog: Code, terminalNode: nat, repetitions: nat, ghost pre: Code, ghost t: Re)
      returns (last: nat, ghost front: Code)
      requires prog == Emit(t) && terminalNode == |pre| && fInstruction == pre + prog
      modifies this`fInstruction
      ensures fInstruction == pre + Emit(Times(t, repetitions + 1))
      ensures fInstruction == front + prog && last == |front|
      ensures repetitions == 0 ==> front == pre
      ensures repetitions > 0 ==> front == pre + Link(Emit(Times(t, repetitions)), 1)
    {
      hide Fragment, Link, Emit;
      last, front := terminalNode, pre;
      EmitFragment(t);
      ghost var c := prog;
      var i := 0;
      while i < repetitions
        invariant 0 <= i <= repetitions && c == Emit(Times(t, i + 1))
        invariant fInstruction == front + prog && front + prog == pre + c && last == |front|
        invariant i == 0 ==> front == pre
        invariant i > 0 ==> front == pre + Link(Emit(Times(t, i)), 1)
      {
        var chain := last;
        last := AppendProgram(prog);
        LinkPiece(chain, last, pre, c, front, prog, prog);
        OneMoreTime(t, i + 1);
        front := pre + Link(c, 1);
        c := Link(c, 1) + prog;
        i := i + 1;
      }
    }

    /** Appends `X?` behind the `X?` at `chain` and links the two. */
    method AnotherQuestion(prog: Code, chain: nat, ghost pre: Code, ghost c: Code, ghost front: Code, ghost m: Code)
      returns (node: nat)
      requires Fragment(prog) && Fragment(m) && m == MaybeCode(prog) && |c| > 0
      requires chain == |front| && fInstruction == front + m && front + m == pre + c
      modifies this`fInstruction
      ensures fInstruction == pre + Link(c, 1) + m && node == |pre + Link(c, 1)|
    {
      hide MaybeCode, Fragment, Link;
      node := AppendProgram(prog);
      GenerateQuestion(node, front + m, prog);
      LinkPiece(chain, node, pre, c, front, m, m);
    }

    /** The optional part of a bounded repetition: `X?X?...`. */
    method GenerateQuestions(prog: Code, terminalNode: nat, repetitions: nat, ghost pre: Code, ghost t: Re)
      requires prog == Emit(t) && terminalNode == |pre| && fInstruction == pre + prog && repetitions > 0
      modifies this`fInstruction
      ensures fInstruction == pre + Emit(Times(Maybe(t), repetitions))
    {
      hide MaybeCode, Fragment, Link, Emit, Times;
      MaybeFacts(t);
      ghost var m := MaybeCode(prog);
      GenerateQuestion(terminalNode, pre, prog);
      var newTerminal := terminalNode;
      ghost var front, c := pre, m;
      var i := 1;
      while i < repetitions
        invariant 1 <= i <= repetitions && c == Emit(Times(Maybe(t), i))
        invariant newTerminal == |front| && fInstruction == front + m && front + m == pre + c
      {
        newTerminal := AnotherQuestion(prog, newTerminal, pre, c, front, m);
        OneMoreTime(Maybe(t), i);
        front := pre + Link(c, 1);
        c := Link(c, 1) + m;
        i := i + 1;
      }
    }

    /** Links the last alternative to `pointTo`, the code `post` just behind all of them. */
    method LinkBars(ret: nat, pointTo: nat, ghost pre: Code, ghost a: Alts, ghost post: Code)
      requires |post| > 0 && fInstruction == pre + (OpenCode(a) + post)
      requires pointTo == |pre| + |BarCode(a)| && EntryOf(pre, ret)
      modifies this`fInstruction
      ensures fInstruction == pre + (BarCode(a) + post)
    {
      hide SetNext, BarCode, LastBranch, Chain, OpenCode, EntryOf;
      ghost var c, e := OpenCode(a) + post, LastBranch(a);
      OpenLength(a);
      BarsChain(pre, a, post, ret);
      SetNextOfEnd(ret, pointTo, |pre| + e);
      SetNextShift(pre, c, e, |BarCode(a)| - e);
      CloseBars(a, post);
    }

    /** Points the end of the alternative at `i` to the end node. */
    method HookOne(i: nat, end: nat, ghost front: Code, ghost x: Code, ghost behind: Code)
      requires Fragment(x) && |x| > 0 && |behind| > 0
      requires fInstruction == front + (HeadCode(x) + behind)
      requires i == |front| && end == |front| + |x| + |behind|
      modifies this`fInstruction
      ensures fInstruction == front + AltCode(x, |behind| - 1) + behind
      ensures fInstruction[i] == Node(Branch, |x| + 1)
    {
      hide Fragment;
      FragmentNonempty(x);
      ghost var before := front + [Node(Branch, |x| + 1)];
      assert fInstruction == before + x + behind;
      LinkTo(i + 1, end, before, x, behind);
      assert before + Link(x, |behind|) == front + AltCode(x, |behind| - 1);
    }

    /** Points the end of every alternative to the end node. */
    method HookBranches(ret: nat, end: nat, ghost pre: Code, ghost a: Alts, ghost last: Node)
      requires fInstruction == pre + (BarCode(a) + [last]) && EntryOf(pre, ret)
      requires !last.op.Branch? && last.next == 0 && end == |pre| + |BarCode(a)|
      modifies this`fInstruction
      ensures fInstruction == pre + (EmitAlts(a) + [last])
    {
      hide EmitAlts, BarCode, HeadCode, AltCode, Behind, Emit;
      var i, next := ret, -1;
      ghost var front, rest := pre, Some(a);
      BarShape(a);
      while next != 0
        invariant rest.Some? ==> next != 0 && front + EmitAlts(rest.value) == pre + EmitAlts(a)
        invariant rest.Some? ==> fInstruction == front + (BarCode(rest.value) + [last])
        invariant rest.Some? ==> end == |front| + |BarCode(rest.value)|
        invariant rest.Some? ==> i == |front| || (i == ret < |pre| && front == pre)
        invariant rest.None? ==> i == end == |pre| + |EmitAlts(a)| && fInstruction == pre + EmitAlts(a) + [last]
        decreases if next == 0 then 0 else end - i + 1
      {
        if fInstruction[i].op == Branch {
          assert rest.Some? && i == |front|;
          ghost var x, behind := Emit(rest.value.re), Behind(rest.value);
          FirstAlt(rest.value, front, last);
          HeadShape(rest.value);
          EmitFragment(rest.value.re);
          HookOne(i, end, front, x, behind + [last]);
          AltLength(x, |behind|);
          front := front + AltCode(x, |behind|);
          rest := if rest.value.Or? then Some(rest.value.rest) else None;
        } else if rest.Some? {
          BarShape(rest.value);
        }
        next := fInstruction[i].next;
        i := i + next;
      }
    }

    // -------------------------------------------------------------------------------------
    // Reading the pattern
    // -------------------------------------------------------------------------------------

    method ReadNumberAt(default: nat) returns (value: nat)
      requires fPatternIdx <= |fPattern|
      modifies this`fPatternIdx
      ensures (value, fPatternIdx) == old(ReadNumber(fPattern, fPatternIdx, default))
    {
      if !IsDigit(At(fPattern, fPatternIdx)) {
        return default;
      }
      value := 0;
      while IsDigit(At(fPattern, fPatternIdx))
        invariant fPatternIdx <= |fPattern|
        invariant Digits(fPattern, fPatternIdx, value) == old(Digits(fPattern, fPatternIdx, 0))
        decreases |fPattern| - fPatternIdx
      {
        value := 10 * value + (fPattern[fPatternIdx] as int - '0' as int);
        fPatternIdx := fPatternIdx + 1;
      }
    }

    method ReadBracket() returns (ok: bool, minimum: nat, optional: int)
      requires fPatternIdx < |fPattern| && fPattern[fPatternIdx] == '{'
      modifies this`fPatternIdx
      ensures var r := old(Bracket(fPattern, fPatternIdx));
        ok == r.Bracketed? && (ok ==> r == Bracketed(minimum, optional, fPatternIdx))
    {
      optional := 0;
      fPatternIdx := fPatternIdx + 1;
      minimum := ReadNumberAt(1);
      if At(fPattern, fPatternIdx) == '}' {
        fPatternIdx := fPatternIdx + 1;
        return true, minimum, optional;
      }
      if At(fPattern, fPatternIdx) != ',' {
        return false, minimum, optional;
      }
      fPatternIdx := fPatternIdx + 1;
      if At(fPattern, fPatternIdx) == '}' {
        fPatternIdx := fPatternIdx + 1;
        return true, minimum, -1;
      }
      var maximum := ReadNumberAt(minimum);
      optional := maximum - minimum;
      if optional < 0 || At(fPattern, fPatternIdx) != '}' {
        return false, minimum, optional;
      }
      fPatternIdx := fPatternIdx + 1;
      return true, minimum, optional;
    }

    method ReadHex() returns (kind: EscKind)
      requires fPatternIdx <= |fPattern|
      modifies this`fPatternIdx
      ensures Esc(kind, fPatternIdx) == old(HexEscape(fPattern, fPatternIdx, 2, 0))
    {
      var hexDigits: nat, val := 2, 0;
      while fPatternIdx < |fPattern| && hexDigits > 0
        invariant fPatternIdx <= |fPattern|
        invariant HexEscape(fPattern, fPatternIdx, hexDigits, val) == old(HexEscape(fPattern, fPatternIdx, 2, 0))
        decreases hexDigits
      {
        if HexValue(fPattern[fPatternIdx]) < 0 {
          return EscError;
        }
        val := 16 * val + HexValue(fPattern[fPatternIdx]);
        hexDigits, fPatternIdx := hexDigits - 1, fPatternIdx + 1;
      }
      return EscChar(val);
    }

    method ReadEscape() returns (kind: EscKind)
      requires fPatternIdx < |fPattern|
      modifies this`fPatternIdx
      ensures Esc(kind, fPatternIdx) == old(Escape(fPattern, fPatternIdx))
    {
      if fPatternIdx + 1 >= |fPattern| {
        return EscError;
      }
      fPatternIdx := fPatternIdx + 2;
      var c := fPattern[fPatternIdx - 1];
      if c == 'b' || c == 'B' {
        return EscComplex;
      } else if c in "wWsSdD" {
        return EscClass;
      } else if c == 'x' {
        kind := ReadHex();
      } else if c == 't' {
        return EscChar(9);
      } else if c == 'n' {
        return EscChar(10);
      } else if c == 'r' {
        return EscChar(13);
      } else if c == 'f' {
        return EscChar(12);
      } else if IsOctal(c) && (IsOctal(At(fPattern, fPatternIdx)) || c == '0') {
        var val := OctalValue(c);
        if IsOctal(At(fPattern, fPatternIdx)) {
          val := 8 * val + OctalValue(fPattern[fPatternIdx]);
          fPatternIdx := fPatternIdx + 1;
          if IsOctal(At(fPattern, fPatternIdx)) {
            val := 8 * val + OctalValue(fPattern[fPatternIdx]);
            fPatternIdx := fPatternIdx + 1;
          }
        }
        return EscChar(val);
      } else if IsDigit(c) {
        return EscBackRef;
      } else {
        return EscChar(Widened(c));
      }
    }

    /** What a method has done when it returns `ret`: the result of the parser, and its code. */
    ghost predicate After<T>(r: Parsed<T>, ret: int, isnullable: bool, before: Code, code: Code)
      reads this
    {
      && ret == Returned(r, |before|)
      && (r.Ok? ==>
            && fInstruction == before + code
            && fPatternIdx == r.idx && fNofParentheses == r.parens && fClosedParentheses == r.closed
            && isnullable == r.nullable)
    }

    /** Looks past the character at the current position, which may be a whole escape. */
    method LookAhead() returns (bad: bool, closure: bool)
      requires fPatternIdx < |fPattern|
      modifies this`fPatternIdx
      ensures fPatternIdx == old(fPatternIdx)
      ensures bad == BadLookAhead(fPattern, fPatternIdx)
      ensures !bad ==> closure == BeforeClosure(fPattern, fPatternIdx)
    {
      if fPatternIdx + 1 >= |fPattern| {
        return false, false;
      }
      var c := fPattern[fPatternIdx + 1];
      if fPattern[fPatternIdx] == '\\' {
        var idxEscape := fPatternIdx;
        var ahead := ReadEscape();
        bad := ahead.EscChar? && ahead.code < 0;
        if !bad && fPatternIdx < |fPattern| {
          c := fPattern[fPatternIdx];
        }
        fPatternIdx := idxEscape;
      } else {
        bad := false;
      }
      closure := IsClosureChar(c);
    }

    /** Absorbs the characters of one atom. */
    method Atom() returns (ret: int)
      requires fPatternIdx < |fPattern|
      modifies this`fInstruction, this`fPatternIdx
      ensures var r := old(ParseAtom(Environment(), fPatternIdx, fNofParentheses, fClosedParentheses));
        After(r, ret, false, old(fInstruction), if r.Ok? then Emit(TermRe(r.value)) else [])
    {
      hide Escape, BeforeClosure, BadLookAhead, EndsAtom, IsClosureChar;
      var node := AppendNode(ReCode.Atom(""));
      var strAtom := "";
      ghost var lits: seq<Lit> := [];
      ghost var wanted := ScanAtom(fPattern, fPatternIdx, []);
      while fPatternIdx < |fPattern|
        invariant fPatternIdx <= |fPattern| && strAtom == LitText(lits)
        invariant ScanAtom(fPattern, fPatternIdx, lits) == wanted
        invariant fInstruction == old(fInstruction) + [Node(ReCode.Atom(""), 0)]
        decreases |fPattern| - fPatternIdx
      {
        var idx := fPatternIdx;
        var bad, closure := LookAhead();
        if bad {
          return -1;
        }
        if (closure && strAtom != "") || EndsAtom(fPattern[idx]) || IsClosureChar(fPattern[idx]) {
          break;
        }
        if fPattern[idx] == '\\' {
          var kind := ReadEscape();
          if !kind.EscChar? {
            fPatternIdx := idx;
            break;
          }
          strAtom := strAtom + [Narrowed(kind.code)];
          lits := lits + [Lit(fPattern[idx..fPatternIdx], Narrowed(kind.code))];
        } else {
          strAtom := strAtom + [fPattern[idx]];
          lits := lits + [Lit([fPattern[idx]], fPattern[idx])];
          fPatternIdx := fPatternIdx + 1;
        }
      }
      if strAtom == "" {
        return -1;
      }
      fInstruction := fInstruction[node := Node(ReCode.Atom(strAtom), 0)];
      ret := node;
    }

    /** A terminal that starts with a backslash. */
    method EscapedTerminal() returns (ret: int, isnullable: bool)
      requires fPatternIdx < |fPattern|
      modifies this`fInstruction, this`fPatternIdx
      ensures var r := old(ParseEscape(Environment(), fPatternIdx, fNofParentheses, fClosedParentheses));
        After(r, ret, isnullable, old(fInstruction), if r.Ok? then Emit(TermRe(r.value)) else [])
    {
      hide Escape, ParseAtom;
      var idxBeforeEscape := fPatternIdx;
      isnullable := false;
      var kind := ReadEscape();
      match kind
      case EscClass => ret := AppendNode(AnyOf(classOf(fPattern[fPatternIdx - 1])));
      case EscComplex =>
        isnullable := true;
        ret := AppendNode(Bow(fPattern[fPatternIdx - 1] == 'b'));
      case EscBackRef =>
        var backreference := fPattern[fPatternIdx - 1] as int - '0' as int;
        if backreference < 0 || backreference !in fClosedParentheses {
          return -1, false;
        }
        isnullable := true;
        ret := AppendNode(BackRef(backreference));
      case EscError => return -1, false;
      case EscChar(_) =>
        fPatternIdx := idxBeforeEscape;
        ret := Atom();
    }

    method Terminal() returns (ret: int, isnullable: bool)
      requires fPatternIdx < |fPattern| && fNofParentheses > 0
      modifies this`fInstruction, this`fPatternIdx, this`fNofParentheses, this`fClosedParentheses
      ensures var r := old(ParseTerm(Environment(), fPatternIdx, fNofParentheses, fClosedParentheses));
        After(r, ret, isnullable, old(fInstruction), if r.Ok? then Emit(TermRe(r.value)) else [])
      ensures fNofParentheses > 0
      decreases |fPattern| - fPatternIdx, 0
    {
      hide ParseParen, ParseAtom, ParseEscape, ParseAlts;
      isnullable := false;
      var c := fPattern[fPatternIdx];
      if c == '$' || c == '^' {
        isnullable := true;
        fPatternIdx := fPatternIdx + 1;
        ret := AppendNode(if c == '$' then Eol else Bol);
      } else if c == '.' {
        fPatternIdx := fPatternIdx + 1;
        ret := AppendNode(Any);
      } else if c == '[' {
        match classAt(fPattern, fPatternIdx)
        case None => return -1, false;
        case Some((members, j)) =>
          if !(fPatternIdx < j <= |fPattern|) {
            return -1, false;
          }
          fPatternIdx := j;
          ret := AppendNode(AnyOf(members));
      } else if c == '(' {
        ret, isnullable := Expr();
      } else if c == ')' || c == '|' || c == '\0' || IsClosureChar(c) {
        return -1, false;
      } else if c == '\\' {
        ret, isnullable := EscapedTerminal();
      } else {
        ret := Atom();
      }
    }

    /** Emits `X{n,m}` behind the terminal `X` that has just been emitted. */
    method Repeat(terminalNode: nat, minimum: nat, optional: int, ghost pre: Code, ghost t: Re)
      requires terminalNode == |pre| && fInstruction == pre + Emit(t) && (minimum > 0 || optional != 0)
      modifies this`fInstruction
      ensures fInstruction == pre + Emit(RangeRe(t, minimum, optional))
    {
      hide Emit, Fragment, Link, StarCode;
      EmitFragment(t);
      var terminalLen := |fInstruction| - terminalNode;
      var terminalProg := CopyProgram(terminalNode, terminalLen);
      var last: nat, front := terminalNode, pre;
      if minimum > 1 {
        last, front := RepeatTerminal(terminalProg, last, minimum - 1, pre, t);
      }
      if optional == 0 {
        return;
      }
      RangeCode(t, minimum, optional);
      if minimum > 0 {
        last, front := RepeatOnce(terminalProg, last, minimum, pre, front, t);
      }
      if optional < 0 {
        GenerateStar(last, front, terminalProg);
      } else {
        GenerateQuestions(terminalProg, last, optional, front, t);
      }
    }

    /** One more copy behind `n` copies; it becomes the optional tail. */
    method RepeatOnce(prog: Code, node: nat, n: nat, ghost pre: Code, ghost before: Code, ghost t: Re)
      returns (last: nat, ghost front: Code)
      requires n > 0 && prog == Emit(t) && node == |before| && fInstruction == before + prog
      requires fInstruction == pre + Emit(Times(t, n))
      modifies this`fInstruction
      ensures front == pre + Link(Emit(Times(t, n)), 1) && last == |front| && fInstruction == front + prog
    {
      last, front := RepeatTerminal(prog, node, 1, before, t);
      assert Times(t, 1) == t;
      LastLinked(pre, Emit(Times(t, n)), before, prog);
    }

    /** A terminal and its closure operator. */
    method Closure() returns (ret: int, isnullable: bool)
      requires fPatternIdx < |fPattern| && fNofParentheses > 0
      modifies this`fInstruction, this`fPatternIdx, this`fNofParentheses, this`fClosedParentheses
      ensures var r := old(ParsePiece(Environment(), fPatternIdx, fNofParentheses, fClosedParentheses));
        After(r, ret, isnullable, old(fInstruction), if r.Ok? then Emit(PieceRe(r.value)) else [])
      ensures fNofParentheses > 0
      decreases |fPattern| - fPatternIdx, 1
    {
      hide ParseTerm, ParseClosure, TermRe, Emit, RangeRe;
      ghost var before := fInstruction;
      ghost var parsed := ParseTerm(Environment(), fPatternIdx, fNofParentheses, fClosedParentheses);
      ret, isnullable := Terminal();
      if ret < 0 || fPatternIdx >= |fPattern| || !IsClosureChar(fPattern[fPatternIdx]) {
        return;
      }
      if isnullable {
        return -1, true;
      }
      ret, isnullable := ClosureOperator(ret, before, parsed.value);
    }

    /** Consumes a closure operator and rewrites the code of the terminal before it. */
    method ClosureOperator(terminalNode: nat, ghost pre: Code, ghost t: Term) returns (ret: int, isnullable: bool)
      requires fPatternIdx < |fPattern| && IsClosureChar(fPattern[fPatternIdx])
      requires terminalNode == |pre| && fInstruction == pre + Emit(TermRe(t))
      modifies this`fInstruction, this`fPatternIdx
      ensures var r := old(ParseClosure(Environment(), t, fPatternIdx, fNofParentheses, fClosedParentheses));
        After(r, ret, isnullable, pre, if r.Ok? then Emit(PieceRe(r.value)) else [])
    {
      hide Bracket, TermRe, Emit, RangeRe;
      ret, isnullable := terminalNode, false;
      var closureType := fPattern[fPatternIdx];
      if closureType == '{' {
        var ok, minimum, optional := ReadBracket();
        if !ok || (optional == 0 && minimum == 0) {
          return -1, false;
        }
        isnullable := minimum == 0;
        Repeat(terminalNode, minimum, optional, pre, TermRe(t));
        return;
      }
      fPatternIdx := fPatternIdx + 1;
      if At(fPattern, fPatternIdx) == '?' {
        return -2, false;
      }
      isnullable := closureType != '+';
      GenerateClosure(closureType, terminalNode, pre, TermRe(t));
    }

    method GenerateClosure(closureType: char, node: nat, ghost pre: Code, ghost t: Re)
      requires node == |pre| && fInstruction == pre + Emit(t)
      requires closureType == '?' || closureType == '*' || closureType == '+'
      modifies this`fInstruction
      ensures fInstruction == pre + Emit(
        if closureType == '?' then Maybe(t) else if closureType == '*' then Star(t) else Plus(t))
    {
      hide Fragment;
      EmitFragment(t);
      if closureType == '?' {
        GenerateQuestion(node, pre, Emit(t));
      } else if closureType == '*' {
        GenerateStar(node, pre, Emit(t));
      } else {
        GeneratePlus(node, pre, Emit(t));
      }
    }

    /** Hooks the piece before to the piece just read. */
    method HookPiece(chain: int, node: nat, ghost sofar: Code, ghost pre: Code, ghost acc: PieceList, ghost p: Piece)
      requires Chained(sofar, pre, acc, chain) && node == |sofar| && fInstruction == sofar + Emit(PieceRe(p))
      modifies this`fInstruction
      ensures Chained(fInstruction, pre, Snoc(acc, p), node)
    {
      hide Emit, PieceRe, PiecesRe, Fragment, Link, Chain;
      ghost var y := Emit(PieceRe(p));
      EmitFragment(PieceRe(p));
      FragmentNonempty(y);
      JoinPieces(acc, p);
      if chain != -1 {
        EmitFragment(PiecesRe(acc));
        FragmentNonempty(Emit(PiecesRe(acc)));
        LinkPiece(chain, node, pre, Emit(PiecesRe(acc)), sofar[..chain], sofar[chain..], y);
        assert fInstruction == pre + (Link(Emit(PiecesRe(acc)), 1) + y);
      }
      assert fInstruction[node..] == y;
    }

    /** Concatenates pieces behind a branch node. */
    method Branches() returns (ret: int, isnullable: bool)
      requires fPatternIdx <= |fPattern| && fNofParentheses > 0
      modifies this`fInstruction, this`fPatternIdx, this`fNofParentheses, this`fClosedParentheses
      ensures var r := old(ParseBranch(Environment(), fPatternIdx, fNofParentheses, fClosedParentheses));
        After(r, ret, isnullable, old(fInstruction),
              if r.Ok? then [Node(Branch, 0)] + Emit(PiecesRe(r.value)) else [])
      ensures fNofParentheses > 0
      decreases |fPattern| - fPatternIdx, 3
    {
      hide ParsePiece, Emit, PieceRe, PiecesRe, Chained;
      ghost var e := Environment();
      ghost var wanted := ParseBranch(e, fPatternIdx, fNofParentheses, fClosedParentheses);
      var branch := AppendNode(Branch);
      ghost var pre := fInstruction;
      var chain := -1;
      isnullable := true;
      ghost var acc := Nil;
      ChainedEmpty(pre);
      while fPatternIdx < |fPattern| && fPattern[fPatternIdx] != '|' && fPattern[fPatternIdx] != ')'
        invariant old(fPatternIdx) <= fPatternIdx <= |fPattern| && fNofParentheses > 0
        invariant ParsePieces(e, fPatternIdx, fNofParentheses, fClosedParentheses, acc, isnullable) == wanted
        invariant Chained(fInstruction, pre, acc, chain)
        decreases |fPattern| - fPatternIdx
      {
        ghost var sofar := fInstruction;
        ghost var piece := ParsePiece(e, fPatternIdx, fNofParentheses, fClosedParentheses);
        var node, closureIsNullable := Closure();
        if node < 0 {
          return node, false;
        }
        isnullable := isnullable && closureIsNullable;
        HookPiece(chain, node, sofar, pre, acc, piece.value);
        acc := Snoc(acc, piece.value);
        chain := node;
      }
      ChainedIs(fInstruction, pre, acc, chain);
      if chain == -1 {
        var nothing := AppendNode(Nothing);
        EmptyCode();
      }
      ret := branch;
    }

    /** The first alternative, to which the opening node is hooked. */
    method FirstBranch(paren: bool, entry: nat) returns (branch: int, isnullable: bool)
      requires fPatternIdx <= |fPattern| && fNofParentheses > 0
      requires if paren
        then entry + 1 == |fInstruction| && fInstruction[entry].op.Open? && fInstruction[entry].next == 0
               else entry == |fInstruction|
      modifies this`fInstruction, this`fPatternIdx, this`fNofParentheses, this`fClosedParentheses
      ensures var r := old(ParseBranch(Environment(), fPatternIdx, fNofParentheses, fClosedParentheses));
        && branch == Returned(r, |old(fInstruction)|)
        && (r.Ok? ==>
              && fPatternIdx == r.idx && fNofParentheses == r.parens && fClosedParentheses == r.closed
              && isnullable == r.nullable
              && fInstruction == Opened(paren, entry, old(fInstruction)) + OpenCode(Only(PiecesRe(r.value))))
      ensures fNofParentheses > 0
      decreases |fPattern| - fPatternIdx, 4
    {
      hide ParseBranch, Emit, PiecesRe, OpenCode;
      ghost var parsed := ParseBranch(Environment(), fPatternIdx, fNofParentheses, fClosedParentheses);
      branch, isnullable := Branches();
      if branch < 0 {
        return branch, false;
      }
      if paren {
        SetNextOfEnd(entry, branch, entry);
      }
      OpenOnly(PiecesRe(parsed.value));
    }

    /** Reads branches separated by bars; `entry` is the opening node before them, if there is one,
        and otherwise the first branch node. */
    method Alternatives(paren: bool, entry: nat) returns (ret: int, isnullable: bool)
      requires fPatternIdx <= |fPattern| && fNofParentheses > 0
      requires if paren
        then entry + 1 == |fInstruction| && fInstruction[entry].op.Open? && fInstruction[entry].next == 0
               else entry == |fInstruction|
      modifies this`fInstruction, this`fPatternIdx, this`fNofParentheses, this`fClosedParentheses
      ensures var r := old(ParseAlts(Environment(), fPatternIdx, fNofParentheses, fClosedParentheses));
        && ret == Returned(r, entry)
        && (r.Ok? ==>
              && fPatternIdx == r.idx && fNofParentheses == r.parens && fClosedParentheses == r.closed
              && isnullable == r.nullable
              && fInstruction == Opened(paren, entry, old(fInstruction)) + OpenCode(AltsRe(r.value)))
      ensures fNofParentheses > 0
      decreases |fPattern| - fPatternIdx, 5
    {
      hide ParseBranch, Emit, EmitAlts, PiecesRe, BarCode, LastBranch, AddAlt, OpenCode, Chain;
      ghost var e := Environment();
      ghost var wanted := ParseAlts(e, fPatternIdx, fNofParentheses, fClosedParentheses);
      ghost var parsed := ParseBranch(e, fPatternIdx, fNofParentheses, fClosedParentheses);
      ghost var pre := Opened(paren, entry, fInstruction);
      var branch, branchnullable := FirstBranch(paren, entry);
      if branch < 0 {
        return branch, false;
      }
      isnullable := branchnullable;
      ghost var acc := One(parsed.value);
      while fPatternIdx < |fPattern| && fPattern[fPatternIdx] == '|'
        invariant old(fPatternIdx) <= fPatternIdx <= |fPattern| && fNofParentheses > 0
        invariant ParseBars(e, fPatternIdx, fNofParentheses, fClosedParentheses, acc, isnullable) == wanted
        invariant fInstruction == pre + OpenCode(AltsRe(acc))
        decreases |fPattern| - fPatternIdx
      {
        fPatternIdx := fPatternIdx + 1;
        parsed := ParseBranch(e, fPatternIdx, fNofParentheses, fClosedParentheses);
        branch, branchnullable := Branches();
        if branch < 0 {
          return branch, false;
        }
        AnotherBar(entry, branch, pre, AltsRe(acc), PiecesRe(parsed.value));
        isnullable := isnullable || branchnullable;
        acc := Bar(acc, parsed.value);
      }
      ret := entry;
    }

    /** Links one more alternative, just emitted, to those before it. */
    method AnotherBar(entry: nat, branch: nat, ghost pre: Code, ghost a: Alts, ghost t: Re)
      requires EntryOf(pre, entry) && branch == |pre| + |OpenCode(a)|
      requires fInstruction == pre + OpenCode(a) + ([Node(Branch, 0)] + Emit(t))
      modifies this`fInstruction
      ensures fInstruction == pre + OpenCode(AddAlt(a, t))
    {
      hide Emit, BarCode, LastBranch, AddAlt;
      ghost var y := [Node(Branch, 0)] + Emit(t);
      assert fInstruction == pre + (OpenCode(a) + y);
      LinkBars(entry, branch, pre, a, y);
      AddOpen(a, t);
    }

    /** A group, or the whole expression when no group is open yet. */
    method Expr() returns (ret: int, isnullable: bool)
      requires fPatternIdx <= |fPattern|
      requires fNofParentheses > 0 ==> fPatternIdx < |fPattern| && fPattern[fPatternIdx] == '('
      modifies this`fInstruction, this`fPatternIdx, this`fNofParentheses, this`fClosedParentheses
      ensures old(fNofParentheses) > 0 ==>
        var r := old(ParseParen(Environment(), fPatternIdx, fNofParentheses, fClosedParentheses));
        After(r, ret, isnullable, old(fInstruction), if r.Ok? then Emit(TermRe(r.value)) else [])
      ensures old(fNofParentheses) == 0 ==>
        var r := old(ParseAlts(Environment(), fPatternIdx, 1, fClosedParentheses));
        After(r, ret, isnullable, old(fInstruction), if r.Ok? then EmitProgram(AltsRe(r.value)) else [])
      ensures fNofParentheses > 0
      decreases |fPattern| - fPatternIdx, if fNofParentheses == 0 then 9 else -1
    {
      hide ParseAlts, Emit, EmitAlts, AltsRe, BarCode, LastBranch;
      ghost var before := fInstruction;
      var closeParens := fNofParentheses;
      var paren := closeParens > 0;
      var entry: nat := |fInstruction|;
      if !paren {
        fNofParentheses := 1;
      } else {
        fPatternIdx := fPatternIdx + 1;
        entry := AppendNode(Open(closeParens));
        fNofParentheses := closeParens + 1;
      }
      ghost var wanted := ParseAlts(Environment(), fPatternIdx, fNofParentheses, fClosedParentheses);
      ret, isnullable := Alternatives(paren, entry);
      if ret < 0 {
        return;
      }
      var last := End;
      if paren {
        if At(fPattern, fPatternIdx) != ')' {
          return -1, false;
        }
        fPatternIdx := fPatternIdx + 1;
        fClosedParentheses := fClosedParentheses + {closeParens};
        last := Close(closeParens);
      }
      ghost var pre := if paren then before + [Node(Open(closeParens), 1)] else before;
      FinishExpr(entry, last, pre, AltsRe(wanted.value));
      ParenCode(closeParens, wanted.value);
      assert paren ==> fInstruction == before + GroupCode(closeParens, EmitAlts(AltsRe(wanted.value)));
    }

    /** Appends the end node and points all branches and all their ends to it. */
    method FinishExpr(entry: nat, last: Op, ghost pre: Code, ghost a: Alts)
      requires EntryOf(pre, entry) && fInstruction == pre + OpenCode(a) && !last.Branch?
      modifies this`fInstruction
      ensures fInstruction == pre + (EmitAlts(a) + [Node(last, 0)])
    {
      hide EmitAlts, BarCode, LastBranch;
      var end := AppendNode(last);
      assert fInstruction == pre + (OpenCode(a) + [Node(last, 0)]);
      LinkBars(entry, end, pre, a, [Node(last, 0)]);
      HookBranches(entry, end, pre, a, Node(last, 0));
    }

    /** Compiles a pattern; an empty program denotes an error. */
    method Compile(pattern: string) returns (program: Code, prefix: string)
      modifies this
      ensures var r := Parse(Env(pattern, classAt, classOf));
        && program == (if r.Ok? then EmitProgram(AltsRe(r.value)) else [])
        && prefix == (if r.Ok? then CompiledPrefix(program) else "")
    {
      hide ParseAlts, AltsRe, EmitAlts;
      fPattern, fPatternIdx, fNofParentheses, fClosedParentheses, fInstruction := pattern, 0, 0, {}, [];
      program, prefix := [], "";
      var node, isnullable := Expr();
      if node >= 0 && fPatternIdx == |fPattern| {
        program := fInstruction;
        var first := fInstruction[0];
        if first.op == Branch && 0 <= first.next < |fInstruction| && fInstruction[first.next].op == End
           && 1 < |fInstruction| && fInstruction[1].op.Atom? {
          prefix := fInstruction[1].op.text;
        }
      }
    }
  }
}
