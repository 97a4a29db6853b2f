/** Searching: the leftmost match, the registers it leaves, and cutting a text at its matches. */
module ReSearch {
  import opened Text
  import opened ReCode
  import opened ReMatch
  import opened ReSim
  import opened ReRegisters

  /** Expressions whose program the engine can run: accepted by the compiler, with loops that advance,
      and short enough for 16-bit offsets. */
  ghost predicate Runnable(alts: Alts) {
    AcceptedAlts(alts) && LoopsAdvanceAlts(alts) && |EmitProgram(alts)| <= 0x8000
  }

  // ---------------------------------------------------------------------------------------
  // The leftmost match
  // ---------------------------------------------------------------------------------------

  /** Does some way to match start at `i`? */
  ghost predicate MatchesAt(x: Subject, alts: Alts, i: nat) {
    Wanted(x, alts, i).Some?
  }

  /** The first position from `i` on where the expression matches. */
  ghost function Leftmost(x: Subject, alts: Alts, i: nat): Option<nat>
    decreases |x.text| - i
  {
    if i > |x.text| then None
    else if MatchesAt(x, alts, i) then Some(i)
    else Leftmost(x, alts, i + 1)
  }

  lemma {:induction false} LeftmostIs(x: Subject, alts: Alts, i: nat)
    ensures var j := Leftmost(x, alts, i);
      && (j.Some? ==> i <= j.value <= |x.text| && MatchesAt(x, alts, j.value))
      && (forall k :: i <= k < (if j.Some? then j.value else |x.text| + 1) ==> !MatchesAt(x, alts, k))
    decreases |x.text| - i
  {
    if i <= |x.text| && !MatchesAt(x, alts, i) {
      LeftmostIs(x, alts, i + 1);
    }
  }

  /** Does the text go on with the prefix at `i`? */
  predicate PrefixAt(x: Subject, prefix: string, i: nat) {
    i + |prefix| <= |x.text| && SameText(x.icase, prefix, x.text[i..i + |prefix|])
  }

  /** The prefix that the compiler extracts is necessary for a match. */
  lemma PrefixNecessary(x: Subject, alts: Alts, i: nat)
    requires Runnable(alts) && i <= |x.text| && MatchesAt(x, alts, i)
    ensures PrefixAt(x, CStr(CompiledPrefix(EmitProgram(alts))), i)
  {
    hide EmitAlts, AltEnds, Ends, AcceptedAlts, LoopsAdvanceAlts, CStr;
    var p := EmitProgram(alts);
    CompiledProgramCorrect(alts, x, i);
    if CompiledPrefix(p) != "" {
      FirstAtomMatches(p, x, i, Wanted(x, alts, i).value);
    } else {
      NoPrefix(x, i);
    }
  }

  /** The literal that an expression begins with, if it is known. */
  function Opening(t: Re): Option<string> {
    match t
    case Leaf(op) => if op.Atom? then Some(op.text) else None
    case Cat(a, _) => Opening(a)
    case Plus(a) => Opening(a)
    case _ => None
  }

  lemma {:induction false} EmitOpens(t: Re)
    ensures Emit(t)[0].op.Atom? <==> Opening(t).Some?
    ensures Opening(t).Some? ==> Emit(t)[0].op.text == Opening(t).value
  {
    match t
    case Cat(a, b) => EmitOpens(a);
    case Plus(a) => EmitOpens(a);
    case _ =>
  }

  /** The prefix is the literal that an expression without alternatives begins with. */
  lemma PrefixExact(alts: Alts)
    ensures CompiledPrefix(EmitProgram(alts)) ==
      if alts.Only? && Opening(alts.re).Some? then Opening(alts.re).value else ""
  {
    hide Emit, Opening;
    EmitOpens(alts.re);
    var p := EmitProgram(alts);
    assert p[0] == Node(Branch, |Emit(alts.re)| + 1) && p[1].op == Emit(alts.re)[0].op;
    if alts.Or? {
      assert p[p[0].next] == EmitAlts(alts.rest)[0];
    }
  }

  lemma NoPrefix(x: Subject, i: nat)
    requires i <= |x.text|
    ensures PrefixAt(x, CStr(""), i)
  {
  }

  lemma FirstAtomMatches(p: Code, x: Subject, i: nat, st: State)
    requires CompiledPrefix(p) != "" && |p| <= 0x8000 && Yields(p, x, 0, Start(i), Some(st))
    ensures PrefixAt(x, CStr(CompiledPrefix(p)), i)
  {
    hide CStr;
    var f: nat :| Fuel(f) && Run(p, x, 0, Start(i), f) == Done(Some(st));
    ShortExact(p[0].next);
    assert RunNode(p, x, 0, Start(i), f - 1) == Done(Some(st));
    assert !IsBranch(p, p[0].next);
    assert Run(p, x, 1, Start(i), f - 1) == Done(Some(st));
    assert RunNode(p, x, 1, Start(i), f - 2) == Done(Some(st));
    assert Step(x, p[1].op, Start(i)).Go?;
  }

  // ---------------------------------------------------------------------------------------
  // Registers of a match
  // ---------------------------------------------------------------------------------------

  /** The registers after a match that starts at `i` and ends in state `st`. */
  function MatchStarts(i: nat, st: State): Registers {
    Filled(map[0 := i], map[], st.opens)
  }

  function MatchEnds(st: State): Registers {
    Filled(map[], map[], st.closes)[0 := st.pos]
  }

  /** After a match every group either has no register, or a start and an end with
      match start <= start <= end <= match end. */
  lemma RegistersInside(x: Subject, alts: Alts, i: nat, k: nat)
    requires AcceptedAlts(alts) && i <= |x.text| && MatchesAt(x, alts, i)
    ensures var st := Wanted(x, alts, i).value;
      var starts, ends := MatchStarts(i, st), MatchEnds(st);
      && 0 in starts && starts[0] == i && 0 in ends && i <= ends[0] <= |x.text|
      && (k in starts <==> k in ends)
      && (k in starts ==> starts[0] <= starts[k] <= ends[k] <= ends[0])
  {
    var st := Wanted(x, alts, i).value;
    AltEndsForward(x, alts, Start(i), st);
    AltEndsInside(x, alts, Start(i), st);
    assert Inside(Start(i), st, k);
  }

  /** A match lies inside the text, and is not empty if the expression cannot be. */
  lemma MatchForward(x: Subject, alts: Alts, i: nat)
    requires AcceptedAlts(alts) && i <= |x.text| && MatchesAt(x, alts, i)
    ensures var e := Wanted(x, alts, i).value.pos; i <= e <= |x.text| && (!CanBeEmptyAlts(alts) ==> i < e)
  {
    AltEndsForward(x, alts, Start(i), Wanted(x, alts, i).value);
  }

  // ---------------------------------------------------------------------------------------
  // Cutting a text at its matches
  // ---------------------------------------------------------------------------------------

  /** A stretch before a match and the match; `stuck` if the match was empty and at the position
      from which it was searched, in which case `before` holds the one character stepped over. */
  datatype Cut = Cut(before: string, found: string, stuck: bool)

  /** The cuts from `pos` on, at most `limit` of them if it is not negative, and what is left. */
  ghost function Cuts(x: Subject, alts: Alts, pos: nat, limit: int): (r: (seq<Cut>, string))
    requires AcceptedAlts(alts) && pos <= |x.text|
    decreases |x.text| - pos
  {
    LeftmostIs(x, alts, pos);
    var at := Leftmost(x, alts, pos);
    if limit == 0 || pos == |x.text| || at.None? then ([], x.text[pos..])
    else
      MatchForward(x, alts, at.value);
      var end := Wanted(x, alts, at.value).value.pos;
      var stuck := end == pos;
      var cut := Cut(x.text[pos..if stuck then pos + 1 else at.value], x.text[at.value..end], stuck);
      var (rest, tail) := Cuts(x, alts, if stuck then pos + 1 else end, limit - 1);
      ([cut] + rest, tail)
  }

  /** The pieces and the matches between them, in order. */
  function Spelled(cuts: seq<Cut>): string {
    if cuts == [] then "" else cuts[0].before + cuts[0].found + Spelled(cuts[1..])
  }

  function Befores(cuts: seq<Cut>): (l: seq<string>)
    ensures |l| == |cuts|
  {
    seq(|cuts|, i requires 0 <= i < |cuts| => cuts[i].before)
  }

  lemma BeforesMore(cuts: seq<Cut>, cut: Cut, rest: seq<Cut>)
    ensures Befores(cuts + [cut]) == Befores(cuts) + [cut.before]
    ensures cuts + [cut] + rest == cuts + ([cut] + rest)
  {
  }

  /** The text with every match replaced. */
  function Replaced(cuts: seq<Cut>, substitution: string): string {
    if cuts == [] then "" else cuts[0].before + substitution + Replaced(cuts[1..], substitution)
  }

  /** What `Subst` writes: a character stepped over after an empty match is lost. */
  function Written(cuts: seq<Cut>, substitution: string): string {
    if cuts == [] then ""
    else (if cuts[0].stuck then "" else cuts[0].before) + substitution + Written(cuts[1..], substitution)
  }

  lemma WrittenNone(substitution: string)
    ensures Written([], substitution) == ""
  {
  }

  lemma {:induction false} WrittenSnoc(cuts: seq<Cut>, cut: Cut, substitution: string)
    ensures Written(cuts + [cut], substitution)
      == Written(cuts, substitution) + (if cut.stuck then "" else cut.before) + substitution
  {
    if cuts != [] {
      assert (cuts + [cut])[1..] == cuts[1..] + [cut];
      WrittenSnoc(cuts[1..], cut, substitution);
    }
  }

  function Stuck(cuts: seq<Cut>): nat {
    if cuts == [] then 0 else (if cuts[0].stuck then 1 else 0) + Stuck(cuts[1..])
  }

  /** Is there another cut at `pos`? */
  ghost predicate CutAgain(x: Subject, alts: Alts, pos: nat, limit: int) {
    limit != 0 && pos < |x.text| && Leftmost(x, alts, pos).Some?
  }

  /** The first cut is taken from the text between `pos` and the position `next` behind it. */
  lemma FirstCut(x: Subject, alts: Alts, pos: nat, limit: int) returns (cut: Cut, next: nat)
    requires AcceptedAlts(alts) && CutAgain(x, alts, pos, limit)
    ensures pos < next <= |x.text| && cut.before + cut.found == x.text[pos..next]
    ensures cut.stuck ==> |cut.before| == 1
    ensures !CanBeEmptyAlts(alts) ==> !cut.stuck
    ensures CutExact(x, alts, pos, cut)
    ensures var rest := Cuts(x, alts, next, limit - 1);
      Cuts(x, alts, pos, limit) == ([cut] + rest.0, rest.1)
  {
    hide Wanted, AcceptedAlts, CanBeEmptyAlts;
    LeftmostIs(x, alts, pos);
    var at := Leftmost(x, alts, pos);
    MatchForward(x, alts, at.value);
    var end := Wanted(x, alts, at.value).value.pos;
    var stuck := end == pos;
    next := if stuck then pos + 1 else end;
    cut := Cut(x.text[pos..if stuck then pos + 1 else at.value], x.text[at.value..end], stuck);
  }

  lemma NoCut(x: Subject, alts: Alts, pos: nat, limit: int)
    requires AcceptedAlts(alts) && pos <= |x.text| && !CutAgain(x, alts, pos, limit)
    ensures Cuts(x, alts, pos, limit) == ([], x.text[pos..])
  {
    LeftmostIs(x, alts, pos);
  }

  /** Cutting loses nothing: pieces and matches in order spell the text. */
  lemma {:induction false} CutsSpell(x: Subject, alts: Alts, pos: nat, limit: int)
    requires AcceptedAlts(alts) && pos <= |x.text|
    ensures var r := Cuts(x, alts, pos, limit); Spelled(r.0) + r.1 == x.text[pos..]
    decreases |x.text| - pos
  {
    hide Cuts, CutAgain, AcceptedAlts;
    if CutAgain(x, alts, pos, limit) {
      var cut, next := FirstCut(x, alts, pos, limit);
      CutsSpell(x, alts, next, limit - 1);
      assert Cuts(x, alts, pos, limit).0[1..] == Cuts(x, alts, next, limit - 1).0;
      assert x.text[pos..] == x.text[pos..next] + x.text[next..];
    } else {
      NoCut(x, alts, pos, limit);
      assert "" + x.text[pos..] == x.text[pos..];
    }
  }

  /** No match begins between the two positions. */
  ghost predicate NoMatchIn(x: Subject, alts: Alts, from: nat, to: nat) {
    forall i :: from <= i < to ==> !MatchesAt(x, alts, i)
  }

  /** The cut at `pos` is made at the first match from there on: it holds the text before that match and the
      match; or, if the match is empty and at `pos` itself, the character there. */
  ghost predicate CutExact(x: Subject, alts: Alts, pos: nat, cut: Cut) {
    if cut.stuck then
      MatchesAt(x, alts, pos) && Wanted(x, alts, pos).value.pos == pos && |cut.before| == 1 && cut.found == ""
    else
      var at := pos + |cut.before|;
      && NoMatchIn(x, alts, pos, at) && MatchesAt(x, alts, at)
      && pos < at + |cut.found| == Wanted(x, alts, at).value.pos
  }

  /** All cuts are made that way, one behind the other, until `limit` of them have been made or no match is
      left; nothing is left out. */
  ghost predicate CutsExact(x: Subject, alts: Alts, pos: nat, limit: int, cuts: seq<Cut>, tail: string)
    decreases |cuts|
  {
    if cuts == [] then
      && pos <= |x.text| && tail == x.text[pos..]
      && (limit == 0 || pos == |x.text| || NoMatchIn(x, alts, pos, |x.text| + 1))
    else
      var next := pos + |cuts[0].before + cuts[0].found|;
      && limit != 0 && CutExact(x, alts, pos, cuts[0])
      && next <= |x.text| && cuts[0].before + cuts[0].found == x.text[pos..next]
      && CutsExact(x, alts, next, limit - 1, cuts[1..], tail)
  }

  /** Every cut is at the leftmost match from its position on, and no match is left over. */
  lemma {:induction false} CutsAreExact(x: Subject, alts: Alts, pos: nat, limit: int)
    requires AcceptedAlts(alts) && pos <= |x.text|
    ensures CutsExact(x, alts, pos, limit, Cuts(x, alts, pos, limit).0, Cuts(x, alts, pos, limit).1)
    decreases |x.text| - pos
  {
    hide Cuts, AcceptedAlts, Wanted;
    if CutAgain(x, alts, pos, limit) {
      var cut, next := FirstCut(x, alts, pos, limit);
      CutsAreExact(x, alts, next, limit - 1);
      assert Cuts(x, alts, pos, limit).0[1..] == Cuts(x, alts, next, limit - 1).0;
    } else {
      NoCut(x, alts, pos, limit);
      LeftmostIs(x, alts, pos);
    }
  }

  /** A stuck cut holds exactly one character. */
  ghost predicate StuckOnOne(cuts: seq<Cut>) {
    forall i :: 0 <= i < |cuts| ==> cuts[i].stuck ==> |cuts[i].before| == 1
  }

  /** A pattern that cannot be empty never gets stuck; the others step over one character each time. */
  lemma {:induction false} CutsMove(x: Subject, alts: Alts, pos: nat, limit: int)
    requires AcceptedAlts(alts) && pos <= |x.text|
    ensures StuckOnOne(Cuts(x, alts, pos, limit).0)
    ensures !CanBeEmptyAlts(alts) ==> Stuck(Cuts(x, alts, pos, limit).0) == 0
    decreases |x.text| - pos
  {
    hide Cuts, CutAgain, AcceptedAlts, CanBeEmptyAlts;
    if CutAgain(x, alts, pos, limit) {
      var cut, next := FirstCut(x, alts, pos, limit);
      CutsMove(x, alts, next, limit - 1);
      assert Cuts(x, alts, pos, limit).0[1..] == Cuts(x, alts, next, limit - 1).0;
    } else {
      NoCut(x, alts, pos, limit);
    }
  }

  /** One character is lost for every cut that got stuck, and nothing else changes. */
  lemma {:induction false} WrittenLength(cuts: seq<Cut>, substitution: string)
    requires StuckOnOne(cuts)
    ensures |Written(cuts, substitution)| + Stuck(cuts) == |Replaced(cuts, substitution)|
    ensures Stuck(cuts) == 0 ==> Written(cuts, substitution) == Replaced(cuts, substitution)
  {
    if cuts != [] {
      WrittenLength(cuts[1..], substitution);
    }
  }

  /** Substitution replaces every match and keeps the rest exactly when no cut is stuck. */
  lemma SubstExact(x: Subject, alts: Alts, limit: int, substitution: string)
    requires AcceptedAlts(alts)
    ensures var (cuts, tail) := Cuts(x, alts, 0, limit);
      Written(cuts, substitution) + tail == Replaced(cuts, substitution) + tail <==> Stuck(cuts) == 0
    ensures !CanBeEmptyAlts(alts) ==> Stuck(Cuts(x, alts, 0, limit).0) == 0
  {
    hide Cuts, Written, Replaced, Stuck, StuckOnOne, AcceptedAlts, CanBeEmptyAlts;
    var (cuts, tail) := Cuts(x, alts, 0, limit);
    CutsMove(x, alts, 0, limit);
    WrittenLength(cuts, substitution);
    assert |Written(cuts, substitution) + tail| + Stuck(cuts) == |Replaced(cuts, substitution) + tail|;
  }

  /** Substituting for the empty pattern loses text: the one character of "a" is not kept. */
  lemma SubstLosesCharacter(x: Subject)
    requires x.text == "a"
    ensures var (cuts, tail) := Cuts(x, Only(Empty), 0, -1);
      Written(cuts, "-") + tail == "-" && Replaced(cuts, "-") + tail == "a-"
  {
    var alts := Only(Empty);
    forall i: nat
      ensures Wanted(x, alts, i) == Some(Start(i))
    {
      assert AltEnds(x, alts, Start(i)) == [Start(i)];
    }
    assert Leftmost(x, alts, 0) == Some(0);
    assert x.text[1..] == "" && x.text[0..1] == "a" && x.text[0..0] == "";
    assert Cuts(x, alts, 1, -2) == ([], "");
    var cut := Cut("a", "", true);
    assert Cuts(x, alts, 0, -1) == ([cut] + Cuts(x, alts, 1, -2).0, "");
    assert [cut] + [] == [cut];
    assert [cut][1..] == [];
  }
}
