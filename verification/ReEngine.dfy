/** The matching engine: `MatchNodes` interprets a program by recursive backtracking and updates
    capture registers and back-reference stacks in place; searching, splitting and substituting
    are loops around it. */
module ReEngine {
  import opened Text
  import opened ReCode
  import opened ReMatch
  import opened ReSim
  import opened ReRegisters
  import opened ReParse
  import opened ReSearch
  import opened ReWays
  import opened ReGroups
  import opened RECompilers

  lemma ProgramNotEmpty(tree: Option<Alts>)
    ensures tree.Some? ==> |EmitProgram(tree.value)| > 0
  {
  }

  ghost predicate AcceptedTree(tree: Option<Alts>) {
    tree.Some? ==> AcceptedAlts(tree.value)
  }

  /** How a text is cut, at most `limit` times; not at all without a program. */
  ghost function CutUp(tree: Option<Alts>, x: Subject, pos: nat, limit: int): (seq<Cut>, string)
    requires AcceptedTree(tree) && pos <= |x.text|
  {
    if tree.None? then ([], x.text[pos..]) else Cuts(x, tree.value, pos, limit)
  }

  /** The match from `start` to `end` gives the first cut at `pos`. */
  ghost predicate CutAt(tree: Option<Alts>, x: Subject, pos: nat, limit: int, start: nat, end: nat, cut: Cut)
    requires AcceptedTree(tree) && pos < |x.text|
  {
    && pos <= start <= end <= |x.text| && (end == pos ==> start == pos)
    && cut == Cut(x.text[pos..if end == pos then pos + 1 else start], x.text[start..end], end == pos)
    && var rest := CutUp(tree, x, if end == pos then pos + 1 else end, limit - 1);
      CutUp(tree, x, pos, limit) == ([cut] + rest.0, rest.1)
  }

  /** Where a search from `i` on begins. */
  function NotBefore(i: int): nat {
    if i < 0 then 0 else i
  }

  class RE {
    var fProgram: Code
    var fPrefix: string
    var fSearch: string
    var fIcase: bool
    var fMultiline: bool
    var fDotNewline: bool
    /** Register n holds the start and the end of group n; register 0 those of the whole match. */
    var fStarts: Registers
    var fEnds: Registers
    var fOpens: Stacks
    var fCloses: Stacks
    /** The expression the program was compiled from, if there is a program. */
    ghost var fTree: Option<Alts>

    /** The engine holds no program, or one compiled from an expression, with or without its prefix. */
    ghost predicate Valid()
      reads this
    {
      match fTree
      case None => fProgram == []
      case Some(alts) =>
        && fProgram == EmitProgram(alts) && Runnable(alts) && SelfFreeAlts(alts)
        && (fPrefix == CStr(CompiledPrefix(fProgram)) || fPrefix == "")
    }

    /** Compiles a pattern; without a valid pattern there is no program. */
    constructor (pattern: string, icase: bool, multiline: bool, dotNewline: bool,
        classAt: (string, nat) -> Option<(set<char>, nat)>, classOf: char -> set<char>)
      ensures fIcase == icase && fMultiline == multiline && fDotNewline == dotNewline
      ensures var r := Parse(Env(pattern, classAt, classOf));
        && (r.Ok? ==> fTree == Some(AltsRe(r.value)) && (Valid() <==> Runnable(AltsRe(r.value))))
        && (!r.Ok? ==> fTree == None && Valid())
    {
      var compiler := new RECompiler(classAt, classOf);
      var program, prefix := compiler.Compile(pattern);
      ghost var r := Parse(Env(pattern, classAt, classOf));
      if r.Ok? {
        ParsedSelfFree(Env(pattern, classAt, classOf));
      }
      fProgram, fPrefix, fSearch := program, CStr(prefix), "";
      fIcase, fMultiline, fDotNewline := icase, multiline, dotNewline;
      fStarts, fEnds, fOpens, fCloses := map[], map[], map[], map[];
      fTree := if r.Ok? then Some(AltsRe(r.value)) else None;
    }

    function Searched(): Subject
      reads this
    {
      Subject(fSearch, fIcase, fMultiline, fDotNewline)
    }

    function Here(idx: nat): State
      reads this
    {
      State(idx, fOpens, fCloses)
    }

    /** The registers and stacks that a run with outcome `o` leaves behind. */
    ghost predicate LeavesBehind(r: int, o: Option<State>, starts: Registers, ends: Registers, opens: Stacks,
        closes: Stacks)
      reads this
    {
      match o
      case None => r == -1 && fStarts == starts && fEnds == ends && fOpens == opens && fCloses == closes
      case Some(st) =>
        && r == st.pos && fOpens == st.opens && fCloses == st.closes
        && fStarts == Filled(starts, opens, st.opens) && fEnds == Filled(ends, closes, st.closes)
    }

    /** Runs the program from `firstNode` at `idxStart`. On failure registers and stacks are as they
        were; the exits for corrupt programs are never reached. */
    method MatchNodes(firstNode: int, idxStart: nat, ghost fuel: nat) returns (r: int)
      requires NoneEmpty(fOpens) && NoneEmpty(fCloses)
      requires Run(fProgram, Searched(), firstNode, Here(idxStart), fuel).Done?
      modifies this`fStarts, this`fEnds, this`fOpens, this`fCloses
      ensures NoneEmpty(fOpens) && NoneEmpty(fCloses)
      ensures LeavesBehind(r, old(Run(fProgram, Searched(), firstNode, Here(idxStart), fuel)).result,
                old(fStarts), old(fEnds), old(fOpens), old(fCloses))
      decreases fuel, 1
    {
      var idx := idxStart;
      var node := firstNode;
      ghost var f := fuel;
      ghost var o := Run(fProgram, Searched(), firstNode, Here(idxStart), fuel);
      FilledSame(fStarts, fOpens);
      FilledSame(fEnds, fCloses);
      while node < |fProgram|
        invariant 0 < f <= fuel && Run(fProgram, Searched(), node, Here(idx), f) == o
        invariant fStarts == old(fStarts) && fEnds == old(fEnds) && fOpens == old(fOpens) && fCloses == old(fCloses)
        decreases f
      {
        f := f - 1;
        var next := node + Short(fProgram[node].next);
        match fProgram[node].op {
          case End => return idx;
          case Open(k) =>
            r := MatchOpen(k, next, idx, f);
            return;
          case Close(k) =>
            r := MatchClose(k, next, idx, f);
            return;
          case Branch =>
            if IsBranch(fProgram, next) {
              r := MatchBranches(node, idx, f);
              return;
            }
            next := node + 1;
          case op =>
            StepKeepsStacks(Searched(), op, Here(idx));
            match Step(Searched(), op, Here(idx)) {
              case Stop => return -1;
              case Go(st) =>
                assert st == Here(st.pos);
                idx := st.pos;
            }
        }
        node := next;
      }
      assert false;
    }

    /** `OP_OPEN`: pushes the position, and pops it again if the rest does not match. */
    method MatchOpen(k: nat, next: int, idx: nat, ghost fuel: nat) returns (r: int)
      requires NoneEmpty(fOpens) && NoneEmpty(fCloses)
      requires Run(fProgram, Searched(), next, State(idx, Push(fOpens, k, idx), fCloses), fuel).Done?
      modifies this`fStarts, this`fEnds, this`fOpens, this`fCloses
      ensures NoneEmpty(fOpens) && NoneEmpty(fCloses)
      ensures LeavesBehind(r,
                old(Run(fProgram, Searched(), next, State(idx, Push(fOpens, k, idx), fCloses), fuel)).result,
                old(fStarts), old(fEnds), old(fOpens), old(fCloses))
      decreases fuel, 2
    {
      hide Run, Filled, Extends;
      ghost var starts, opens, pushed := fStarts, fOpens, Push(fOpens, k, idx);
      PopUndoesPush(opens, k, idx);
      RunExtends(fProgram, Searched(), next, State(idx, pushed, fCloses), fuel);
      fOpens := fOpens[k := Stack(fOpens, k) + [idx]];
      r := MatchNodes(next, idx, fuel);
      if r != -1 {
        FilledStep(starts, opens, k, idx, fOpens);
        if k !in fStarts {
          fStarts := fStarts[k := idx];
        }
      } else {
        fOpens := Pop(fOpens, k);
      }
    }

    /** `OP_CLOSE`: the same for the ends of groups. */
    method MatchClose(k: nat, next: int, idx: nat, ghost fuel: nat) returns (r: int)
      requires NoneEmpty(fOpens) && NoneEmpty(fCloses)
      requires Run(fProgram, Searched(), next, State(idx, fOpens, Push(fCloses, k, idx)), fuel).Done?
      modifies this`fStarts, this`fEnds, this`fOpens, this`fCloses
      ensures NoneEmpty(fOpens) && NoneEmpty(fCloses)
      ensures LeavesBehind(r,
                old(Run(fProgram, Searched(), next, State(idx, fOpens, Push(fCloses, k, idx)), fuel)).result,
                old(fStarts), old(fEnds), old(fOpens), old(fCloses))
      decreases fuel, 2
    {
      hide Run, Filled, Extends;
      ghost var ends, closes, pushed := fEnds, fCloses, Push(fCloses, k, idx);
      PopUndoesPush(closes, k, idx);
      RunExtends(fProgram, Searched(), next, State(idx, fOpens, pushed), fuel);
      fCloses := fCloses[k := Stack(fCloses, k) + [idx]];
      r := MatchNodes(next, idx, fuel);
      if r != -1 {
        FilledStep(ends, closes, k, idx, fCloses);
        if k !in fEnds {
          fEnds := fEnds[k := idx];
        }
      } else {
        fCloses := Pop(fCloses, k);
      }
    }

    /** `OP_BRANCH` with several alternatives: tries one after the other. */
    method MatchBranches(first: nat, idx: nat, ghost fuel: nat) returns (r: int)
      requires NoneEmpty(fOpens) && NoneEmpty(fCloses)
      requires first < |fProgram| && Choices(fProgram, Searched(), first, Here(idx), fuel).Done?
      modifies this`fStarts, this`fEnds, this`fOpens, this`fCloses
      ensures NoneEmpty(fOpens) && NoneEmpty(fCloses)
      ensures LeavesBehind(r, old(Choices(fProgram, Searched(), first, Here(idx), fuel)).result,
                old(fStarts), old(fEnds), old(fOpens), old(fCloses))
      decreases fuel, 2
    {
      hide Run, Filled;
      ghost var f := fuel;
      ghost var o := Choices(fProgram, Searched(), first, Here(idx), fuel);
      var node: int := first;
      while true
        invariant 0 <= node < |fProgram| && 0 < f <= fuel && Choices(fProgram, Searched(), node, Here(idx), f) == o
        invariant fStarts == old(fStarts) && fEnds == old(fEnds) && fOpens == old(fOpens) && fCloses == old(fCloses)
        decreases f
      {
        f := f - 1;
        r := MatchNodes(node + 1, idx, f);
        if r != -1 {
          return;
        }
        var nextBranch := fProgram[node].next;
        if nextBranch == 0 || !IsBranch(fProgram, node + nextBranch) {
          return -1;
        }
        node := node + nextBranch;
      }
    }

    // -------------------------------------------------------------------------------------
    // Searching
    // -------------------------------------------------------------------------------------

    /** Registers as a search for the expression from `i` on leaves them: those of the leftmost match. */
    ghost predicate Found(alts: Alts, i: nat, found: bool)
      reads this
    {
      match Leftmost(Searched(), alts, i)
      case None => !found && fStarts == map[] && fEnds == map[]
      case Some(j) =>
        found && j <= |fSearch| && MatchesAt(Searched(), alts, j) &&
        var st := Wanted(Searched(), alts, j).value;
        fStarts == MatchStarts(j, st) && fEnds == MatchEnds(st)
    }

    /** Tries to match at `i` and nowhere else; there is no match before the text. */
    method MatchAt(i: int) returns (found: bool)
      requires Valid() && fTree.Some? && i <= |fSearch|
      modifies this`fStarts, this`fEnds, this`fOpens, this`fCloses
      ensures Valid()
      ensures found == (i >= 0 && MatchesAt(Searched(), fTree.value, i))
      ensures found ==> var st := Wanted(Searched(), fTree.value, i).value;
        fStarts == MatchStarts(i, st) && fEnds == MatchEnds(st)
      ensures !found ==> fStarts == map[] && fEnds == map[]
    {
      hide Run, Filled, AcceptedAlts, LoopsAdvanceAlts, EmitAlts, AltEnds;
      if i >= 0 {
        ghost var o := Wanted(Searched(), fTree.value, i);
        CompiledProgramCorrect(fTree.value, Searched(), i);
        ghost var fuel: nat :| Fuel(fuel) && Run(fProgram, Searched(), 0, Start(i), fuel) == Done(o);
        fStarts, fEnds := map[0 := i], map[];
        fOpens, fCloses := map[], map[];
        var idx := MatchNodes(0, i, fuel);
        if idx != -1 {
          fEnds := fEnds[0 := idx];
          return true;
        }
      }
      fStarts, fEnds := map[], map[];
      found := false;
    }

    /** Searches the leftmost match from `i` on, or from the start of the text if `i` is negative. The
        contract does not depend on the prefix. */
    method ContainedIn(search: string, i: int) returns (found: bool)
      requires Valid()
      modifies this`fSearch, this`fStarts, this`fEnds, this`fOpens, this`fCloses
      ensures Valid()
      ensures fTree.None? ==> !found && fStarts == map[] && fEnds == map[]
      ensures fTree.Some? ==> fSearch == search && Found(fTree.value, NotBefore(i), found)
    {
      hide Wanted, AcceptedAlts, LoopsAdvanceAlts, EmitAlts;
      fStarts, fEnds := map[], map[];
      if |fProgram| == 0 {
        ProgramNotEmpty(fTree);
        return false;
      }
      fSearch := search;
      if |fPrefix| == 0 {
        found := PlainScan(i);
      } else {
        found := PrefixScan(i);
      }
    }

    /** Without a prefix every position is tried. */
    method PlainScan(i: int) returns (found: bool)
      requires Valid() && fTree.Some? && fStarts == map[] && fEnds == map[]
      modifies this`fStarts, this`fEnds, this`fOpens, this`fCloses
      ensures Valid() && Found(fTree.value, NotBefore(i), found)
    {
      hide Wanted, Valid, MatchStarts, MatchEnds;
      ghost var wanted := Leftmost(Searched(), fTree.value, NotBefore(i));
      var j := i;
      while j <= |fSearch|
        invariant Valid() && Leftmost(Searched(), fTree.value, NotBefore(j)) == wanted
        invariant fStarts == map[] && fEnds == map[]
      {
        found := MatchAt(j);
        if found {
          return;
        }
        j := j + 1;
      }
      return false;
    }

    /** With a prefix only the positions where the prefix stands are tried. */
    method PrefixScan(i: int) returns (found: bool)
      requires Valid() && fTree.Some? && fStarts == map[] && fEnds == map[] && fPrefix != ""
      modifies this`fStarts, this`fEnds, this`fOpens, this`fCloses
      ensures Valid() && Found(fTree.value, NotBefore(i), found)
    {
      hide Wanted, Valid, MatchStarts, MatchEnds, MatchesAt;
      ghost var wanted := Leftmost(Searched(), fTree.value, NotBefore(i));
      var j := i;
      while j + |fPrefix| <= |fSearch|
        invariant Valid() && Leftmost(Searched(), fTree.value, NotBefore(j)) == wanted
        invariant fStarts == map[] && fEnds == map[]
      {
        var here := SameText(fIcase, fPrefix, SubString(fSearch, j, |fPrefix|));
        if j >= 0 {
          PrefixOrNoMatch(j);
        }
        if here {
          found := MatchAt(j);
          if found {
            return;
          }
        }
        j := j + 1;
      }
      NoRoomForPrefix(NotBefore(j));
      return false;
    }

    lemma PrefixOrNoMatch(j: nat)
      requires Valid() && fTree.Some? && fPrefix != "" && j <= |fSearch|
      ensures MatchesAt(Searched(), fTree.value, j) ==> PrefixAt(Searched(), fPrefix, j)
    {
      if MatchesAt(Searched(), fTree.value, j) {
        PrefixNecessary(Searched(), fTree.value, j);
      }
    }

    lemma {:induction false} NoRoomForPrefix(j: nat)
      requires Valid() && fTree.Some? && fPrefix != "" && j + |fPrefix| > |fSearch|
      ensures Leftmost(Searched(), fTree.value, j) == None
      decreases |fSearch| - j
    {
      if j <= |fSearch| {
        PrefixOrNoMatch(j);
        NoRoomForPrefix(j + 1);
      }
    }

    // -------------------------------------------------------------------------------------
    // Splitting and substituting
    // -------------------------------------------------------------------------------------

    /** One turn of the loops below: the registers of the match found give the first cut. */
    lemma TakeCut(s: string, pos: nat, limit: int) returns (cut: Cut)
      requires Valid() && fTree.Some? && pos < |s| && fSearch == s && limit != 0 && Found(fTree.value, pos, true)
      ensures 0 in fStarts && 0 in fEnds && pos <= fStarts[0] <= fEnds[0] <= |s|
      ensures cut.stuck == (fEnds[0] == pos) && (cut.stuck ==> fStarts[0] == pos)
      ensures cut.before == s[pos..if cut.stuck then pos + 1 else fStarts[0]]
      ensures cut.found == s[fStarts[0]..fEnds[0]]
      ensures var rest := CutUp(fTree, Searched(), if cut.stuck then pos + 1 else fEnds[0], limit - 1);
        CutUp(fTree, Searched(), pos, limit) == ([cut] + rest.0, rest.1)
    {
      hide Wanted, AcceptedAlts, LoopsAdvanceAlts, Filled;
      var x, alts := Searched(), fTree.value;
      LeftmostIs(x, alts, pos);
      var j := Leftmost(x, alts, pos).value;
      RegistersInside(x, alts, j, 0);
      var end := Wanted(x, alts, j).value.pos;
      cut := Cut(s[pos..if end == pos then pos + 1 else j], s[j..end], end == pos);
    }

    lemma NoMoreCuts(s: string, pos: nat, limit: int)
      requires Valid() && pos <= |s|
      requires fTree.None? || limit == 0 || pos == |s| || (fSearch == s && Found(fTree.value, pos, false))
      ensures CutUp(fTree, Subject(s, fIcase, fMultiline, fDotNewline), pos, limit) == ([], s[pos..])
    {
    }

    lemma ValidAccepted()
      requires Valid()
      ensures AcceptedTree(fTree)
    {
    }

    /** Searches from `pos` on and reads register 0. */
    method NextMatch(s: string, pos: nat, ghost limit: int) returns (found: bool, start: nat, end: nat, ghost cut: Cut)
      requires Valid() && pos < |s| && limit != 0
      modifies this`fSearch, this`fStarts, this`fEnds, this`fOpens, this`fCloses
      ensures Valid()
      ensures found ==> CutAt(fTree, Subject(s, fIcase, fMultiline, fDotNewline), pos, limit, start, end, cut)
      ensures !found ==> CutUp(fTree, Subject(s, fIcase, fMultiline, fDotNewline), pos, limit) == ([], s[pos..])
    {
      hide Valid, Found, Cuts, CutUp, AcceptedTree;
      ValidAccepted();
      start, end, cut := pos, pos, Cut("", "", false);
      found := ContainedIn(s, pos);
      if found {
        cut := TakeCut(s, pos, limit);
        start, end := fStarts[0], fEnds[0];
      } else {
        NoMoreCuts(s, pos, limit);
      }
    }

    /** Cuts the text between the matches. */
    method Split(s: string) returns (res: seq<string>)
      requires Valid()
      modifies this`fSearch, this`fStarts, this`fEnds, this`fOpens, this`fCloses
      ensures Valid()
      ensures var (cuts, tail) := CutUp(fTree, Subject(s, fIcase, fMultiline, fDotNewline), 0, -1);
        res == Befores(cuts) + (if tail == "" then [] else [tail])
    {
      hide Valid, Found, Cuts, CutUp, AcceptedTree, Befores;
      ValidAccepted();
      res := [];
      var pos := 0;
      ghost var done: seq<Cut>, limit := [], -1;
      ghost var tree, x := fTree, Subject(s, fIcase, fMultiline, fDotNewline);
      ghost var all, tail := CutUp(tree, x, 0, limit).0, CutUp(tree, x, 0, limit).1;
      while pos < |s|
        invariant Valid() && pos <= |s| && limit < 0 && res == Befores(done)
        invariant var rest := CutUp(tree, x, pos, limit); done + rest.0 == all && rest.1 == tail
      {
        var found, start, newpos, cut := NextMatch(s, pos, limit);
        if !found {
          break;
        }
        if newpos == pos {
          res := res + [s[pos..start + 1]];
          newpos := newpos + 1;
        } else {
          res := res + [s[pos..start]];
        }
        BeforesMore(done, cut, CutUp(tree, x, newpos, limit - 1).0);
        pos, done, limit := newpos, done + [cut], limit - 1;
      }
      if pos == |s| {
        NoMoreCuts(s, pos, limit);
      }
      assert done + [] == done;
      var remainder := s[pos..];
      if |remainder| != 0 {
        res := res + [remainder];
      }
    }

    /** Replaces all matches, or the first one only. */
    method Subst(substituteIn: string, substitution: string, replaceall: bool) returns (ret: string)
      requires Valid()
      modifies this`fSearch, this`fStarts, this`fEnds, this`fOpens, this`fCloses
      ensures Valid()
      ensures var (cuts, tail) := CutUp(fTree, Subject(substituteIn, fIcase, fMultiline, fDotNewline), 0,
                                        if replaceall then -1 else 1);
        ret == Written(cuts, substitution) + tail
    {
      hide Valid, Found, Cuts, CutUp, AcceptedTree, Written;
      ValidAccepted();
      ret := "";
      WrittenNone(substitution);
      var pos := 0;
      ghost var done: seq<Cut>, limit := [], if replaceall then -1 else 1;
      ghost var tree, x := fTree, Subject(substituteIn, fIcase, fMultiline, fDotNewline);
      ghost var all, tail := CutUp(tree, x, 0, limit).0, CutUp(tree, x, 0, limit).1;
      while pos < |substituteIn|
        invariant Valid() && pos <= |substituteIn| && (if replaceall then limit < 0 else limit == 1)
        invariant ret == Written(done, substitution)
        invariant var rest := CutUp(tree, x, pos, limit); done + rest.0 == all && rest.1 == tail
      {
        var found, start, newpos, cut := NextMatch(substituteIn, pos, limit);
        if !found {
          break;
        }
        WrittenSnoc(done, cut, substitution);
        assert substituteIn[pos..start] == if cut.stuck then "" else cut.before;
        ret := ret + substituteIn[pos..start] + substitution;
        if newpos == pos {
          newpos := newpos + 1;
        }
        pos, done, limit := newpos, done + [cut], limit - 1;
        if !replaceall {
          break;
        }
      }
      if pos == |substituteIn| || limit == 0 {
        NoMoreCuts(substituteIn, pos, limit);
      }
      assert all == done && tail == substituteIn[pos..];
      if pos < |substituteIn| {
        ret := ret + substituteIn[pos..];
      }
    }

    /** The registers are as a search from `i` on has left them. */
    ghost predicate Settled(i: nat, found: bool)
      reads this
    {
      if fTree.None? then !found && fStarts == map[] && fEnds == map[] else Found(fTree.value, i, found)
    }

    /** The text of a group after a search: that of group 0 is the leftmost match, that of another group is
        what it matched the last time it was passed on the preferred way, and it lies inside the match;
        groups that took no part have none. */
    method GetMatch(which: nat, ghost i: nat, ghost found: bool) returns (s: string)
      requires Valid() && Settled(i, found)
      ensures found ==> 0 in fStarts && 0 in fEnds && fStarts[0] <= fEnds[0] <= |fSearch|
      ensures found && which == 0 ==>
        Leftmost(Searched(), fTree.value, i) == Some(fStarts[0]) && s == fSearch[fStarts[0]..fEnds[0]]
      ensures found && which in fStarts ==>
        which in fEnds && fStarts[0] <= fStarts[which] <= fEnds[which] <= fEnds[0]
        && s == fSearch[fStarts[which]..fEnds[which]]
      ensures found && which > 0 ==>
        exists w :: IsPreferred(Searched(), fTree.value, fStarts[0], w)
          && s == PassedText(Searched(), fTree.value, fStarts[0], w, which)
      ensures !found || which !in fStarts ==> s == ""
    {
      hide Valid, Leftmost, MatchStarts, MatchEnds, Wanted, WalkAlts, IsPreferred, PassedText;
      s := "";
      if which in fStarts {
        if found {
          FoundInside(i, which);
        }
        s := fSearch[fStarts[which]..fEnds[which]];
      }
      if found {
        FoundInside(i, which);
        if which > 0 {
          var w := GroupPassed(i, which);
        }
      }
    }

    /** The registers of a group tell where it was passed last on the preferred way. */
    lemma GroupPassed(i: nat, which: nat) returns (w: Way)
      requires Valid() && fTree.Some? && Found(fTree.value, i, true) && which > 0
      ensures 0 in fStarts && IsPreferred(Searched(), fTree.value, fStarts[0], w)
      ensures PassedText(Searched(), fTree.value, fStarts[0], w, which) ==
        if which in fStarts && which in fEnds && fStarts[which] <= fEnds[which] <= |fSearch|
        then fSearch[fStarts[which]..fEnds[which]] else ""
      ensures which in fStarts ==>
        && which in fEnds
        && LastSpan(SpansAlts(Searched(), fTree.value, w, Start(fStarts[0])), which)
          == Some(Span(which, fStarts[which], fEnds[which]))
    {
      hide Leftmost, MatchStarts, MatchEnds, Wanted, WalkAlts, SpansAlts, Runnable, SelfFreeAlts;
      FoundInside(i, which);
      var j := fStarts[0];
      MatchPreferred(Searched(), fTree.value, j);
      w :| IsPreferred(Searched(), fTree.value, j, w);
      RegistersExact(Searched(), fTree.value, j, w, which);
      LastSpanIs(SpansAlts(Searched(), fTree.value, w, Start(j)), which);
    }

    /** After a successful search every group with a register lies inside the match. */
    lemma FoundInside(i: nat, which: nat)
      requires Valid() && fTree.Some? && Found(fTree.value, i, true)
      ensures 0 in fStarts && 0 in fEnds && fStarts[0] <= fEnds[0] <= |fSearch|
      ensures Leftmost(Searched(), fTree.value, i) == Some(fStarts[0])
      ensures which in fStarts <==> which in fEnds
      ensures which in fStarts ==> fStarts[0] <= fStarts[which] <= fEnds[which] <= fEnds[0]
    {
      hide Leftmost, MatchStarts, MatchEnds, Wanted, AcceptedAlts;
      RegistersInside(Searched(), fTree.value, Leftmost(Searched(), fTree.value, i).value, which);
    }
  }
}
