/** What an expression without back-references means, said without any order or state: which
    stretches of the text it matches. Backtracking finds exactly those. */
module ReLang {
  import opened Text
  import opened ReCode
  import opened ReMatch
  import opened ReSim
  import opened ReParse

  predicate NoBackRef(t: Re) {
    match t
    case Leaf(op) => !op.BackRef?
    case Empty => true
    case Cat(a, b) => NoBackRef(a) && NoBackRef(b)
    case Maybe(a) => NoBackRef(a)
    case Star(a) => NoBackRef(a)
    case Plus(a) => NoBackRef(a)
    case Group(_, alts) => NoBackRefAlts(alts)
  }

  predicate NoBackRefAlts(alts: Alts) {
    match alts
    case Only(t) => NoBackRef(t)
    case Or(t, rest) => NoBackRef(t) && NoBackRefAlts(rest)
  }

  predicate WordBoundary(s: string, i: nat) {
    (0 < i <= |s| && IsAlnum(s[i - 1])) != (i < |s| && IsAlnum(s[i]))
  }

  /** Stretches that a single terminal matches. */
  predicate LeafMatches(x: Subject, op: Op, i: nat, j: nat)
    requires i <= j <= |x.text|
  {
    match op
    case Bol => i == j && (i == 0 || (x.multiline && x.text[i - 1] == '\n'))
    case Eol => i == j && (i == |x.text| || (x.multiline && x.text[i] == '\n'))
    case Any => j == i + 1 && (x.dotNewline || x.text[i] != '\n')
    case AnyOf(members) => j == i + 1 && (if x.icase then ToLower(x.text[i]) else x.text[i]) in members
    case Atom(text) => SameText(x.icase, CStr(text), x.text[i..j])
    case Bow(positive) => i == j && WordBoundary(x.text, i) == positive
    case _ => false
  }

  /** Does `t` match the text between `i` and `j`? */
  ghost predicate Matches(x: Subject, t: Re, i: nat, j: nat)
    requires i <= j <= |x.text|
    decreases t, 0
  {
    match t
    case Leaf(op) => LeafMatches(x, op, i, j)
    case Empty => i == j
    case Cat(a, b) => exists k :: i <= k <= j && Matches(x, a, i, k) && Matches(x, b, k, j)
    case Maybe(a) => i == j || Matches(x, a, i, j)
    case Star(a) => exists n: nat :: Repeats(x, a, n, i, j)
    case Plus(a) => exists n: nat :: n > 0 && Repeats(x, a, n, i, j)
    case Group(_, alts) => MatchesAlts(x, alts, i, j)
  }

  ghost predicate MatchesAlts(x: Subject, alts: Alts, i: nat, j: nat)
    requires i <= j <= |x.text|
    decreases alts, 0
  {
    match alts
    case Only(t) => Matches(x, t, i, j)
    case Or(t, rest) => Matches(x, t, i, j) || MatchesAlts(x, rest, i, j)
  }

  /** `n` matches of `t` in a row. */
  ghost predicate Repeats(x: Subject, t: Re, n: nat, i: nat, j: nat)
    requires i <= j <= |x.text|
    decreases t, n
  {
    if n == 0 then i == j
    else exists k :: i <= k <= j && Matches(x, t, i, k) && Repeats(x, t, n - 1, k, j)
  }

  lemma CatParts(x: Subject, a: Re, b: Re, i: nat, j: nat) returns (k: nat)
    requires i <= j <= |x.text| && Matches(x, Cat(a, b), i, j)
    ensures i <= k <= j && Matches(x, a, i, k) && Matches(x, b, k, j)
  {
    k :| i <= k <= j && Matches(x, a, i, k) && Matches(x, b, k, j);
  }

  lemma StarCount(x: Subject, a: Re, i: nat, j: nat) returns (n: nat)
    requires i <= j <= |x.text| && Matches(x, Star(a), i, j)
    ensures Repeats(x, a, n, i, j)
  {
    n :| Repeats(x, a, n, i, j);
  }

  lemma FirstRound(x: Subject, t: Re, n: nat, i: nat, j: nat) returns (k: nat)
    requires i <= j <= |x.text| && n > 0 && Repeats(x, t, n, i, j)
    ensures i <= k <= j && Matches(x, t, i, k) && Repeats(x, t, n - 1, k, j)
  {
    k :| i <= k <= j && Matches(x, t, i, k) && Repeats(x, t, n - 1, k, j);
  }

  // ---------------------------------------------------------------------------------------
  // Backtracking finds only matches
  // ---------------------------------------------------------------------------------------

  lemma LeafExact(x: Subject, op: Op, st: State, j: nat)
    requires IsTerminalOp(op) && !op.BackRef? && st.pos <= j <= |x.text|
    ensures st.(pos := j) in Ends(x, Leaf(op), st) <==> LeafMatches(x, op, st.pos, j)
  {
  }

  lemma {:induction false} EndsMatch(x: Subject, t: Re, st: State, r: State)
    requires Accepted(t) && NoBackRef(t) && st.pos <= |x.text| && r in Ends(x, t, st)
    ensures st.pos <= r.pos <= |x.text| && Matches(x, t, st.pos, r.pos)
    decreases t, Left(x, st), 0, 0
  {
    EndsForward(x, t, st, r);
    match t
    case Leaf(op) =>
      assert r == st.(pos := r.pos);
      LeafExact(x, op, st, r.pos);
    case Empty =>
    case Cat(a, b) =>
      var e := EndsAllFrom(x, b, Ends(x, a, st), r);
      EndsMatch(x, a, st, e);
      EndsMatch(x, b, e, r);
    case Maybe(a) =>
      if r in Ends(x, a, st) {
        EndsMatch(x, a, st, r);
      }
    case Star(a) => var n := LoopMatches(x, a, st, r);
    case Plus(a) =>
      var e := LoopAllFrom(x, a, Ends(x, a, st), r);
      EndsMatch(x, a, st, e);
      var n := LoopMatches(x, a, e, r);
      assert Repeats(x, a, n + 1, st.pos, r.pos);
    case Group(k, alts) =>
      var st1 := st.(opens := Push(st.opens, k, st.pos));
      var e := CloseAllFrom(AltEnds(x, alts, st1), k, r);
      AltEndsMatch(x, alts, st1, e);
  }

  lemma {:induction false} LoopMatches(x: Subject, a: Re, st: State, r: State) returns (n: nat)
    requires Accepted(a) && NoBackRef(a) && st.pos <= |x.text| && r in Loop(x, a, st)
    ensures st.pos <= r.pos <= |x.text| && Repeats(x, a, n, st.pos, r.pos)
    decreases a, Left(x, st), 1, 0
  {
    LoopForward(x, a, st, r);
    var more := Advanced(x, Ends(x, a, st), st.pos);
    if r in LoopAll(x, a, more) {
      var e := LoopAllFrom(x, a, more, r);
      AdvancedIn(x, Ends(x, a, st), st.pos, e);
      EndsMatch(x, a, st, e);
      var m := LoopMatches(x, a, e, r);
      n := m + 1;
    } else {
      n := 0;
    }
  }

  lemma {:induction false} AltEndsMatch(x: Subject, alts: Alts, st: State, r: State)
    requires AcceptedAlts(alts) && NoBackRefAlts(alts)
    requires st.pos <= |x.text| && r in AltEnds(x, alts, st)
    ensures st.pos <= r.pos <= |x.text| && MatchesAlts(x, alts, st.pos, r.pos)
    decreases alts, Left(x, st), 0, 0
  {
    match alts
    case Only(t) => EndsMatch(x, t, st, r);
    case Or(t, rest) =>
      if r in Ends(x, t, st) {
        EndsMatch(x, t, st, r);
      } else {
        AltEndsMatch(x, rest, st, r);
      }
  }

  // ---------------------------------------------------------------------------------------
  // Backtracking finds every match
  // ---------------------------------------------------------------------------------------

  lemma {:induction false} MatchEnds(x: Subject, t: Re, st: State, j: nat) returns (r: State)
    requires Accepted(t) && LoopsAdvance(t) && NoBackRef(t)
    requires st.pos <= j <= |x.text| && Matches(x, t, st.pos, j)
    ensures r in Ends(x, t, st) && r.pos == j
    decreases t, 0
  {
    match t
    case Leaf(op) =>
      LeafExact(x, op, st, j);
      r := st.(pos := j);
    case Empty => r := st;
    case Cat(a, b) =>
      var k := CatParts(x, a, b, st.pos, j);
      var e := MatchEnds(x, a, st, k);
      r := MatchEnds(x, b, e, j);
      InEndsAll(x, b, Ends(x, a, st), e, r);
    case Maybe(a) =>
      if st.pos == j {
        r := st;
      } else {
        r := MatchEnds(x, a, st, j);
      }
    case Star(a) =>
      var n := StarCount(x, a, st.pos, j);
      r := RepeatEnds(x, a, n, st, j);
    case Plus(a) =>
      var n: nat :| n > 0 && Repeats(x, a, n, st.pos, j);
      var k := FirstRound(x, a, n, st.pos, j);
      var e := MatchEnds(x, a, st, k);
      r := RepeatEnds(x, a, n - 1, e, j);
      InLoopAll(x, a, Ends(x, a, st), e, r);
    case Group(k, alts) =>
      var st1 := st.(opens := Push(st.opens, k, st.pos));
      var e := MatchAltEnds(x, alts, st1, j);
      CloseAllIn(AltEnds(x, alts, st1), k, e);
      r := CloseOne(e, k);
  }

  lemma {:induction false} RepeatEnds(x: Subject, a: Re, n: nat, st: State, j: nat) returns (r: State)
    requires Accepted(a) && !CanBeEmpty(a) && LoopsAdvance(a) && NoBackRef(a)
    requires st.pos <= j <= |x.text| && Repeats(x, a, n, st.pos, j)
    ensures r in Loop(x, a, st) && r.pos == j
    decreases a, n
  {
    if n == 0 {
      r := st;
    } else {
      var k := FirstRound(x, a, n, st.pos, j);
      var e := MatchEnds(x, a, st, k);
      r := RepeatEnds(x, a, n - 1, e, j);
      AllAdvance(x, a, st);
      InLoopAll(x, a, Ends(x, a, st), e, r);
    }
  }

  lemma {:induction false} MatchAltEnds(x: Subject, alts: Alts, st: State, j: nat) returns (r: State)
    requires AcceptedAlts(alts) && LoopsAdvanceAlts(alts) && NoBackRefAlts(alts)
    requires st.pos <= j <= |x.text| && MatchesAlts(x, alts, st.pos, j)
    ensures r in AltEnds(x, alts, st) && r.pos == j
    decreases alts, 0
  {
    match alts
    case Only(t) => r := MatchEnds(x, t, st, j);
    case Or(t, rest) =>
      if Matches(x, t, st.pos, j) {
        r := MatchEnds(x, t, st, j);
      } else {
        r := MatchAltEnds(x, rest, st, j);
      }
  }

  /** Does the expression match some stretch that begins at `i`? */
  ghost predicate MatchesSome(x: Subject, alts: Alts, i: nat) {
    exists j :: i <= j <= |x.text| && MatchesAlts(x, alts, i, j)
  }

  /** A match attempt at `i` fails exactly if the expression matches no stretch from `i` on; if it
      succeeds it has found such a stretch. */
  lemma WantedExact(x: Subject, alts: Alts, i: nat)
    requires AcceptedAlts(alts) && LoopsAdvanceAlts(alts) && NoBackRefAlts(alts) && i <= |x.text|
    ensures Wanted(x, alts, i).Some? <==> MatchesSome(x, alts, i)
    ensures Wanted(x, alts, i).Some? ==>
      var j := Wanted(x, alts, i).value.pos; i <= j <= |x.text| && MatchesAlts(x, alts, i, j)
  {
    hide AcceptedAlts, LoopsAdvanceAlts, NoBackRefAlts, AltEnds, MatchesAlts;
    if Wanted(x, alts, i).Some? {
      AltEndsMatch(x, alts, Start(i), Wanted(x, alts, i).value);
    }
    if MatchesSome(x, alts, i) {
      var j :| i <= j <= |x.text| && MatchesAlts(x, alts, i, j);
      var r := MatchAltEnds(x, alts, Start(i), j);
      assert |AltEnds(x, alts, Start(i))| > 0;
    }
  }

  // ---------------------------------------------------------------------------------------
  // Counted repetition
  // ---------------------------------------------------------------------------------------

  lemma {:induction false} RepeatsSnoc(x: Subject, t: Re, n: nat, i: nat, k: nat, j: nat)
    requires i <= k <= j <= |x.text| && Repeats(x, t, n, i, k) && Matches(x, t, k, j)
    ensures Repeats(x, t, n + 1, i, j)
  {
    if n == 0 {
      assert Repeats(x, t, 0, j, j);
    } else {
      var m := FirstRound(x, t, n, i, k);
      RepeatsSnoc(x, t, n - 1, m, k, j);
    }
  }

  lemma {:induction false} RepeatsUnsnoc(x: Subject, t: Re, n: nat, i: nat, j: nat) returns (k: nat)
    requires i <= j <= |x.text| && n > 0 && Repeats(x, t, n, i, j)
    ensures i <= k <= j && Repeats(x, t, n - 1, i, k) && Matches(x, t, k, j)
  {
    var m := FirstRound(x, t, n, i, j);
    if n == 1 {
      k := i;
    } else {
      k := RepeatsUnsnoc(x, t, n - 1, m, j);
    }
  }

  lemma {:induction false} RepeatsJoin(x: Subject, t: Re, n: nat, m: nat, i: nat, k: nat, j: nat)
    requires i <= k <= j <= |x.text| && Repeats(x, t, n, i, k) && Repeats(x, t, m, k, j)
    ensures Repeats(x, t, n + m, i, j)
  {
    if n > 0 {
      var l := FirstRound(x, t, n, i, k);
      RepeatsJoin(x, t, n - 1, m, l, k, j);
    }
  }

  lemma {:induction false} RepeatsSplit(x: Subject, t: Re, n: nat, m: nat, i: nat, j: nat) returns (k: nat)
    requires i <= j <= |x.text| && Repeats(x, t, n + m, i, j)
    ensures i <= k <= j && Repeats(x, t, n, i, k) && Repeats(x, t, m, k, j)
  {
    if n == 0 {
      k := i;
    } else {
      var l := FirstRound(x, t, n + m, i, j);
      k := RepeatsSplit(x, t, n - 1, m, l, j);
    }
  }

  /** `n` copies in a row are `n` repetitions. */
  lemma {:induction false} TimesExact(x: Subject, t: Re, n: nat, i: nat, j: nat)
    requires n > 0 && i <= j <= |x.text|
    ensures Matches(x, Times(t, n), i, j) <==> Repeats(x, t, n, i, j)
  {
    if n == 1 {
      assert Repeats(x, t, 0, j, j);
    } else {
      if Matches(x, Times(t, n), i, j) {
        var k := CatParts(x, Times(t, n - 1), t, i, j);
        TimesExact(x, t, n - 1, i, k);
        RepeatsSnoc(x, t, n - 1, i, k, j);
      }
      if Repeats(x, t, n, i, j) {
        var k := RepeatsUnsnoc(x, t, n, i, j);
        TimesExact(x, t, n - 1, i, k);
        assert Matches(x, Times(t, n), i, j);
      }
    }
  }

  /** `n` optional copies are at most `n` repetitions. */
  lemma {:induction false} MaybesRepeat(x: Subject, t: Re, n: nat, i: nat, j: nat) returns (m: nat)
    requires i <= j <= |x.text| && Repeats(x, Maybe(t), n, i, j)
    ensures m <= n && Repeats(x, t, m, i, j)
  {
    if n == 0 {
      m := 0;
    } else {
      var k := FirstRound(x, Maybe(t), n, i, j);
      m := MaybesRepeat(x, t, n - 1, k, j);
      if Matches(x, t, i, k) {
        m := m + 1;
      }
    }
  }

  lemma {:induction false} RepeatsMaybes(x: Subject, t: Re, n: nat, m: nat, i: nat, j: nat)
    requires i <= j <= |x.text| && m <= n && Repeats(x, t, m, i, j)
    ensures Repeats(x, Maybe(t), n, i, j)
    decreases n
  {
    if m > 0 {
      var k := FirstRound(x, t, m, i, j);
      RepeatsMaybes(x, t, n - 1, m - 1, k, j);
      assert Matches(x, Maybe(t), i, k);
    } else if n > 0 {
      RepeatsMaybes(x, t, n - 1, 0, i, j);
      assert Matches(x, Maybe(t), i, i);
    }
  }

  /** Is `n` a number of repetitions that `{min,min+opt}` or, with negative `opt`, `{min,}` allows? */
  predicate Allowed(n: nat, min: nat, opt: int) {
    min <= n && (opt >= 0 ==> n <= min + opt)
  }

  /** The part of `X{min,min+opt}` behind the `min` copies. */
  lemma TailExact(x: Subject, t: Re, opt: int, i: nat, j: nat)
    requires opt != 0 && i <= j <= |x.text|
    ensures var tail := if opt < 0 then Star(t) else Times(Maybe(t), opt);
      Matches(x, tail, i, j) <==> exists n: nat :: Allowed(n, 0, opt) && Repeats(x, t, n, i, j)
  {
    if opt > 0 {
      TimesExact(x, Maybe(t), opt, i, j);
      if Repeats(x, Maybe(t), opt, i, j) {
        var m := MaybesRepeat(x, t, opt, i, j);
      }
      if n: nat :| Allowed(n, 0, opt) && Repeats(x, t, n, i, j) {
        RepeatsMaybes(x, t, opt, n, i, j);
      }
    } else if Matches(x, Star(t), i, j) {
      var n := StarCount(x, t, i, j);
      assert Allowed(n, 0, opt);
    }
  }

  /** The unfolded form of `X{n}`, `X{n,}` and `X{n,m}` matches exactly the allowed repetitions. */
  lemma RangeExact(x: Subject, t: Re, min: nat, opt: int, i: nat, j: nat)
    requires (min > 0 || opt != 0) && i <= j <= |x.text|
    ensures Matches(x, RangeRe(t, min, opt), i, j)
      <==> exists n: nat :: Allowed(n, min, opt) && Repeats(x, t, n, i, j)
  {
    if opt == 0 {
      TimesExact(x, t, min, i, j);
      assert Allowed(min, min, opt);
    } else if min == 0 {
      TailExact(x, t, opt, i, j);
    } else {
      var tail := if opt < 0 then Star(t) else Times(Maybe(t), opt);
      if Matches(x, Cat(Times(t, min), tail), i, j) {
        var k := CatParts(x, Times(t, min), tail, i, j);
        TimesExact(x, t, min, i, k);
        TailExact(x, t, opt, k, j);
        var m: nat :| Allowed(m, 0, opt) && Repeats(x, t, m, k, j);
        RepeatsJoin(x, t, min, m, i, k, j);
        assert Allowed(min + m, min, opt);
      }
      if n: nat :| Allowed(n, min, opt) && Repeats(x, t, n, i, j) {
        var k := RepeatsSplit(x, t, min, n - min, i, j);
        TimesExact(x, t, min, i, k);
        assert Allowed(n - min, 0, opt);
        TailExact(x, t, opt, k, j);
      }
    }
  }
}
