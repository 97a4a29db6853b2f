/** The round-robin choice among acceptors that are ready at the same time, and its fairness. */
module Acceptors {

  /** The `i`th place after the acceptor used last, going round. */
  function Round(last: nat, i: nat, n: nat): nat
    requires n > 0
  {
    (last + 1 + i) % n
  }

  /** The first ready acceptor from the `i`th place on, or -1. */
  function FirstReady(last: nat, ready: seq<bool>, i: nat): int
    requires |ready| > 0
    decreases |ready| - i
  {
    if i >= |ready| then -1
    else if ready[Round(last, i, |ready|)] then Round(last, i, |ready|)
    else FirstReady(last, ready, i + 1)
  }

  /** What a poll over `ready` returns. */
  function Chosen(last: nat, ready: seq<bool>): int {
    if ready == [] then -1 else FirstReady(last, ready, 0)
  }

  class HandleSet {
    /** The file descriptors of the registered acceptors. */
    var fDemuxTable: seq<int>
    var fLastAcceptorUsedIndex: nat

    ghost predicate Valid()
      reads this
    {
      fLastAcceptorUsedIndex < |fDemuxTable| || (fDemuxTable == [] && fLastAcceptorUsedIndex == 0)
    }

    constructor ()
      ensures Valid() && fDemuxTable == [] && fLastAcceptorUsedIndex == 0
    {
      fDemuxTable, fLastAcceptorUsedIndex := [], 0;
    }

    method RegisterHandle(fd: int)
      requires Valid()
      modifies this
      ensures Valid() && fLastAcceptorUsedIndex == old(fLastAcceptorUsedIndex)
      ensures fDemuxTable == old(fDemuxTable) + (if fd > 0 then [fd] else [])
    {
      if fd > 0 {
        fDemuxTable := fDemuxTable + [fd];
      }
    }

    /** The choice among the acceptors that a poll reports as ready; -1 if it reports none. */
    method WaitForEvents(ready: seq<bool>) returns (idx: int)
      requires Valid() && |ready| == |fDemuxTable|
      modifies this`fLastAcceptorUsedIndex
      ensures Valid() && idx == Chosen(old(fLastAcceptorUsedIndex), ready)
      ensures fLastAcceptorUsedIndex == if idx == -1 then old(fLastAcceptorUsedIndex) else idx
    {
      var i := 0;
      while i < |fDemuxTable|
        invariant i <= |ready| && fLastAcceptorUsedIndex == old(fLastAcceptorUsedIndex)
        invariant ready != [] ==> Chosen(fLastAcceptorUsedIndex, ready) == FirstReady(fLastAcceptorUsedIndex, ready, i)
      {
        idx := (fLastAcceptorUsedIndex + 1 + i) % |fDemuxTable|;
        if ready[idx] {
          fLastAcceptorUsedIndex := idx;
          return;
        }
        i := i + 1;
      }
      return -1;
    }
  }

  // ---------------------------------------------------------------------------------------
  // Fairness
  // ---------------------------------------------------------------------------------------

  /** How many places acceptor `k` is behind the one used last; 0 is the next in turn. */
  function Distance(last: nat, k: nat, n: nat): nat
    requires last < n && k < n
  {
    if last < k then k - last - 1 else k + n - last - 1
  }

  lemma RoundIs(last: nat, i: nat, n: nat)
    requires last < n && i < n
    ensures Round(last, i, n) == if last + 1 + i < n then last + 1 + i else last + 1 + i - n
  {
    var a := last + 1 + i;
    var q := a / n;
    assert a == n * q + a % n;
    if a >= n {
      assert q == 1;
    }
  }

  /** Going that many places leads to `k`, and no shorter way does. */
  lemma DistanceExact(last: nat, k: nat, n: nat, i: nat)
    requires last < n && k < n && i < n
    ensures Round(last, i, n) == k <==> i == Distance(last, k, n)
  {
    hide Round;
    RoundIs(last, i, n);
  }

  /** The choice is ready, and no acceptor between the last one and it is. */
  lemma {:induction false} FirstReadyIs(last: nat, ready: seq<bool>, i: nat, k: nat)
    requires last < |ready| && k < |ready| && ready[k] && i <= Distance(last, k, |ready|)
    ensures var c := FirstReady(last, ready, i);
      0 <= c < |ready| && ready[c] && i <= Distance(last, c, |ready|) <= Distance(last, k, |ready|)
    decreases |ready| - i
  {
    var n := |ready|;
    var c := Round(last, i, n);
    DistanceExact(last, k, n, i);
    DistanceExact(last, c, n, i);
    if !ready[c] {
      FirstReadyIs(last, ready, i + 1, k);
    }
  }

  /** Without a ready acceptor there is no choice. */
  lemma {:induction false} NoneReady(last: nat, ready: seq<bool>, i: nat)
    requires last < |ready| && forall k :: 0 <= k < |ready| ==> !ready[k]
    ensures FirstReady(last, ready, i) == -1
    decreases |ready| - i
  {
    if i < |ready| {
      NoneReady(last, ready, i + 1);
    }
  }

  /** A poll has an answer exactly if some acceptor is ready; it is then the nearest one that is. */
  lemma ChosenExact(last: nat, ready: seq<bool>, k: nat)
    requires last < |ready| && k < |ready|
    ensures Chosen(last, ready) == k <==>
      ready[k] && forall m :: 0 <= m < |ready| && ready[m] ==> Distance(last, k, |ready|) <= Distance(last, m, |ready|)
    ensures Chosen(last, ready) == -1 <==> forall m :: 0 <= m < |ready| ==> !ready[m]
  {
    hide FirstReady;
    forall m | 0 <= m < |ready| && ready[m]
      ensures var c := Chosen(last, ready);
        0 <= c < |ready| && ready[c] && Distance(last, c, |ready|) <= Distance(last, m, |ready|)
    {
      FirstReadyIs(last, ready, 0, m);
    }
    if forall m :: 0 <= m < |ready| ==> !ready[m] {
      NoneReady(last, ready, 0);
    }
  }

  /** Serving another acceptor first brings `k` nearer. */
  lemma Nearer(last: nat, c: nat, k: nat, n: nat)
    requires last < n && c < n && k < n && c != k && Distance(last, c, n) <= Distance(last, k, n)
    ensures Distance(c, k, n) == Distance(last, k, n) - Distance(last, c, n) - 1
  {
  }

  /** The acceptors that successive polls return. */
  function Served(last: nat, polls: seq<seq<bool>>): seq<int>
    decreases |polls|
  {
    if polls == [] then []
    else
      var c := Chosen(last, polls[0]);
      [c] + Served(if c >= 0 then c else last, polls[1..])
  }

  /** Every poll is over the same `n` acceptors and finds acceptor `k` ready. */
  predicate AlwaysReady(polls: seq<seq<bool>>, k: nat, n: nat) {
    forall i :: 0 <= i < |polls| ==> |polls[i]| == n && k < n && polls[i][k]
  }

  lemma {:induction false} ServedInTime(last: nat, polls: seq<seq<bool>>, k: nat, n: nat)
    requires last < n && k < n && AlwaysReady(polls, k, n) && |polls| > Distance(last, k, n)
    ensures k in Served(last, polls)
    decreases |polls|
  {
    var c := Chosen(last, polls[0]);
    FirstReadyIs(last, polls[0], 0, k);
    assert Served(last, polls) == [c] + Served(c, polls[1..]);
    if c != k {
      Nearer(last, c, k, n);
      ServedInTime(c, polls[1..], k, n);
    }
  }

  /** An acceptor that is ready at every poll is returned at least once in any `n` polls in a row. */
  lemma Fair(last: nat, polls: seq<seq<bool>>, k: nat, n: nat)
    requires last < n && k < n && AlwaysReady(polls, k, n) && |polls| >= n
    ensures k in Served(last, polls)
  {
    ServedInTime(last, polls, k, n);
  }

  /** `m` polls that find everybody ready. */
  function AllReady(n: nat, m: nat): seq<seq<bool>> {
    seq(m, i => seq(n, j => true))
  }

  /** The bound is exact: right after its own turn an acceptor waits for `n - 1` others. */
  lemma BoundIsExact(k: nat, n: nat)
    requires k < n
    ensures AlwaysReady(AllReady(n, n - 1), k, n) && k !in Served(k, AllReady(n, n - 1))
  {
    NotYetServed(k, k, n, n - 1);
  }

  lemma {:induction false} NotYetServed(last: nat, k: nat, n: nat, m: nat)
    requires last < n && k < n && m <= Distance(last, k, n)
    ensures k !in Served(last, AllReady(n, m))
    decreases m
  {
    if m > 0 {
      var polls := AllReady(n, m);
      assert polls[1..] == AllReady(n, m - 1);
      var c := Round(last, 0, n);
      assert polls[0][c];
      DistanceExact(last, k, n, 0);
      DistanceExact(last, c, n, 0);
      Nearer(last, c, k, n);
      NotYetServed(c, k, n, m - 1);
      assert Served(last, polls) == [c] + Served(c, polls[1..]);
    }
  }
}
