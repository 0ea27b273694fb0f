/**
 * The exhaustive settler: settle the first unsettled party against every
 * later party of opposite sign in turn, recurse on the rest, undo, and keep
 * the cheapest outcome.
 */
module Exhaustive {
  import opened Options
  import opened Balances

  /** The test `net[start] * net[i] < 0`: the two balances have opposite signs. */
  predicate Opposite(a: int, b: int)
  {
    a < 0 < b || b < 0 < a
  }

  /** The index the skipping loop stops at: the first unsettled party from `start` on. */
  function FirstNonZero(s: seq<int>, start: nat): (k: nat)
    requires start <= |s|
    ensures start <= k <= |s|
    ensures forall i :: start <= i < k ==> s[i] == 0
    ensures k < |s| ==> s[k] != 0
    decreases |s| - start
  {
    if start == |s| || s[start] != 0 then start else FirstNonZero(s, start + 1)
  }

  /**
   * The value `backtrackingUtil(net, start)` returns, with None for INT_MAX:
   * 0 when everyone from `start` on is settled, otherwise the best fold of
   * the first unsettled party into a later one.
   */
  function Search(s: seq<int>, start: nat): Option<nat>
    requires start <= |s|
    decreases |s| - start, 1, 0
  {
    var st := FirstNonZero(s, start);
    if st == |s| then Some(0) else BestFold(s, st, |s|)
  }

  /** The best over the partners j with st < j < hi (the loop's `minTrans` before index hi). */
  function BestFold(s: seq<int>, st: nat, hi: nat): Option<nat>
    requires st < hi <= |s|
    decreases |s| - st, 0, hi
  {
    if hi == st + 1 then None else Min(BestFold(s, st, hi - 1), Fold(s, st, hi - 1))
  }

  /** Fold party st into partner j: one transfer plus the search on the rest. */
  function Fold(s: seq<int>, st: nat, j: nat): Option<nat>
    requires st < j < |s|
    decreases |s| - st, 0, 0
  {
    if Opposite(s[st], s[j]) then Succ(Search(s[j := s[j] + s[st]], st + 1)) else None
  }

  /**
   * `backtrackingUtil`: computes Search in place and leaves `net` exactly as
   * it found it (every fold `net[i] += net[start]` is undone).
   */
  method BacktrackingUtil(net: array<int>, start: nat) returns (minTrans: Option<nat>)
    requires start <= net.Length
    modifies net
    ensures net[..] == old(net[..])
    ensures minTrans == Search(old(net[..]), start)
    decreases net.Length - start
  {
    var st := start;
    while st < net.Length && net[st] == 0
      invariant start <= st <= net.Length
      invariant FirstNonZero(net[..], start) == FirstNonZero(net[..], st)
    {
      st := st + 1;
    }
    if st == net.Length {
      return Some(0);
    }
    ghost var s := net[..];
    minTrans := None;
    var i := st + 1;
    while i < net.Length
      invariant st + 1 <= i <= net.Length
      invariant net[..] == s
      invariant minTrans == BestFold(s, st, i)
    {
      if Opposite(net[st], net[i]) {
        net[i] := net[i] + net[st];
        assert net[..] == s[i := s[i] + s[st]];
        var sub := BacktrackingUtil(net, st + 1);
        minTrans := Min(minTrans, Succ(sub));
        net[i] := net[i] - net[st];
        assert net[..] == s;
      }
      i := i + 1;
    }
  }

  /**
   * `backtrackingMinTransactions`: runs the search on a private copy. It finds
   * a settlement exactly when the balances sum to 0, finds 0 transfers exactly
   * when everyone is settled, and never needs more than one transfer fewer
   * than there are unsettled parties.
   */
  method BacktrackingMinTransactions(net0: seq<int>) returns (r: Option<nat>)
    ensures r == Search(net0, 0)
    ensures r.Some? <==> Sum(net0) == 0
    ensures r == Some(0) <==> AllZero(net0)
    ensures r.Some? ==> r.value <= TransferBound(net0)
  {
    var net := new int[|net0|](k requires 0 <= k < |net0| => net0[k]);
    assert net[..] == net0;
    r := BacktrackingUtil(net, 0);
    assert net0[0..] == net0;
    SearchFeasible(net0, 0);
    SearchZero(net0, 0);
    SearchBound(net0, 0);
  }

  // ---------------------------------------------------------------------
  // What the search computes

  lemma {:induction false} SumFromFirstNonZero(s: seq<int>, start: nat)
    requires start <= |s|
    ensures Sum(s[start..]) == Sum(s[FirstNonZero(s, start)..])
    decreases |s| - start
  {
    if start < |s| && s[start] == 0 {
      assert s[start..][1..] == s[start + 1..];
      SumFromFirstNonZero(s, start + 1);
    }
  }

  /** Folding party st into j moves its balance onto the rest of the suffix. */
  lemma {:induction false} FoldKeepsSum(s: seq<int>, st: nat, j: nat)
    requires st < j < |s|
    ensures Sum(s[j := s[j] + s[st]][st + 1..]) == Sum(s[st..])
  {
    assert s[j := s[j] + s[st]][st + 1..] == s[st + 1..][j - st - 1 := s[j] + s[st]];
    SumUpdate(s[st + 1..], j - st - 1, s[j] + s[st]);
    assert s[st..][1..] == s[st + 1..];
  }

  /** An unsettled party in a zero-sum suffix has a later partner of opposite sign. */
  lemma {:induction false} PartnerExists(s: seq<int>, st: nat)
    requires st < |s| && s[st] != 0
    requires Sum(s[st..]) == 0
    ensures exists j :: st < j < |s| && Opposite(s[st], s[j])
  {
    assert s[st..][1..] == s[st + 1..];
    var rest := s[st + 1..];
    if forall j :: st < j < |s| ==> !Opposite(s[st], s[j]) {
      if s[st] > 0 {
        forall k | 0 <= k < |rest| ensures rest[k] >= 0 {
          assert rest[k] == s[st + 1 + k];
        }
        NonNegativeLowerBound(rest);
      } else {
        forall k | 0 <= k < |rest| ensures rest[k] <= 0 {
          assert rest[k] == s[st + 1 + k];
        }
        NonPositiveUpperBound(rest);
      }
    }
  }

  /** A fold into a partner of opposite sign costs one transfer plus the search on the rest. */
  lemma {:induction false} FoldOpposite(s: seq<int>, st: nat, j: nat)
    requires st < j < |s| && Opposite(s[st], s[j])
    ensures Fold(s, st, j) == Succ(Search(s[j := s[j] + s[st]], st + 1))
  {
  }

  /** A fold that finds a settlement is into a partner of opposite sign. */
  lemma {:induction false} FoldFound(s: seq<int>, st: nat, j: nat)
    requires st < j < |s| && Fold(s, st, j).Some?
    ensures Opposite(s[st], s[j])
    ensures Search(s[j := s[j] + s[st]], st + 1).Some?
    ensures Fold(s, st, j).value == Search(s[j := s[j] + s[st]], st + 1).value + 1
  {
  }

  /** The loop's minimum is no worse than any partner it tried. */
  lemma {:induction false} BestFoldLe(s: seq<int>, st: nat, hi: nat, j: nat)
    requires st < j < hi <= |s|
    requires Fold(s, st, j).Some?
    ensures BestFold(s, st, hi).Some? && BestFold(s, st, hi).value <= Fold(s, st, j).value
    decreases hi
  {
    assert BestFold(s, st, hi) == Min(BestFold(s, st, hi - 1), Fold(s, st, hi - 1));
    if j < hi - 1 {
      BestFoldLe(s, st, hi - 1, j);
    }
  }

  /** The loop's minimum, when there is one, comes from some partner. */
  lemma {:induction false} BestFoldAttained(s: seq<int>, st: nat, hi: nat) returns (j: nat)
    requires st < hi <= |s|
    requires BestFold(s, st, hi).Some?
    ensures st < j < hi && Fold(s, st, j) == BestFold(s, st, hi)
    decreases hi
  {
    assert BestFold(s, st, hi) == Min(BestFold(s, st, hi - 1), Fold(s, st, hi - 1));
    if BestFold(s, st, hi) == Fold(s, st, hi - 1) {
      j := hi - 1;
    } else {
      j := BestFoldAttained(s, st, hi - 1);
    }
  }

  /**
   * The search finds a settlement exactly when the suffix sums to 0; on any
   * other input it reports "no candidate" rather than a count.
   */
  lemma {:induction false} SearchFeasible(s: seq<int>, start: nat)
    requires start <= |s|
    ensures Search(s, start).Some? <==> Sum(s[start..]) == 0
    decreases |s| - start, 1
  {
    var st := FirstNonZero(s, start);
    SumFromFirstNonZero(s, start);
    if st == |s| {
      assert s[st..] == [];
    } else {
      assert Search(s, start) == BestFold(s, st, |s|);
      if Sum(s[st..]) == 0 {
        PartnerExists(s, st);
        var j :| st < j < |s| && Opposite(s[st], s[j]);
        FoldFeasible(s, st, j);
        BestFoldLe(s, st, |s|, j);
      } else if BestFold(s, st, |s|).Some? {
        var j := BestFoldAttained(s, st, |s|);
        FoldFeasible(s, st, j);
      }
    }
  }

  lemma {:induction false} FoldFeasible(s: seq<int>, st: nat, j: nat)
    requires st < j < |s|
    ensures Fold(s, st, j).Some? <==> Opposite(s[st], s[j]) && Sum(s[st..]) == 0
    decreases |s| - st, 0
  {
    FoldKeepsSum(s, st, j);
    SearchFeasible(s[j := s[j] + s[st]], st + 1);
  }

  lemma {:induction false} BestFoldPositive(s: seq<int>, st: nat, hi: nat)
    requires st < hi <= |s|
    ensures BestFold(s, st, hi).Some? ==> BestFold(s, st, hi).value >= 1
    decreases hi
  {
    if hi > st + 1 {
      BestFoldPositive(s, st, hi - 1);
    }
  }

  // ---------------------------------------------------------------------
  // The search never needs more than one transfer fewer than the unsettled parties

  lemma {:induction false} CountFromFirstNonZero(s: seq<int>, start: nat)
    requires start <= |s|
    ensures NonZeroCount(s[start..]) == NonZeroCount(s[FirstNonZero(s, start)..])
    decreases |s| - start
  {
    if start < |s| && s[start] == 0 {
      assert s[start..][1..] == s[start + 1..];
      CountFromFirstNonZero(s, start + 1);
    }
  }

  /**
   * Folding st into an opposite-sign partner j settles st and unsettles
   * nobody: the rest has at least one unsettled party fewer, and before the
   * fold there were at least two (st and j).
   */
  lemma {:induction false} FoldCount(s: seq<int>, st: nat, j: nat)
    requires st < j < |s| && Opposite(s[st], s[j])
    ensures NonZeroCount(s[st..]) >= 2
    ensures NonZeroCount(s[j := s[j] + s[st]][st + 1..]) + 1 <= NonZeroCount(s[st..])
  {
    var r, i := s[st + 1..], j - st - 1;
    assert r[i] == s[j];
    assert s[j := s[j] + s[st]][st + 1..] == r[i := s[j] + s[st]];
    NonZeroCountUpdate(r, i, s[j] + s[st]);
    NonZeroCountUpdate(r, i, 0);
    assert s[st..][1..] == r && s[st..][0] == s[st];
  }

  /** Every finite search result is at most one fewer than the unsettled parties from `start` on. */
  lemma {:induction false} SearchBound(s: seq<int>, start: nat)
    requires start <= |s|
    ensures Search(s, start).Some? ==> Search(s, start).value <= TransferBound(s[start..])
    decreases |s| - start, 1
  {
    var st := FirstNonZero(s, start);
    CountFromFirstNonZero(s, start);
    if st < |s| {
      BestFoldBound(s, st, |s|);
    }
  }

  lemma {:induction false} BestFoldBound(s: seq<int>, st: nat, hi: nat)
    requires st < hi <= |s|
    ensures BestFold(s, st, hi).Some? ==> BestFold(s, st, hi).value <= TransferBound(s[st..])
    decreases |s| - st, 0, hi
  {
    if hi > st + 1 {
      BestFoldBound(s, st, hi - 1);
      FoldBound(s, st, hi - 1);
    }
  }

  lemma {:induction false} FoldBound(s: seq<int>, st: nat, j: nat)
    requires st < j < |s|
    ensures Fold(s, st, j).Some? ==> Fold(s, st, j).value <= TransferBound(s[st..])
    decreases |s| - st, 0, 0
  {
    if Opposite(s[st], s[j]) {
      SearchBound(s[j := s[j] + s[st]], st + 1);
      FoldCount(s, st, j);
    }
  }

  /** The search answers 0 exactly when everyone from `start` on is settled. */
  lemma {:induction false} SearchZero(s: seq<int>, start: nat)
    requires start <= |s|
    ensures Search(s, start) == Some(0) <==> AllZero(s[start..])
  {
    var st := FirstNonZero(s, start);
    if st < |s| {
      BestFoldPositive(s, st, |s|);
      assert s[start..][st - start] == s[st];
    } else {
      forall k | 0 <= k < |s[start..]| ensures s[start..][k] == 0 {
        assert s[start..][k] == s[start + k];
      }
    }
  }
}
