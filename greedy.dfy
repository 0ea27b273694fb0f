/**
 * The greedy settler: repeatedly pair the most negative balance with the
 * most positive one and move as much as settles one of them.
 */
module Greedy {
  import opened Options
  import opened Balances
  import opened Exhaustive
  import opened Optimal

  /**
   * The smallest balance, clamped to be at most 0, and the LAST index
   * holding it (the scan replaces on `<=`). Without any balance <= 0 the
   * result is (0, 0).
   */
  method FindMin(amt: seq<int>) returns (mini: int, debitor: nat)
    ensures mini <= 0 && forall k :: 0 <= k < |amt| ==> mini <= amt[k]
    ensures if exists k :: 0 <= k < |amt| && amt[k] <= 0
            then debitor < |amt| && amt[debitor] == mini &&
                 forall k :: debitor < k < |amt| ==> mini < amt[k]
            else mini == 0 && debitor == 0
  {
    mini, debitor := 0, 0;
    var i := 0;
    while i < |amt|
      invariant 0 <= i <= |amt|
      invariant mini <= 0 && forall k :: 0 <= k < i ==> mini <= amt[k]
      invariant if exists k :: 0 <= k < i && amt[k] <= 0
                then debitor < i && amt[debitor] == mini &&
                     forall k :: debitor < k < i ==> mini < amt[k]
                else mini == 0 && debitor == 0
    {
      if amt[i] <= mini {
        mini, debitor := amt[i], i;
      }
      i := i + 1;
    }
  }

  /**
   * The largest balance, clamped to be at least 0, and the LAST index
   * holding it (the scan replaces on `>=`). Without any balance >= 0 the
   * result is (0, 0).
   */
  method FindMax(amt: seq<int>) returns (maxi: int, creditor: nat)
    ensures maxi >= 0 && forall k :: 0 <= k < |amt| ==> amt[k] <= maxi
    ensures if exists k :: 0 <= k < |amt| && amt[k] >= 0
            then creditor < |amt| && amt[creditor] == maxi &&
                 forall k :: creditor < k < |amt| ==> amt[k] < maxi
            else maxi == 0 && creditor == 0
  {
    maxi, creditor := 0, 0;
    var i := 0;
    while i < |amt|
      invariant 0 <= i <= |amt|
      invariant maxi >= 0 && forall k :: 0 <= k < i ==> amt[k] <= maxi
      invariant if exists k :: 0 <= k < i && amt[k] >= 0
                then creditor < i && amt[creditor] == maxi &&
                     forall k :: creditor < k < i ==> amt[k] < maxi
                else maxi == 0 && creditor == 0
    {
      if amt[i] >= maxi {
        maxi, creditor := amt[i], i;
      }
      i := i + 1;
    }
  }

  function Abs(x: int): (r: nat)
    ensures r == x || r == -x
  {
    if x < 0 then -x else x
  }

  /** The amount one greedy step moves: min(|mini|, maxi). */
  function Settled(mini: int, maxi: int): (settled: int)
    ensures settled <= Abs(mini) && settled <= maxi
    ensures settled == Abs(mini) || settled == maxi
  {
    if Abs(mini) <= maxi then Abs(mini) else maxi
  }

  /**
   * On a zero-sum vector, a clamped minimum and maximum that are not both 0
   * are a real debtor and a real creditor.
   */
  lemma {:induction false} StepHasBothSides(s: seq<int>, mini: int, d: nat, maxi: int, c: nat)
    requires Sum(s) == 0
    requires mini <= 0 && forall k :: 0 <= k < |s| ==> mini <= s[k]
    requires maxi >= 0 && forall k :: 0 <= k < |s| ==> s[k] <= maxi
    requires mini != 0 ==> d < |s| && s[d] == mini
    requires maxi != 0 ==> c < |s| && s[c] == maxi
    requires mini != 0 || maxi != 0
    ensures mini < 0 < maxi
  {
    if mini == 0 {
      NonNegativeZeroSum(s);
    } else if maxi == 0 {
      NonPositiveZeroSum(s);
    }
  }

  /**
   * One greedy step on a zero-sum vector: a positive amount moves, the
   * debtor's balance becomes paid and the creditor's received, neither
   * changes sign, at least one of them is settled, the sum stays 0 and the
   * unsettled count drops, so the potential drops by at least one.
   */
  lemma {:induction false} StepProgress(s: seq<int>, d: nat, c: nat, settled: int, paid: int, received: int)
    requires d < |s| && c < |s| && s[d] < 0 < s[c]
    requires settled == Settled(s[d], s[c])
    requires paid == s[d] + settled && received == s[c] - settled
    ensures 0 < settled
    ensures s[d] <= paid <= 0 <= received <= s[c]
    ensures paid == 0 || received == 0
    ensures Sum(s[d := paid][c := received]) == Sum(s)
    ensures NonZeroCount(s[d := paid][c := received]) < NonZeroCount(s)
    ensures TransferBound(s[d := paid][c := received]) < TransferBound(s)
  {
    var s1 := s[d := paid];
    NonZeroCountUpdate(s, d, 0);
    NonZeroCountUpdate(s[d := 0], c, 0);
    SumUpdate(s, d, paid);
    SumUpdate(s1, c, received);
    NonZeroCountUpdate(s, d, paid);
    NonZeroCountUpdate(s1, c, received);
    NonZeroCountUpdate(s, c, received);
    NonZeroCountUpdate(s[c := received], d, paid);
    assert s1[c := received] == s[c := received][d := paid];
  }

  /** Two updates of a multiset: X and Y go out, V1 and V2 come in. */
  lemma {:induction false} Restore2(A: multiset<int>, A1: multiset<int>, A2: multiset<int>,
                 X: multiset<int>, Y: multiset<int>, V1: multiset<int>, V2: multiset<int>)
    requires X <= A && A1 == A - X + V1
    requires Y <= A1 && A2 == A1 - Y + V2
    ensures A2 + X + Y == A + (V1 + V2)
  {
    assert forall o :: (A2 + X + Y)[o] == (A + (V1 + V2))[o];
  }

  /** Of two balances one of which is settled, only their sum x + y remains. */
  lemma {:induction false} SettledMerge(v1: int, v2: int, x: int, y: int)
    requires (v1 == 0 || v2 == 0) && x + y == v1 + v2
    ensures Nz(v1) + Nz(v2) == Nz(x + y)
  {
    if v1 == 0 {
      assert Nz(v1) == multiset{} && v2 == x + y;
    } else {
      assert Nz(v2) == multiset{} && v1 == x + y;
    }
  }

  /** Updating a balance known to be the unsettled v0. */
  lemma {:induction false} UpdateKnown(s: seq<int>, i: nat, v0: int, v: int)
    requires i < |s| && s[i] == v0 && v0 != 0
    ensures multiset{v0} <= NonZeroValues(s)
    ensures NonZeroValues(s[i := v]) == NonZeroValues(s) - multiset{v0} + Nz(v)
  {
    NonZeroValuesUpdate(s, i, v);
  }

  /** The unsettled balances after updating two distinct unsettled parties. */
  lemma {:induction false} DoubleUpdate(s: seq<int>, d: nat, c: nat, v1: int, v2: int) returns (A1: multiset<int>)
    requires d < |s| && c < |s| && d != c && s[d] != 0 && s[c] != 0
    ensures multiset{s[d]} <= NonZeroValues(s) && A1 == NonZeroValues(s) - multiset{s[d]} + Nz(v1)
    ensures multiset{s[c]} <= A1 && NonZeroValues(s[d := v1][c := v2]) == A1 - multiset{s[c]} + Nz(v2)
  {
    UpdateKnown(s, d, s[d], v1);
    UpdateKnown(s[d := v1], c, s[c], v2);
    A1 := NonZeroValues(s[d := v1]);
  }

  /**
   * One greedy step, seen on the unsettled balances: the debtor's x and the
   * creditor's y leave, and their sum x + y takes their place (nothing when
   * it is 0).
   */
  lemma {:induction false} StepValues(s: seq<int>, d: nat, c: nat, x: int, y: int, paid: int, received: int)
    requires d < |s| && c < |s| && d != c && s[d] == x && s[c] == y && x != 0 && y != 0
    requires (paid == 0 || received == 0) && paid + received == x + y
    ensures NonZeroValues(s[d := paid][c := received]) + multiset{x} + multiset{y} == NonZeroValues(s) + Nz(x + y)
  {
    var A1 := DoubleUpdate(s, d, c, paid, received);
    Restore2(NonZeroValues(s), A1, NonZeroValues(s[d := paid][c := received]),
             multiset{x}, multiset{y}, Nz(paid), Nz(received));
    SettledMerge(paid, received, x, y);
  }

  /**
   * Hence the fewest transfers that settle the vector before a greedy step
   * is at most one more than the fewest after it.
   */
  lemma {:induction false} StepOptimal(s: seq<int>, d: nat, c: nat, x: int, y: int, paid: int, received: int)
    requires d < |s| && c < |s| && d != c && s[d] == x && s[c] == y && x != 0 && y != 0
    requires (paid == 0 || received == 0) && paid + received == x + y
    requires Sum(s[d := paid][c := received]) == 0
    ensures Search(s[d := paid][c := received], 0).Some? && Search(s, 0).Some?
    ensures Search(s, 0).value <= Search(s[d := paid][c := received], 0).value + 1
  {
    var s2 := s[d := paid][c := received];
    StepValues(s, d, c, x, y, paid, received);
    assert s2[0..] == s2;
    SearchFeasible(s2, 0);
    TransferStep(s, s2, x, y);
  }

  /**
   * Counts the transfers of the greedy settlement. The input must sum to 0:
   * otherwise the loop never stops (settled becomes 0 and nothing changes).
   * The result is 0 exactly when every balance is already 0, and is at most
   * one less than the number of unsettled parties. It is never below the
   * fewest transfers that settle the balances (the exhaustive search).
   */
  method GreedyMinTransactions(net0: seq<int>) returns (cnt: nat)
    requires Sum(net0) == 0
    ensures cnt == 0 <==> AllZero(net0)
    ensures cnt <= TransferBound(net0)
    ensures Search(net0, 0).Some? && Search(net0, 0).value <= cnt
  {
    var net := new int[|net0|](k requires 0 <= k < |net0| => net0[k]);
    cnt := 0;
    assert net[..] == net0;
    assert net0[0..] == net0;
    SearchFeasible(net0, 0);
    while true
      invariant Sum(net[..]) == 0
      invariant cnt + TransferBound(net[..]) <= TransferBound(net0)
      invariant cnt == 0 ==> net[..] == net0
      invariant Search(net[..], 0).Some?
      invariant Search(net0, 0).value <= cnt + Search(net[..], 0).value
      decreases TransferBound(net[..])
    {
      var mini, debitor := FindMin(net[..]);
      var maxi, creditor := FindMax(net[..]);
      if mini == 0 && maxi == 0 {
        break;
      }
      StepHasBothSides(net[..], mini, debitor, maxi, creditor);
      var settled := Settled(mini, maxi);
      var paid, received := net[debitor] + settled, net[creditor] - settled;
      StepProgress(net[..], debitor, creditor, settled, paid, received);
      StepOptimal(net[..], debitor, creditor, mini, maxi, paid, received);
      net[debitor] := paid;
      net[creditor] := received;
      cnt := cnt + 1;
    }
    assert AllZero(net[..]);
    assert net[..][0..] == net[..];
    SearchZero(net[..], 0);
    NoneUnsettled(net[..]);
    NoneUnsettled(net0);
  }
}
