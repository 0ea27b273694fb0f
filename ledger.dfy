/**
 * Balance reduction: a list of transactions `{from, to, amount}` is folded
 * into one signed net balance per party. The payer's balance goes down by
 * the amount and the payee's goes up by it.
 */
module Ledger {
  import opened Balances

  datatype Transaction = Transaction(from: int, to: int, amount: int)

  /** Every transaction names parties in [0, n); the reducer indexes by them unchecked. */
  predicate ValidParties(ts: seq<Transaction>, n: nat)
  {
    forall t :: t in ts ==> 0 <= t.from < n && 0 <= t.to < n
  }

  /** What one transaction does to the balance of party p. */
  function Effect(t: Transaction, p: int): int
  {
    (if t.to == p then t.amount else 0) - (if t.from == p then t.amount else 0)
  }

  /** Reference definition: everything p received minus everything p paid. */
  function Balance(ts: seq<Transaction>, p: int): int
  {
    if ts == [] then 0 else Balance(ts[..|ts| - 1], p) + Effect(ts[|ts| - 1], p)
  }

  /** Every party has received exactly what it paid. */
  predicate AllSquare(ts: seq<Transaction>, n: nat)
  {
    forall p :: 0 <= p < n ==> Balance(ts, p) == 0
  }

  /** The balance after one more transaction. */
  lemma {:induction false} BalanceStep(ts: seq<Transaction>, k: nat, p: int)
    requires k < |ts|
    ensures Balance(ts[..k + 1], p) == Balance(ts[..k], p) + Effect(ts[k], p)
  {
    assert ts[..k + 1][..k] == ts[..k];
  }

  /** Builds the net balance of every party; money is conserved. */
  method GetNetBalances(ts: seq<Transaction>, n: nat) returns (net: seq<int>)
    requires ValidParties(ts, n)
    ensures |net| == n
    ensures forall p :: 0 <= p < n ==> net[p] == Balance(ts, p)
    ensures Sum(net) == 0
  {
    var a := new int[n](_ => 0);
    assert AllZero(a[..]);
    SettledSum(a[..]);
    var k := 0;
    while k < |ts|
      invariant 0 <= k <= |ts|
      invariant forall p :: 0 <= p < n ==> a[p] == Balance(ts[..k], p)
      invariant Sum(a[..]) == 0
    {
      var t := ts[k];
      assert t in ts;
      ghost var before := a[..];
      var paid := a[t.from] - t.amount;
      a[t.from] := paid;
      ghost var mid := a[..];
      var received := a[t.to] + t.amount;
      a[t.to] := received;
      assert mid == before[t.from := paid] && a[..] == mid[t.to := received];
      SumUpdate(before, t.from, paid);
      SumUpdate(mid, t.to, received);
      forall p | 0 <= p < n
        ensures a[p] == Balance(ts[..k + 1], p)
      {
        BalanceStep(ts, k, p);
      }
      k := k + 1;
    }
    assert ts[..k] == ts;
    net := a[..];
  }
}
