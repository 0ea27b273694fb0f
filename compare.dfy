/**
 * One benchmark case: the transactions are reduced to net balances once,
 * and the three solvers run on the same balances. The exhaustive search and
 * the subset DP always report the same count, and the greedy count is never
 * below it. No solver counts more than one transfer fewer than there are
 * parties.
 */
module Compare {
  import opened Options
  import opened Balances
  import opened Ledger
  import opened Greedy
  import opened Exhaustive
  import opened SubsetDP
  import opened Optimal

  /** No more unsettled parties than parties. */
  lemma {:induction false} NonZeroCountBound(s: seq<int>)
    ensures NonZeroCount(s) <= |s|
  {
    if s != [] {
      NonZeroCountBound(s[1..]);
    }
  }

  /**
   * Runs the three solvers on the balances of one transaction list. The
   * DP's table is indexed by a 32-bit mask, hence at most 30 parties.
   */
  method RunTestCase(ts: seq<Transaction>, n: nat) returns (greedyAns: nat, backAns: Option<nat>, dpAns: Option<nat>)
    requires ValidParties(ts, n) && n <= 30
    ensures backAns == dpAns
    ensures dpAns.Some? && dpAns.value <= greedyAns
    ensures greedyAns == 0 <==> dpAns == Some(0)
    ensures greedyAns == 0 <==> AllSquare(ts, n)
    ensures 0 < n ==> greedyAns <= n - 1
  {
    var net := GetNetBalances(ts, n);
    NonZeroCountBound(net);
    greedyAns := GreedyMinTransactions(net);
    backAns := BacktrackingMinTransactions(net);
    dpAns := DpBitmaskMinTransactions(net);
    SolversAgree(net);
    if AllZero(net) {
      forall p | 0 <= p < n ensures Balance(ts, p) == 0 {
        assert net[p] == 0;
      }
    }
    if AllSquare(ts, n) {
      forall k | 0 <= k < |net| ensures net[k] == 0 {
        assert Balance(ts, k) == 0;
      }
    }
  }
}
