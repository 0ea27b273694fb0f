/**
 * Net-balance vectors: one signed amount per party, positive for a net
 * creditor and negative for a net debtor. Every solver of the settlement
 * core reads such a vector; this module holds the definitions the solvers'
 * contracts are stated in.
 */
module Balances {

  /** The sum of all balances. A vector built from transactions sums to 0. */
  function Sum(s: seq<int>): int
  {
    if s == [] then 0 else s[0] + Sum(s[1..])
  }

  /** Every party is settled. */
  predicate AllZero(s: seq<int>)
  {
    forall k :: 0 <= k < |s| ==> s[k] == 0
  }

  /** 1 for an unsettled balance, 0 for a settled one. */
  function Unsettled(v: int): nat
  {
    if v == 0 then 0 else 1
  }

  /** The number of parties whose balance is not zero. */
  function NonZeroCount(s: seq<int>): nat
  {
    if s == [] then 0 else Unsettled(s[0]) + NonZeroCount(s[1..])
  }

  /** A balance as a multiset: empty when the balance is settled. */
  function Nz(v: int): multiset<int>
  {
    if v == 0 then multiset{} else multiset{v}
  }

  /** The unsettled balances of a vector, forgetting which party holds which. */
  function NonZeroValues(s: seq<int>): multiset<int>
  {
    if s == [] then multiset{} else Nz(s[0]) + NonZeroValues(s[1..])
  }

  lemma {:induction false} SumUpdate(s: seq<int>, i: nat, v: int)
    requires i < |s|
    ensures Sum(s[i := v]) == Sum(s) - s[i] + v
  {
    if i > 0 {
      assert s[i := v][1..] == s[1..][i - 1 := v];
      SumUpdate(s[1..], i - 1, v);
    } else {
      assert s[i := v][1..] == s[1..];
    }
  }

  lemma {:induction false} SumAppend(a: seq<int>, b: seq<int>)
    ensures Sum(a + b) == Sum(a) + Sum(b)
  {
    if a != [] {
      assert (a + b)[1..] == a[1..] + b;
      SumAppend(a[1..], b);
    } else {
      assert a + b == b;
    }
  }

  lemma {:induction false} NonZeroCountUpdate(s: seq<int>, i: nat, v: int)
    requires i < |s|
    ensures NonZeroCount(s[i := v]) == NonZeroCount(s) - Unsettled(s[i]) + Unsettled(v)
  {
    if i > 0 {
      assert s[i := v][1..] == s[1..][i - 1 := v];
      NonZeroCountUpdate(s[1..], i - 1, v);
    } else {
      assert s[i := v][1..] == s[1..];
    }
  }

  lemma {:induction false} NonZeroValuesUpdate(s: seq<int>, i: nat, v: int)
    requires i < |s|
    ensures Nz(s[i]) <= NonZeroValues(s)
    ensures NonZeroValues(s[i := v]) == NonZeroValues(s) - Nz(s[i]) + Nz(v)
  {
    var pre, post := s[..i], s[i + 1..];
    assert s == pre + ([s[i]] + post);
    assert s[i := v] == pre + ([v] + post);
    NonZeroValuesAppend(pre, [s[i]] + post);
    NonZeroValuesAppend(pre, [v] + post);
    NonZeroValuesCons(s[i], post);
    NonZeroValuesCons(v, post);
    SwapMiddle(NonZeroValues(pre), Nz(s[i]), NonZeroValues(post), Nz(v));
  }

  lemma {:induction false} NonZeroValuesAppend(a: seq<int>, b: seq<int>)
    ensures NonZeroValues(a + b) == NonZeroValues(a) + NonZeroValues(b)
  {
    if a != [] {
      assert (a + b)[1..] == a[1..] + b;
      NonZeroValuesAppend(a[1..], b);
    } else {
      assert a + b == b;
    }
  }

  lemma {:induction false} NonZeroValuesCons(x: int, t: seq<int>)
    ensures NonZeroValues([x] + t) == Nz(x) + NonZeroValues(t)
  {
    assert ([x] + t)[1..] == t;
  }

  /** Replacing the middle part X of P + (X + Q) by V. */
  lemma {:induction false} SwapMiddle(P: multiset<int>, X: multiset<int>, Q: multiset<int>, V: multiset<int>)
    ensures X <= P + (X + Q)
    ensures P + (V + Q) == P + (X + Q) - X + V
  {
    assert forall o :: (P + (V + Q))[o] == (P + (X + Q) - X + V)[o];
  }

  /** The multiset of unsettled balances has one element per unsettled party. */
  lemma {:induction false} NonZeroValuesSize(s: seq<int>)
    ensures |NonZeroValues(s)| == NonZeroCount(s)
  {
    if s != [] {
      NonZeroValuesSize(s[1..]);
    }
  }

  lemma {:induction false} NonZeroValuesHaveNoZero(s: seq<int>)
    ensures 0 !in NonZeroValues(s)
  {
    if s != [] {
      NonZeroValuesHaveNoZero(s[1..]);
    }
  }

  /** Counting unsettled parties finds none exactly when all are settled. */
  lemma {:induction false} NoneUnsettled(s: seq<int>)
    ensures NonZeroCount(s) == 0 <==> AllZero(s)
  {
    if s != [] {
      NoneUnsettled(s[1..]);
      if AllZero(s) {
        assert AllZero(s[1..]) by {
          forall k | 0 <= k < |s[1..]| ensures s[1..][k] == 0 {
            assert s[1..][k] == s[k + 1];
          }
        }
      }
      if NonZeroCount(s) == 0 {
        forall k | 0 <= k < |s| ensures s[k] == 0 {
          if k > 0 {
            assert s[k] == s[1..][k - 1];
          }
        }
      }
    }
  }

  /** A zero-sum vector without negative entries is settled. */
  lemma {:induction false} NonNegativeZeroSum(s: seq<int>)
    requires forall k :: 0 <= k < |s| ==> s[k] >= 0
    requires Sum(s) == 0
    ensures AllZero(s)
  {
    if s != [] {
      NonNegativeLowerBound(s[1..]);
      NonNegativeZeroSum(s[1..]);
      forall k | 0 <= k < |s| ensures s[k] == 0 {
        if k > 0 {
          assert s[k] == s[1..][k - 1];
        }
      }
    }
  }

  lemma {:induction false} NonNegativeLowerBound(s: seq<int>)
    requires forall k :: 0 <= k < |s| ==> s[k] >= 0
    ensures Sum(s) >= 0
  {
    if s != [] {
      NonNegativeLowerBound(s[1..]);
    }
  }

  lemma {:induction false} NonPositiveUpperBound(s: seq<int>)
    requires forall k :: 0 <= k < |s| ==> s[k] <= 0
    ensures Sum(s) <= 0
  {
    NegatedSum(s);
    NonNegativeLowerBound(Negated(s));
  }

  /** One transfer fewer than there are unsettled parties (0 when all are settled). */
  function TransferBound(s: seq<int>): nat
  {
    if NonZeroCount(s) == 0 then 0 else NonZeroCount(s) - 1
  }

  /** Negating every entry negates the sum. */
  function Negated(s: seq<int>): (r: seq<int>)
    ensures |r| == |s| && forall k :: 0 <= k < |s| ==> r[k] == -s[k]
  {
    seq(|s|, k requires 0 <= k < |s| => -s[k])
  }

  lemma {:induction false} NegatedSum(s: seq<int>)
    ensures Sum(Negated(s)) == -Sum(s)
  {
    if s != [] {
      assert Negated(s)[1..] == Negated(s[1..]);
      NegatedSum(s[1..]);
    }
  }

  /** A zero-sum vector without positive entries is settled. */
  lemma {:induction false} NonPositiveZeroSum(s: seq<int>)
    requires forall k :: 0 <= k < |s| ==> s[k] <= 0
    requires Sum(s) == 0
    ensures AllZero(s)
  {
    NegatedSum(s);
    NonNegativeZeroSum(Negated(s));
  }

  /** A zero-sum vector never has exactly one unsettled party. */
  lemma {:induction false} NeverOneUnsettled(s: seq<int>)
    requires Sum(s) == 0
    ensures NonZeroCount(s) != 1
  {
    if NonZeroCount(s) == 1 {
      var i := UnsettledIndex(s);
      NonZeroCountUpdate(s, i, 0);
      NoneUnsettled(s[i := 0]);
      SumUpdate(s, i, 0);
      SettledSum(s[i := 0]);
    }
  }

  lemma {:induction false} SettledSum(s: seq<int>)
    requires AllZero(s)
    ensures Sum(s) == 0
  {
    if s != [] {
      assert s[0] == 0;
      assert AllZero(s[1..]) by {
        forall k | 0 <= k < |s[1..]| ensures s[1..][k] == 0 {
          assert s[1..][k] == s[k + 1];
        }
      }
      SettledSum(s[1..]);
    }
  }

  /** Some index holds an unsettled balance when the count is positive. */
  lemma {:induction false} UnsettledIndexExists(s: seq<int>)
    requires NonZeroCount(s) > 0
    ensures exists i :: 0 <= i < |s| && s[i] != 0
  {
    NoneUnsettled(s);
  }

  ghost function UnsettledIndex(s: seq<int>): (i: nat)
    requires NonZeroCount(s) > 0
    ensures i < |s| && s[i] != 0
  {
    UnsettledIndexExists(s);
    var i :| 0 <= i < |s| && s[i] != 0; i
  }
}
