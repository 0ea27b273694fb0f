/**
 * The subset DP settler: keep only the unsettled balances, compute the sum
 * of every subset, then for every zero-sum subset take the cheaper of
 * settling it as one group (size - 1 transfers) and splitting it into two
 * smaller groups that each settle on their own.
 */
module SubsetDP {
  import opened Options
  import opened Balances
  import opened Bits

  /** The `debts` vector: the unsettled balances, in party order. */
  function NonZeros(s: seq<int>): (d: seq<int>)
    ensures |d| == NonZeroCount(s)
    ensures forall k :: 0 <= k < |d| ==> d[k] != 0
  {
    if s == [] then [] else (if s[0] != 0 then [s[0]] else []) + NonZeros(s[1..])
  }

  /** The sum of `d[k]` over the bits k set in `mask`. */
  function SubsetSum(d: seq<int>, mask: nat): int
  {
    if d == [] then 0 else (if mask % 2 == 1 then d[0] else 0) + SubsetSum(d[1..], mask / 2)
  }

  /**
   * Reference for `dp[mask]`, None standing for INT_MAX: a zero-sum group
   * costs the cheaper of one transfer fewer than its size and the best
   * split into a proper non-empty sub-mask and the rest.
   */
  function Cost(d: seq<int>, mask: nat): Option<nat>
    requires mask < Pow2(|d|)
    decreases mask, 1, 0
  {
    if mask == 0 then Some(0)
    else if SubsetSum(d, mask) != 0 then None
    else Min(Some(PopCount(mask) - 1), Splits(d, mask, 1))
  }

  /** The best split of `mask` over the candidate sub-masks t with lo <= t < mask. */
  function Splits(d: seq<int>, mask: nat, lo: nat): Option<nat>
    requires 0 < lo <= mask < Pow2(|d|)
    decreases mask, 0, mask - lo + 1
  {
    if lo == mask then None else Min(Split(d, mask, lo), Splits(d, mask, lo + 1))
  }

  /** Settling sub-mask t and the rest of `mask` separately, when both are finite. */
  function Split(d: seq<int>, mask: nat, t: nat): Option<nat>
    requires 0 < t < mask < Pow2(|d|)
    decreases mask, 0, 0
  {
    if !IsSubmask(t, mask) then None
    else match (Cost(d, t), Cost(d, mask - t))
      case (Some(a), Some(b)) => Some(a + b)
      case _ => None
  }

  /**
   * `dpBitmaskMinTransactions`. Needs at most 30 unsettled balances, so that
   * `1 << n` fits the source's 32-bit `int`. It finds a settlement exactly
   * when the balances sum to 0, answers 0 exactly when all are settled, and
   * never needs more than one transfer fewer than there are unsettled parties.
   */
  method DpBitmaskMinTransactions(net: seq<int>) returns (r: Option<nat>)
    requires NonZeroCount(net) <= 30
    ensures r == Cost(NonZeros(net), FullMask(NonZeroCount(net)))
    ensures r.Some? <==> Sum(net) == 0
    ensures r == Some(0) <==> AllZero(net)
    ensures r.Some? ==> r.value <= TransferBound(net)
  {
    var debts := CollectDebts(net);
    var n := |debts|;
    if n == 0 {
      NonZerosSum(net);
      NoneUnsettled(net);
      return Some(0);
    }
    var sum := SubsetSums(debts);
    var size := sum.Length;
    var dp := new Option<nat>[size](_ => None);
    dp[0] := Some(0);
    var mask := 1;
    while mask < size
      modifies dp
      invariant 1 <= mask <= size
      invariant forall t :: 0 <= t < mask ==> dp[t] == Cost(debts, t)
      invariant forall t :: mask <= t < size ==> dp[t] == None
    {
      if sum[mask] == 0 {
        SettleMask(debts, dp, mask);
      }
      mask := mask + 1;
    }
    var full := size - 1;
    assert full == FullMask(n) && dp[full] == Cost(debts, full);
    r := dp[full];
    DpAnswer(net, debts, r);
  }

  /** The first loop of the source: `debts` keeps the unsettled balances in order. */
  method CollectDebts(net: seq<int>) returns (debts: seq<int>)
    ensures debts == NonZeros(net)
  {
    debts := [];
    for i := 0 to |net|
      invariant debts == NonZeros(net[..i])
    {
      NonZerosAppend(net[..i], net[i]);
      assert net[..i + 1] == net[..i] + [net[i]];
      if net[i] != 0 {
        debts := debts + [net[i]];
      }
    }
    assert net[..|net|] == net;
  }

  /**
   * The subset-sum table: `sum[mask] = sum[mask ^ lsb] + debts[ctz(lsb)]`
   * with `lsb = mask & -mask`, so every entry is the sum of its subset.
   */
  method SubsetSums(debts: seq<int>) returns (sum: array<int>)
    requires 0 < |debts| <= 30
    ensures fresh(sum) && sum.Length == Pow2(|debts|)
    ensures forall t :: 0 <= t < sum.Length ==> sum[t] == SubsetSum(debts, t)
  {
    var n := |debts|;
    Pow2BelowWord(n);
    var size := Pow2(n);
    sum := new int[size](_ => 0);
    SubsetSumEmpty(debts);
    var mask := 1;
    while mask < size
      invariant 1 <= mask <= size
      invariant forall t :: 0 <= t < mask ==> sum[t] == SubsetSum(debts, t)
    {
      var lsb := And(mask, Neg32(mask));
      SumStep(debts, mask);
      var idx := Ctz(lsb);
      sum[mask] := sum[Xor(mask, lsb)] + debts[idx];
      mask := mask + 1;
    }
  }

  /**
   * The DP step for one zero-sum mask: start from `popcount(mask) - 1` and
   * try every proper non-empty sub-mask, visited by `sub = (sub - 1) & mask`.
   */
  method SettleMask(d: seq<int>, dp: array<Option<nat>>, mask: nat)
    requires dp.Length == Pow2(|d|) && 0 < mask < dp.Length
    requires SubsetSum(d, mask) == 0
    requires forall t :: 0 <= t < mask ==> dp[t] == Cost(d, t)
    modifies dp
    ensures dp[mask] == Cost(d, mask)
    ensures forall t :: 0 <= t < dp.Length && t != mask ==> dp[t] == old(dp[t])
  {
    var best: Option<nat> := Some(PopCount(mask) - 1);
    var sub: nat := And(mask - 1, mask);
    FirstCandidate(d, mask);
    while sub > 0
      modifies {}
      invariant IsSubmask(sub, mask) && sub < mask
      invariant best == Min(Some(PopCount(mask) - 1), Splits(d, mask, sub + 1))
      decreases sub
    {
      XorOfSubmask(mask, sub);
      var rest := Xor(mask, sub);
      var a, b := dp[sub], dp[rest];
      ghost var prev := best;
      if a.Some? && b.Some? {
        best := Min(best, Some(a.value + b.value));
      }
      ghost var tried := sub;
      sub := And(sub - 1, mask);
      NextCandidate(d, mask, tried, rest, sub, prev, a, b, best);
    }
    CostUnfold(d, mask);
    dp[mask] := best;
  }

  /** The sub-mask loop starts at `(mask - 1) & mask` with no split tried yet. */
  lemma {:induction false} FirstCandidate(d: seq<int>, mask: nat)
    requires 0 < mask < Pow2(|d|)
    ensures And(mask - 1, mask) < mask && IsSubmask(And(mask - 1, mask), mask)
    ensures Splits(d, mask, And(mask - 1, mask) + 1) == None
  {
    AndIsSubmask(mask - 1, mask);
    SubmaskOfSelf(mask);
    NoSubmaskBetween(mask, mask);
    SplitsSkip(d, mask, And(mask - 1, mask) + 1, mask);
  }

  /** A zero-sum non-empty mask costs the better of one group and its best split. */
  lemma {:induction false} CostUnfold(d: seq<int>, mask: nat)
    requires 0 < mask < Pow2(|d|) && SubsetSum(d, mask) == 0
    ensures Cost(d, mask) == Min(Some(PopCount(mask) - 1), Splits(d, mask, 1))
  {
  }

  /**
   * One turn of the sub-mask loop: trying `sub` against the table entries
   * for `sub` and `mask ^ sub`, then jumping to `(sub - 1) & mask`, skips no
   * sub-mask.
   */
  lemma {:induction false} NextCandidate(d: seq<int>, mask: nat, sub: nat, rest: nat, next: nat,
                                         prev: Option<nat>, a: Option<nat>, b: Option<nat>, best: Option<nat>)
    requires 0 < sub < mask < Pow2(|d|) && IsSubmask(sub, mask) && next == And(sub - 1, mask)
    requires rest == mask - sub
    requires prev == Min(Some(PopCount(mask) - 1), Splits(d, mask, sub + 1))
    requires a == Cost(d, sub) && b == Cost(d, rest)
    requires best == if a.Some? && b.Some? then Min(prev, Some(a.value + b.value)) else prev
    ensures next < sub && IsSubmask(next, mask)
    ensures best == Min(Some(PopCount(mask) - 1), Splits(d, mask, next + 1))
  {
    var split := SplitOf(d, mask, sub, rest, a, b);
    if !(a.Some? && b.Some?) {
      MinNone(prev);
    }
    NextSubmaskSplits(d, mask, sub, next);
  }

  /** Splits over the candidates from `sub` on equal the split at `sub` and those past the next sub-mask. */
  lemma {:induction false} NextSubmaskSplits(d: seq<int>, mask: nat, sub: nat, next: nat)
    requires 0 < sub < mask < Pow2(|d|) && IsSubmask(sub, mask) && next == And(sub - 1, mask)
    ensures next < sub && IsSubmask(next, mask)
    ensures Min(Min(Some(PopCount(mask) - 1), Splits(d, mask, sub + 1)), Split(d, mask, sub))
         == Min(Some(PopCount(mask) - 1), Splits(d, mask, next + 1))
  {
    PrevSubmask(mask, sub, next);
    SkipToPrev(d, mask, sub, next);
    var top := Some(PopCount(mask) - 1);
    calc {
      Min(Min(top, Splits(d, mask, sub + 1)), Split(d, mask, sub));
      { MinSwap(top, Splits(d, mask, sub + 1), Split(d, mask, sub)); }
      Min(top, Min(Split(d, mask, sub), Splits(d, mask, sub + 1)));
      Min(top, Splits(d, mask, sub));
      Min(top, Splits(d, mask, next + 1));
    }
  }

  /** `(sub - 1) & mask` is a smaller sub-mask. */
  lemma {:induction false} PrevSubmask(mask: nat, sub: nat, next: nat)
    requires 0 < sub && next == And(sub - 1, mask)
    ensures next < sub && IsSubmask(next, mask)
  {
    AndIsSubmask(sub - 1, mask);
  }

  /** No sub-mask lies strictly between `(sub - 1) & mask` and sub, so no split is skipped. */
  lemma {:induction false} SkipToPrev(d: seq<int>, mask: nat, sub: nat, next: nat)
    requires 0 < sub < mask < Pow2(|d|) && IsSubmask(sub, mask) && next == And(sub - 1, mask) && next < sub
    ensures Splits(d, mask, next + 1) == Splits(d, mask, sub)
  {
    NoSubmaskBetween(mask, sub);
    SplitsSkip(d, mask, next + 1, sub);
  }

  /** Split unfolded for a sub-mask: both halves must be finite. */
  lemma {:induction false} SplitOf(d: seq<int>, mask: nat, t: nat, rest: nat, a: Option<nat>, b: Option<nat>)
    returns (r: Option<nat>)
    requires 0 < t < mask < Pow2(|d|) && IsSubmask(t, mask) && rest == mask - t
    requires a == Cost(d, t) && b == Cost(d, rest)
    ensures r == Split(d, mask, t)
    ensures a.Some? && b.Some? ==> r == Some(a.value + b.value)
    ensures !(a.Some? && b.Some?) ==> r == None
  {
    r := Split(d, mask, t);
  }

  // ---------------------------------------------------------------------
  // The unsettled balances

  lemma {:induction false} NonZerosAppend(a: seq<int>, x: int)
    ensures NonZeros(a + [x]) == NonZeros(a) + (if x != 0 then [x] else [])
  {
    if a != [] {
      assert (a + [x])[1..] == a[1..] + [x];
      NonZerosAppend(a[1..], x);
    } else {
      assert [x][1..] == [];
    }
  }

  /** `debts` has the same sum as `net`. */
  lemma {:induction false} NonZerosSum(s: seq<int>)
    ensures Sum(NonZeros(s)) == Sum(s)
  {
    if s != [] {
      NonZerosSum(s[1..]);
      SumAppend(if s[0] != 0 then [s[0]] else [], NonZeros(s[1..]));
    }
  }

  /** `debts` holds the values of `net` without its zeros. */
  lemma {:induction false} NonZerosValues(s: seq<int>)
    ensures multiset(NonZeros(s)) == NonZeroValues(s)
  {
    if s != [] {
      NonZerosValues(s[1..]);
    }
  }

  // ---------------------------------------------------------------------
  // Subset sums

  lemma {:induction false} SubsetSumSplit(d: seq<int>, m: nat, t: nat, r: nat)
    requires IsSubmask(t, m) && r == m - t
    ensures SubsetSum(d, m) == SubsetSum(d, t) + SubsetSum(d, r)
  {
    SubmaskBelow(t, m);
    if d != [] {
      if t == 0 {
        SubsetSumEmpty(d);
      } else {
        assert t % 2 <= m % 2;
        assert r / 2 == m / 2 - t / 2 && r % 2 == m % 2 - t % 2;
        SubsetSumSplit(d[1..], m / 2, t / 2, r / 2);
      }
    }
  }

  lemma {:induction false} SubsetSumEmpty(d: seq<int>)
    ensures SubsetSum(d, 0) == 0
  {
    if d != [] {
      SubsetSumEmpty(d[1..]);
    }
  }

  /** The single-bit mask `1 << k` sums to `d[k]`. */
  lemma {:induction false} SubsetSumOfBit(d: seq<int>, k: nat)
    requires k < |d|
    ensures SubsetSum(d, Pow2(k)) == d[k]
  {
    if k == 0 {
      SubsetSumEmpty(d[1..]);
    } else {
      SubsetSumOfBit(d[1..], k - 1);
    }
  }

  /** The first loop's step: `sum[mask] = sum[mask ^ lsb] + debts[ctz(lsb)]`. */
  lemma {:induction false} SubsetSumLowBit(d: seq<int>, m: nat, r: nat)
    requires 0 < m < Pow2(|d|) && r == m - LowBit(m)
    ensures Ctz(m) < |d|
    ensures SubsetSum(d, m) == SubsetSum(d, r) + d[Ctz(m)]
  {
    LowBitFacts(m);
    CtzBound(m, |d|);
    SubsetSumSplit(d, m, LowBit(m), r);
    SubsetSumOfBit(d, Ctz(m));
  }

  /** The subset-sum loop's step, stated on the source's own bit operations. */
  lemma {:induction false} SumStep(d: seq<int>, m: nat)
    requires 0 < m < Pow2(|d|) <= Word
    ensures And(m, Neg32(m)) == LowBit(m) > 0 && Ctz(LowBit(m)) < |d| && Xor(m, LowBit(m)) < m
    ensures SubsetSum(d, m) == SubsetSum(d, Xor(m, LowBit(m))) + d[Ctz(LowBit(m))]
  {
    LowBitOf32(m);
    LowBitFacts(m);
    CtzBound(m, |d|);
    XorOfSubmask(m, LowBit(m));
    SubsetSumLowBit(d, m, Xor(m, LowBit(m)));
  }

  /** The full mask sums all of d. */
  lemma {:induction false} SubsetSumFull(d: seq<int>)
    ensures SubsetSum(d, FullMask(|d|)) == Sum(d)
  {
    if d != [] {
      assert FullMask(|d|) / 2 == FullMask(|d| - 1);
      SubsetSumFull(d[1..]);
    }
  }

  /** A single unsettled balance on its own never sums to 0. */
  lemma {:induction false} SubsetSumSingle(d: seq<int>, m: nat)
    requires 0 < m < Pow2(|d|) && PopCount(m) == 1
    requires forall k :: 0 <= k < |d| ==> d[k] != 0
    ensures SubsetSum(d, m) != 0
  {
    LowBitFacts(m);
    assert m - LowBit(m) == 0;
    SubsetSumLowBit(d, m, 0);
    SubsetSumEmpty(d);
  }

  // ---------------------------------------------------------------------
  // The sub-mask enumeration and the DP table

  /** No sub-mask of m lies strictly between `(s - 1) & m` and s. */
  lemma {:induction false} NoSubmaskBetween(m: nat, s: nat)
    requires IsSubmask(s, m) && s > 0
    ensures forall t :: And(s - 1, m) < t < s ==> !IsSubmask(t, m)
  {
    forall t | And(s - 1, m) < t < s && IsSubmask(t, m) ensures false {
      NextSubmask(m, s, t);
    }
  }

  /** Candidates that are not sub-masks contribute nothing. */
  lemma {:induction false} SplitsSkip(d: seq<int>, mask: nat, lo: nat, hi: nat)
    requires 0 < lo <= hi <= mask < Pow2(|d|)
    requires forall t :: lo <= t < hi ==> !IsSubmask(t, mask)
    ensures Splits(d, mask, lo) == Splits(d, mask, hi)
    decreases hi - lo
  {
    if lo < hi {
      SplitsSkip(d, mask, lo + 1, hi);
    }
  }

  /**
   * `dp[mask]` is finite exactly for the zero-sum masks, and a non-empty
   * zero-sum mask never costs more than settling it as one group.
   */
  lemma {:induction false} CostFinite(d: seq<int>, mask: nat)
    requires mask < Pow2(|d|)
    ensures Cost(d, mask).Some? <==> SubsetSum(d, mask) == 0
    ensures 0 < mask && Cost(d, mask).Some? ==> Cost(d, mask).value <= PopCount(mask) - 1
  {
    SubsetSumEmpty(d);
  }

  /** The best split over candidates from lo on is no worse than the split at any t >= lo. */
  lemma {:induction false} SplitsAtMost(d: seq<int>, mask: nat, lo: nat, t: nat)
    requires 0 < lo <= t < mask < Pow2(|d|)
    requires Split(d, mask, t).Some?
    ensures Splits(d, mask, lo).Some? && Splits(d, mask, lo).value <= Split(d, mask, t).value
    decreases t - lo
  {
    if lo < t {
      SplitsAtMost(d, mask, lo + 1, t);
    }
  }

  /** The best split over candidates from lo on, when finite, is the split at some t >= lo. */
  lemma {:induction false} SplitsAttained(d: seq<int>, mask: nat, lo: nat) returns (t: nat)
    requires 0 < lo <= mask < Pow2(|d|)
    requires Splits(d, mask, lo).Some?
    ensures lo <= t < mask && Split(d, mask, t) == Splits(d, mask, lo)
    decreases mask - lo
  {
    if Splits(d, mask, lo) == Split(d, mask, lo) {
      t := lo;
    } else {
      t := SplitsAttained(d, mask, lo + 1);
    }
  }

  /** A finite split is into a sub-mask and its rest, both finite. */
  lemma {:induction false} SplitFound(d: seq<int>, mask: nat, t: nat)
    requires 0 < t < mask < Pow2(|d|)
    requires Split(d, mask, t).Some?
    ensures IsSubmask(t, mask)
    ensures Cost(d, t).Some? && Cost(d, mask - t).Some?
    ensures Split(d, mask, t).value == Cost(d, t).value + Cost(d, mask - t).value
  {
  }

  /**
   * `dp[mask] <= dp[sub] + dp[mask ^ sub]` for every finite proper non-empty
   * sub-mask: the inner loop misses no candidate.
   */
  lemma {:induction false} CostAtMostSplit(d: seq<int>, mask: nat, sub: nat, rest: nat)
    requires 0 < sub < mask < Pow2(|d|) && IsSubmask(sub, mask) && rest == mask - sub
    requires Cost(d, sub).Some? && Cost(d, rest).Some?
    ensures Cost(d, mask).Some?
    ensures Cost(d, mask).value <= Cost(d, sub).value + Cost(d, rest).value
  {
    CostFinite(d, sub);
    CostFinite(d, rest);
    SubsetSumSplit(d, mask, sub, rest);
    CostUnfold(d, mask);
    var split := SplitOf(d, mask, sub, rest, Cost(d, sub), Cost(d, rest));
    SplitsAtMost(d, mask, 1, sub);
  }

  /** Every finite split is positive-cost when no debt is zero. */
  lemma {:induction false} CostPositive(d: seq<int>, mask: nat)
    requires 0 < mask < Pow2(|d|)
    requires forall k :: 0 <= k < |d| ==> d[k] != 0
    ensures Cost(d, mask).Some? ==> Cost(d, mask).value >= 1
    decreases mask, 1
  {
    if SubsetSum(d, mask) == 0 {
      if PopCount(mask) == 1 {
        SubsetSumSingle(d, mask);
      }
      SplitsPositive(d, mask, 1);
    }
  }

  lemma {:induction false} SplitsPositive(d: seq<int>, mask: nat, lo: nat)
    requires 0 < lo <= mask < Pow2(|d|)
    requires forall k :: 0 <= k < |d| ==> d[k] != 0
    ensures Splits(d, mask, lo).Some? ==> Splits(d, mask, lo).value >= 2
    decreases mask, 0, mask - lo
  {
    if lo < mask {
      SplitsPositive(d, mask, lo + 1);
      if IsSubmask(lo, mask) {
        CostPositive(d, lo);
        CostPositive(d, mask - lo);
      }
    }
  }

  /** The answer for balances with at least one unsettled party, stated on the balances. */
  lemma {:induction false} DpAnswer(net: seq<int>, d: seq<int>, r: Option<nat>)
    requires d == NonZeros(net) && 0 < |d|
    requires r == Cost(d, FullMask(|d|))
    ensures r.Some? <==> Sum(net) == 0
    ensures r != Some(0) && !AllZero(net)
    ensures r.Some? ==> r.value <= TransferBound(net)
  {
    NonZerosSum(net);
    NoneUnsettled(net);
    DpOutcome(d);
  }

  /** What the answer `dp[(1 << m) - 1]` means for the debts it was built from. */
  lemma {:induction false} DpOutcome(d: seq<int>)
    requires 0 < |d|
    requires forall k :: 0 <= k < |d| ==> d[k] != 0
    ensures Cost(d, FullMask(|d|)).Some? <==> Sum(d) == 0
    ensures Cost(d, FullMask(|d|)) != Some(0)
    ensures Cost(d, FullMask(|d|)).Some? ==> Cost(d, FullMask(|d|)).value <= |d| - 1
  {
    SubsetSumFull(d);
    PopCountOfFull(|d|);
    CostPositive(d, FullMask(|d|));
  }
}
