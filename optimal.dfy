/**
 * What the exhaustive and the subset DP settlers compute, and why they agree.
 * Both answers are characterised by the splits of the unsettled balances into
 * zero-sum groups (module Groups): for every such split P the answer is at
 * most the number of unsettled balances minus |P|, and some split attains it.
 * So both answers are the fewest transfers over all such splits, hence equal.
 */
module Optimal {
  import opened Options
  import opened Balances
  import opened Bits
  import opened Groups
  import opened Exhaustive
  import opened SubsetDP

  // ---------------------------------------------------------------------
  // The exhaustive search and its unsettled balances

  lemma {:induction false} ValuesFromFirstNonZero(s: seq<int>, start: nat)
    requires start <= |s|
    ensures NonZeroValues(s[start..]) == NonZeroValues(s[FirstNonZero(s, start)..])
    decreases |s| - start
  {
    if start < |s| && s[start] == 0 {
      assert s[start..][1..] == s[start + 1..];
      ValuesFromFirstNonZero(s, start + 1);
    }
  }

  lemma {:induction false} ValuesAtFirst(s: seq<int>, st: nat)
    requires st < |s|
    ensures NonZeroValues(s[st..]) == Nz(s[st]) + NonZeroValues(s[st + 1..])
  {
    assert s[st..][1..] == s[st + 1..];
  }

  /** Folding party st into j: the suffix after st loses s[j] and gains s[j] + s[st]. */
  lemma {:induction false} FoldValues(s: seq<int>, st: nat, j: nat)
    requires st < j < |s| && s[j] != 0
    ensures NonZeroValues(s[j := s[j] + s[st]][st + 1..]) + multiset{s[j]}
         == NonZeroValues(s[st + 1..]) + Nz(s[j] + s[st])
  {
    FoldedSuffix(s, s[j := s[j] + s[st]], st, j);
  }

  lemma {:induction false} FoldedSuffix(s: seq<int>, t: seq<int>, st: nat, j: nat)
    requires st < j < |s| && s[j] != 0 && t == s[j := s[j] + s[st]]
    ensures NonZeroValues(t[st + 1..]) + multiset{s[j]} == NonZeroValues(s[st + 1..]) + Nz(s[j] + s[st])
  {
    var r, r2, i := s[st + 1..], t[st + 1..], j - st - 1;
    assert r[i] == s[j] && r2[i] == s[j] + s[st];
    UpdateValues(r, r2, i);
  }

  /** Changing one entry of a vector changes its unsettled balances by that entry only. */
  lemma {:induction false} UpdateValues(r: seq<int>, r2: seq<int>, i: nat)
    requires i < |r| == |r2| && forall k :: 0 <= k < |r| && k != i ==> r2[k] == r[k]
    ensures NonZeroValues(r2) + Nz(r[i]) == NonZeroValues(r) + Nz(r2[i])
  {
    assert r2 == r[i := r2[i]];
    NonZeroValuesUpdate(r, i, r2[i]);
    MultisetRestore(NonZeroValues(r), Nz(r[i]), Nz(r2[i]));
  }

  /**
   * The multiset bookkeeping of one fold of x into y, where M = {x} + R is
   * before the fold and M' + {y} = R + Z after it: a split of what is left
   * after taking x and y out of M is a split of M'.
   */
  lemma {:induction false} FoldBalance(F: multiset<int>, M: multiset<int>, M': multiset<int>, R: multiset<int>, x: int, y: int)
    requires x != 0 && M == Nz(x) + R && M' + multiset{y} == R + Nz(y + x)
    requires Replaced(F, M, x, y)
    ensures F == M'
    ensures |M'| + 1 + (if x + y == 0 then 1 else 0) == |M|
  {
    var Z := Nz(x + y);
    assert Nz(y + x) == Z by { assert y + x == x + y; }
    assert forall o :: F[o] == (F + multiset{x} + multiset{y})[o] - multiset{x}[o] - multiset{y}[o];
    assert forall o :: M'[o] == (M' + multiset{y})[o] - multiset{y}[o];
    assert |Nz(x)| == 1 && |Nz(x) + R| == |Nz(x)| + |R|;
    assert |M' + multiset{y}| == |M'| + 1 && |R + Z| == |R| + |Z|;
    assert |Z| == if x + y == 0 then 0 else 1;
  }

  /** The partner y that a split pairs with x = s[st] is held by a later party. */
  lemma {:induction false} PartnerInRest(M: multiset<int>, R: multiset<int>, x: int, y: int)
    requires x != 0 && M == Nz(x) + R
    requires multiset{x} + multiset{y} <= M
    ensures y in R
  {
    assert M[y] >= (multiset{x} + multiset{y})[y];
  }

  /** The same bookkeeping read the other way: M' with x and y put back is M with Z. */
  lemma {:induction false} LiftBalance(M: multiset<int>, M': multiset<int>, R: multiset<int>, Z: multiset<int>, x: int, y: int)
    requires x != 0 && M == Nz(x) + R && M' + multiset{y} == R + Z
    ensures M' + multiset{x} + multiset{y} == M + Z
  {
    calc {
      M' + multiset{x} + multiset{y};
      multiset{x} + (M' + multiset{y});
      multiset{x} + (R + Z);
      (multiset{x} + R) + Z;
    }
  }

  /** A balance in the multiset of a vector's unsettled balances is held by some party. */
  lemma {:induction false} IndexOfValue(s: seq<int>, v: int) returns (k: nat)
    requires v in NonZeroValues(s)
    ensures k < |s| && s[k] == v
  {
    if s[0] == v {
      k := 0;
    } else {
      assert v in NonZeroValues(s[1..]);
      var k' := IndexOfValue(s[1..], v);
      k := k' + 1;
    }
  }

  /** The same, for a suffix: the party's index is counted from the start. */
  lemma {:induction false} IndexInSuffix(s: seq<int>, from: nat, v: int) returns (j: nat)
    requires from <= |s| && v in NonZeroValues(s[from..])
    ensures from <= j < |s| && s[j] == v
  {
    var k := IndexOfValue(s[from..], v);
    j := from + k;
    assert s[from..][k] == s[j];
  }

  /**
   * (Lower bound on splits.) For every split P of the unsettled balances from
   * `start` on into zero-sum groups, the search needs at most one transfer
   * fewer than each group's size, summed: value + |P| <= number of balances.
   */
  lemma {:induction false} SearchAtMost(s: seq<int>, start: nat, P: seq<seq<int>>)
    requires start <= |s|
    requires IsPartition(P, NonZeroValues(s[start..]))
    ensures Search(s, start).Some?
    ensures Search(s, start).value + |P| <= |NonZeroValues(s[start..])|
    decreases |s| - start, 1
  {
    var st := FirstNonZero(s, start);
    ValuesFromFirstNonZero(s, start);
    if st == |s| {
      assert s[st..] == [];
      PartitionSize(P, NonZeroValues(s[start..]));
    } else {
      FoldAtMost(s, st, P);
    }
  }

  lemma {:induction false} FoldAtMost(s: seq<int>, st: nat, P: seq<seq<int>>)
    requires st < |s| && s[st] != 0
    requires IsPartition(P, NonZeroValues(s[st..]))
    ensures BestFold(s, st, |s|).Some?
    ensures BestFold(s, st, |s|).value + |P| <= |NonZeroValues(s[st..])|
    decreases |s| - st, 0
  {
    var j, P' := ChoosePartner(s, st, P);
    FoldOpposite(s, st, j);
    SearchAtMost(s[j := s[j] + s[st]], st + 1, P');
    BestFoldLe(s, st, |s|, j);
  }

  /**
   * The group of P holding x = s[st] names a later party j of opposite sign;
   * folding st into j leaves balances that P, minus x and with y replaced by
   * x + y, still splits into zero-sum groups.
   */
  lemma {:induction false} ChoosePartner(s: seq<int>, st: nat, P: seq<seq<int>>) returns (j: nat, P': seq<seq<int>>)
    requires st < |s| && s[st] != 0
    requires IsPartition(P, NonZeroValues(s[st..]))
    ensures st < j < |s| && Opposite(s[st], s[j])
    ensures IsPartition(P', NonZeroValues(s[j := s[j] + s[st]][st + 1..]))
    ensures |NonZeroValues(s[j := s[j] + s[st]][st + 1..])| + 1 + |P| <= |NonZeroValues(s[st..])| + |P'|
  {
    var P2;
    j, P2 := PairInSplit(s, st, P);
    ValuesAtFirst(s, st);
    FoldValues(s, st, j);
    FoldBalance(multiset(Flatten(P2)), NonZeroValues(s[st..]), NonZeroValues(s[j := s[j] + s[st]][st + 1..]),
                NonZeroValues(s[st + 1..]), s[st], s[j]);
    P' := P2;
  }

  /**
   * The group of P holding x = s[st] pairs it with the balance y of a later
   * party j; what remains of P once x and y are taken out (and x + y put in
   * when it is not 0) still splits into zero-sum groups.
   */
  lemma {:induction false} PairInSplit(s: seq<int>, st: nat, P: seq<seq<int>>) returns (j: nat, P2: seq<seq<int>>)
    requires st < |s| && s[st] != 0
    requires IsPartition(P, NonZeroValues(s[st..]))
    ensures st < j < |s| && Opposite(s[st], s[j])
    ensures IsPartition(P2, multiset(Flatten(P2)))
    ensures Replaced(multiset(Flatten(P2)), NonZeroValues(s[st..]), s[st], s[j])
    ensures |P2| + (if s[st] + s[j] == 0 then 1 else 0) >= |P|
  {
    ValuesAtFirst(s, st);
    var y;
    y, P2 := SplitPartition(NonZeroValues(s[st..]), P, s[st]);
    PartnerInRest(NonZeroValues(s[st..]), NonZeroValues(s[st + 1..]), s[st], y);
    j := IndexInSuffix(s, st + 1, y);
  }

  /**
   * (Attained.) When the search finds a settlement, some split of the
   * unsettled balances into zero-sum groups matches it exactly.
   */
  lemma {:induction false} SearchPartition(s: seq<int>, start: nat) returns (P: seq<seq<int>>)
    requires start <= |s|
    requires Search(s, start).Some?
    ensures IsPartition(P, NonZeroValues(s[start..]))
    ensures Search(s, start).value + |P| == |NonZeroValues(s[start..])|
    decreases |s| - start, 1
  {
    var st := FirstNonZero(s, start);
    ValuesFromFirstNonZero(s, start);
    if st == |s| {
      assert s[st..] == [];
      P := [];
    } else {
      P := FoldPartition(s, st);
    }
  }

  lemma {:induction false} FoldPartition(s: seq<int>, st: nat) returns (P: seq<seq<int>>)
    requires st < |s| && s[st] != 0
    requires BestFold(s, st, |s|).Some?
    ensures IsPartition(P, NonZeroValues(s[st..]))
    ensures BestFold(s, st, |s|).value + |P| == |NonZeroValues(s[st..])|
    decreases |s| - st, 0
  {
    var j := BestFoldAttained(s, st, |s|);
    var x, y := s[st], s[j];
    var s' := s[j := s[j] + s[st]];
    FoldFound(s, st, j);
    var P' := SearchPartition(s', st + 1);
    ValuesAtFirst(s, st);
    FoldValues(s, st, j);
    P := LiftFold(NonZeroValues(s[st..]), NonZeroValues(s'[st + 1..]), NonZeroValues(s[st + 1..]), x, y, P');
  }

  /**
   * A split of the balances after folding x into y, lifted to a split of the
   * balances before the fold, with one group more exactly when x + y == 0.
   */
  lemma {:induction false} LiftFold(M: multiset<int>, M': multiset<int>, R: multiset<int>, x: int, y: int, P': seq<seq<int>>)
    returns (P: seq<seq<int>>)
    requires x != 0 && y != 0 && M == Nz(x) + R && M' + multiset{y} == R + Nz(x + y)
    requires IsPartition(P', M')
    ensures IsPartition(P, M)
    ensures |M'| + 1 + |P| == |M| + |P'|
  {
    LiftBalance(M, M', R, Nz(x + y), x, y);
    P := LiftPartition(M, M', x, y, P');
    assert |M' + multiset{x} + multiset{y}| == |M'| + 2;
    assert |M + Nz(x + y)| == |M| + |Nz(x + y)|;
    assert |Nz(x + y)| == if x + y == 0 then 0 else 1;
  }

  /**
   * One transfer that turns balances x and y into x + y (dropping it when it
   * is 0) costs the search at most one transfer: the search on the vector
   * before the transfer is no worse than one plus the search after it.
   */
  lemma {:induction false} TransferStep(s: seq<int>, s2: seq<int>, x: int, y: int)
    requires x != 0 && y != 0
    requires Search(s2, 0).Some?
    requires NonZeroValues(s2) + multiset{x} + multiset{y} == NonZeroValues(s) + Nz(x + y)
    ensures Search(s, 0).Some? && Search(s, 0).value <= Search(s2, 0).value + 1
  {
    assert s2[0..] == s2 && s[0..] == s;
    var M, M2 := NonZeroValues(s), NonZeroValues(s2);
    var P2 := SearchPartition(s2, 0);
    var P := LiftPartition(M, M2, x, y, P2);
    SearchAtMost(s, 0, P);
    assert |M2 + multiset{x} + multiset{y}| == |M2| + 2;
    assert |M + Nz(x + y)| == |M| + |Nz(x + y)|;
    assert |Nz(x + y)| == if x + y == 0 then 0 else 1;
  }

  // ---------------------------------------------------------------------
  // The subset DP and the balances a mask selects

  /** The debts `d[k]` for the bits k set in mask, in index order. */
  function Pick(d: seq<int>, mask: nat): (r: seq<int>)
    ensures |r| <= |d|
  {
    if d == [] then [] else (if mask % 2 == 1 then [d[0]] else []) + Pick(d[1..], mask / 2)
  }

  /** The debts a mask selects, forgetting their order. */
  function Picked(d: seq<int>, mask: nat): multiset<int>
  {
    multiset(Pick(d, mask))
  }

  /** The debt d[0] when bit 0 of mask is set, as a multiset. */
  function Head(d: seq<int>, mask: nat): multiset<int>
    requires d != []
  {
    if mask % 2 == 1 then multiset{d[0]} else multiset{}
  }

  lemma {:induction false} PickUnfold(d: seq<int>, mask: nat)
    requires d != []
    ensures Picked(d, mask) == Head(d, mask) + Picked(d[1..], mask / 2)
  {
  }

  lemma {:induction false} PickSum(d: seq<int>, mask: nat)
    ensures Sum(Pick(d, mask)) == SubsetSum(d, mask)
  {
    if d != [] {
      PickSum(d[1..], mask / 2);
      SumAppend(if mask % 2 == 1 then [d[0]] else [], Pick(d[1..], mask / 2));
    }
  }

  lemma {:induction false} PickSize(d: seq<int>, mask: nat)
    requires mask < Pow2(|d|)
    ensures |Pick(d, mask)| == PopCount(mask)
  {
    if d != [] {
      PickSize(d[1..], mask / 2);
    }
  }

  lemma {:induction false} PickEmpty(d: seq<int>)
    ensures Pick(d, 0) == []
  {
    if d != [] {
      PickEmpty(d[1..]);
    }
  }

  /** A sub-mask t and the rest `mask - t` pick the debts of mask between them. */
  lemma {:induction false} PickSplit(d: seq<int>, mask: nat, t: nat, r: nat)
    requires IsSubmask(t, mask) && t + r == mask
    ensures Picked(d, mask) == Picked(d, t) + Picked(d, r)
  {
    if d == [] {
      assert Pick(d, mask) == [] && Pick(d, t) == [] && Pick(d, r) == [];
    } else if t == 0 {
      PickSplitZero(d, mask, t, r);
    } else {
      SubmaskBelow(t, mask);
      SubmaskLowBits(t, mask);
      assert r / 2 + t / 2 == mask / 2 && r % 2 == mask % 2 - t % 2;
      PickSplit(d[1..], mask / 2, t / 2, r / 2);
      PickSplitStep(d, mask, t, r);
    }
  }

  lemma {:induction false} PickSplitZero(d: seq<int>, mask: nat, t: nat, r: nat)
    requires t == 0 && t + r == mask
    ensures Picked(d, mask) == Picked(d, t) + Picked(d, r)
  {
    PickEmpty(d);
    assert r == mask;
    assert Picked(d, t) == multiset{};
    assert multiset{} + Picked(d, r) == Picked(d, r);
  }

  lemma {:induction false} SubmaskLowBits(t: nat, m: nat)
    requires IsSubmask(t, m) && t > 0
    ensures t % 2 <= m % 2 && IsSubmask(t / 2, m / 2)
  {
  }

  lemma {:induction false} PickSplitStep(d: seq<int>, mask: nat, t: nat, r: nat)
    requires d != [] && r % 2 == mask % 2 - t % 2
    requires Picked(d[1..], mask / 2) == Picked(d[1..], t / 2) + Picked(d[1..], r / 2)
    ensures Picked(d, mask) == Picked(d, t) + Picked(d, r)
  {
    var hm, ht, hr := Head(d, mask), Head(d, t), Head(d, r);
    var pm, pt, pr := Picked(d[1..], mask / 2), Picked(d[1..], t / 2), Picked(d[1..], r / 2);
    assert hm == ht + hr;
    PickUnfold(d, mask);
    PickUnfold(d, t);
    PickUnfold(d, r);
    calc {
      Picked(d, mask);
      hm + pm;
      (ht + hr) + (pt + pr);
      (ht + pt) + (hr + pr);
      Picked(d, t) + Picked(d, r);
    }
  }

  /** The full mask picks every debt. */
  lemma {:induction false} PickFull(d: seq<int>, k: nat)
    requires k == |d|
    ensures Pick(d, FullMask(k)) == d
  {
    if d != [] {
      PickFull(d[1..], k - 1);
      assert FullMask(k) / 2 == FullMask(k - 1);
    }
  }

  /** Any sub-multiset of the debts a mask selects is picked by one of its sub-masks. */
  lemma {:induction false} PickSubmask(d: seq<int>, mask: nat, S: multiset<int>) returns (t: nat)
    requires S <= Picked(d, mask)
    ensures IsSubmask(t, mask) && Picked(d, t) == S
  {
    if d == [] {
      t := 0;
      assert Pick(d, mask) == [] && Pick(d, t) == [];
    } else {
      PickUnfold(d, mask);
      var rest := Picked(d[1..], mask / 2);
      var b: nat := if mask % 2 == 1 && d[0] in S then 1 else 0;
      var S' := if b == 1 then S - multiset{d[0]} else S;
      TakeHead(S, Head(d, mask), rest, d[0], b == 1);
      var t' := PickSubmask(d[1..], mask / 2, S');
      t := 2 * t' + b;
      SubmaskDouble(t', mask, b, t);
      PickUnfold(d, t);
      assert t / 2 == t' && t % 2 == b;
      assert Head(d, t) == if b == 1 then multiset{d[0]} else multiset{};
    }
  }

  /** Splitting the wanted multiset S along the head debt x and the rest R. */
  lemma {:induction false} TakeHead(S: multiset<int>, H: multiset<int>, R: multiset<int>, x: int, take: bool)
    requires S <= H + R
    requires H == multiset{x} || H == multiset{}
    requires take <==> H == multiset{x} && x in S
    ensures take ==> S - multiset{x} <= R && multiset{x} + (S - multiset{x}) == S
    ensures !take ==> S <= R && multiset{} + S == S
  {
  }

  /** Appending bit b below a sub-mask of `m / 2` gives a sub-mask of m when m has bit b. */
  lemma {:induction false} SubmaskDouble(t': nat, m: nat, b: nat, t: nat)
    requires IsSubmask(t', m / 2) && b <= 1 && (b == 1 ==> m % 2 == 1)
    requires t == 2 * t' + b
    ensures IsSubmask(t, m)
  {
    assert t / 2 == t' && t % 2 == b;
    if t' > 0 {
      assert m / 2 > 0;
    }
  }

  /**
   * (Lower bound on splits.) For every split P of the debts in mask into
   * zero-sum groups, `dp[mask]` is finite and at most the number of debts
   * minus |P|.
   */
  lemma {:induction false} CostAtMost(d: seq<int>, mask: nat, P: seq<seq<int>>)
    requires mask < Pow2(|d|)
    requires IsPartition(P, Picked(d, mask))
    ensures Cost(d, mask).Some?
    ensures Cost(d, mask).value + |P| <= PopCount(mask)
    decreases |P|
  {
    PickSize(d, mask);
    PartitionSize(P, Picked(d, mask));
    if mask > 0 {
      PickSum(d, mask);
      PartitionSum(P, Picked(d, mask), Pick(d, mask));
      CostFinite(d, mask);
      if |P| > 1 {
        var t, r := SplitOffGroup(d, mask, P);
        CostAtMost(d, t, [P[0]]);
        CostAtMost(d, r, P[1..]);
        CostAtMostSplit(d, mask, t, r);
        PopCountSplit(mask, t, r);
      }
    }
  }

  /**
   * The first group of a split of the debts in mask is picked by a proper
   * non-empty sub-mask t, and the other groups by the rest r.
   */
  lemma {:induction false} SplitOffGroup(d: seq<int>, mask: nat, P: seq<seq<int>>) returns (t: nat, r: nat)
    requires mask < Pow2(|d|)
    requires IsPartition(P, Picked(d, mask)) && |P| > 1
    ensures 0 < t < mask && IsSubmask(t, mask) && r == mask - t
    ensures IsPartition([P[0]], Picked(d, t))
    ensures IsPartition(P[1..], Picked(d, r))
  {
    var M := Picked(d, mask);
    var B, F := multiset(P[0]), multiset(Flatten(P[1..]));
    FirstGroup(P, M);
    t := PickSubmask(d, mask, B);
    SubmaskBelow(t, mask);
    r := mask - t;
    PickSplit(d, mask, t, r);
    MultisetCancel(Picked(d, r), F, B);
    PickEmpty(d);
    assert P[1..][0] == P[1];
    GroupInFlatten(P[1..], 0);
  }

  /**
   * (Attained.) When `dp[mask]` is finite, some split of the debts in mask
   * into zero-sum groups matches it exactly.
   */
  lemma {:induction false} CostPartition(d: seq<int>, mask: nat) returns (P: seq<seq<int>>)
    requires mask < Pow2(|d|)
    requires Cost(d, mask).Some?
    ensures IsPartition(P, Picked(d, mask))
    ensures Cost(d, mask).value + |P| == PopCount(mask)
    decreases mask
  {
    if mask == 0 {
      PickEmpty(d);
      P := [];
    } else {
      CostFinite(d, mask);
      CostUnfold(d, mask);
      if Cost(d, mask) == Some(PopCount(mask) - 1) {
        P := [Pick(d, mask)];
        PickSize(d, mask);
        PickSum(d, mask);
        assert Flatten(P) == Pick(d, mask) + Flatten([]);
      } else {
        var t := SplitsAttained(d, mask, 1);
        SplitFound(d, mask, t);
        var r := mask - t;
        var P1 := CostPartition(d, t);
        var P2 := CostPartition(d, r);
        PickSplit(d, mask, t, r);
        JoinPartitions(P1, Picked(d, t), P2, Picked(d, r));
        PopCountSplit(mask, t, r);
        P := P1 + P2;
      }
    }
  }

  // ---------------------------------------------------------------------
  // The two optimal settlers agree

  /**
   * On every balance vector the exhaustive search and the subset DP give the
   * same answer: both None when the balances do not sum to 0, and otherwise
   * the same (fewest) number of transfers.
   */
  lemma {:induction false} SolversAgree(net: seq<int>)
    ensures Search(net, 0).Some? <==> Cost(NonZeros(net), FullMask(NonZeroCount(net))).Some?
    ensures Search(net, 0).Some? ==> Search(net, 0).value == Cost(NonZeros(net), FullMask(NonZeroCount(net))).value
  {
    AgreeOn(net, NonZeros(net), NonZeroCount(net));
  }

  /** The full mask over the `debts` vector picks exactly the unsettled balances... */
  lemma {:induction false} FullPicked(net: seq<int>, d: seq<int>, k: nat)
    requires d == NonZeros(net) && k == |d|
    ensures Picked(d, FullMask(k)) == NonZeroValues(net[0..])
  {
    PickedFull(d, k);
    NonZerosValues(net);
    ValuesFromZero(net);
  }

  lemma {:induction false} PickedFull(d: seq<int>, k: nat)
    requires k == |d|
    ensures Picked(d, FullMask(k)) == multiset(d)
  {
    PickFull(d, k);
  }

  lemma {:induction false} ValuesFromZero(s: seq<int>)
    ensures NonZeroValues(s[0..]) == NonZeroValues(s)
  {
    assert s[0..] == s;
  }

  /** ... and has one bit per unsettled balance. */
  lemma {:induction false} FullCount(net: seq<int>, d: seq<int>, k: nat)
    requires d == NonZeros(net) && k == |d|
    ensures PopCount(FullMask(k)) == |NonZeroValues(net[0..])|
  {
    NonZeroValuesSize(net);
    PopCountOfFull(k);
    ValuesFromZero(net);
  }

  /** Search and Cost agree on the full mask over the unsettled balances. */
  lemma {:induction false} AgreeOn(s: seq<int>, d: seq<int>, k: nat)
    requires d == NonZeros(s) && k == NonZeroCount(s)
    ensures Search(s, 0).Some? <==> Cost(d, FullMask(k)).Some?
    ensures Search(s, 0).Some? ==> Search(s, 0).value == Cost(d, FullMask(k)).value
  {
    FullPicked(s, d, k);
    FullCount(s, d, k);
    var a, b := Search(s, 0), Cost(d, FullMask(k));
    if a.Some? {
      CostBelowSearch(s, d, k);
    }
    if b.Some? {
      SearchBelowCost(s, d, k);
    }
    assert a.Some? ==> b.Some? && a.value == b.value;
    assert b.Some? ==> a.Some?;
  }

  lemma {:induction false} CostBelowSearch(s: seq<int>, d: seq<int>, k: nat)
    requires k == |d|
    requires Picked(d, FullMask(k)) == NonZeroValues(s[0..])
    requires PopCount(FullMask(k)) == |NonZeroValues(s[0..])|
    requires Search(s, 0).Some?
    ensures Cost(d, FullMask(k)).Some? && Cost(d, FullMask(k)).value <= Search(s, 0).value
  {
    var P := SearchPartition(s, 0);
    CostAtMost(d, FullMask(k), P);
  }

  lemma {:induction false} SearchBelowCost(s: seq<int>, d: seq<int>, k: nat)
    requires k == |d|
    requires Picked(d, FullMask(k)) == NonZeroValues(s[0..])
    requires PopCount(FullMask(k)) == |NonZeroValues(s[0..])|
    requires Cost(d, FullMask(k)).Some?
    ensures Search(s, 0).Some? && Search(s, 0).value <= Cost(d, FullMask(k)).value
  {
    var Q := CostPartition(d, FullMask(k));
    SearchAtMost(s, 0, Q);
  }
}
