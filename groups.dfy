/**
 * Settling groups. A settlement plan splits the unsettled balances into
 * non-empty groups that each sum to 0; a group of k parties settles among
 * itself with k - 1 transfers. These splits are what the answers of the
 * exhaustive and the subset DP settlers are characterised by: fewer
 * transfers exactly when the balances split into more groups.
 */
module Groups {
  import opened Balances

  /** The members of all groups, group after group. */
  function Flatten(P: seq<seq<int>>): seq<int>
  {
    if P == [] then [] else P[0] + Flatten(P[1..])
  }

  /** P splits the balances M into non-empty groups that each sum to 0. */
  predicate IsPartition(P: seq<seq<int>>, M: multiset<int>)
  {
    && multiset(Flatten(P)) == M
    && forall b :: 0 <= b < |P| ==> P[b] != [] && Sum(P[b]) == 0
  }

  /**
   * M' is M with the two balances x and y replaced by x + y (nothing when
   * x + y is 0): the effect of one transfer that settles x or y.
   */
  predicate Replaced(M': multiset<int>, M: multiset<int>, x: int, y: int)
  {
    M' + multiset{x} + multiset{y} == M + Nz(x + y)
  }

  /** The group s without its member at index i. */
  function RemoveAt(s: seq<int>, i: nat): (r: seq<int>)
    requires i < |s|
    ensures |r| == |s| - 1
  {
    s[..i] + s[i + 1..]
  }

  lemma {:induction false} RemoveAtFacts(s: seq<int>, i: nat)
    requires i < |s|
    ensures Sum(RemoveAt(s, i)) == Sum(s) - s[i]
    ensures multiset(RemoveAt(s, i)) + multiset{s[i]} == multiset(s)
  {
    var head, tail := s[..i], s[i + 1..];
    assert s == head + ([s[i]] + tail);
    assert ([s[i]] + tail)[1..] == tail;
    SumAppend(head, [s[i]] + tail);
    SumAppend(head, tail);
    calc {
      multiset(s);
      multiset(head) + multiset([s[i]] + tail);
      multiset(head) + multiset{s[i]} + multiset(tail);
    }
  }

  /** The same, for a member known to be v. */
  lemma {:induction false} RemoveValue(s: seq<int>, i: nat, v: int)
    requires i < |s| && s[i] == v
    ensures Sum(RemoveAt(s, i)) == Sum(s) - v
    ensures multiset(RemoveAt(s, i)) + multiset{v} == multiset(s)
  {
    RemoveAtFacts(s, i);
  }

  lemma {:induction false} MultisetCancel(A: multiset<int>, B: multiset<int>, C: multiset<int>)
    requires A + C == B + C
    ensures A == B
  {
    assert forall o :: A[o] == (A + C)[o] - C[o] && B[o] == (B + C)[o] - C[o];
  }

  /** Taking B out of A and putting it back leaves A. */
  lemma {:induction false} MultisetRestore(A: multiset<int>, B: multiset<int>, C: multiset<int>)
    requires B <= A
    ensures A - B + C + B == A + C
  {
    assert forall o :: (A - B + C + B)[o] == (A + C)[o];
  }

  lemma {:induction false} IndexOf(s: seq<int>, v: int) returns (i: nat)
    requires v in s
    ensures i < |s| && s[i] == v
  {
    i :| 0 <= i < |s| && s[i] == v;
  }

  // ---------------------------------------------------------------------
  // Flattening

  lemma {:induction false} FlattenAppend(P: seq<seq<int>>, Q: seq<seq<int>>)
    ensures Flatten(P + Q) == Flatten(P) + Flatten(Q)
  {
    if P == [] {
      assert P + Q == Q;
    } else {
      assert (P + Q)[1..] == P[1..] + Q;
      FlattenAppend(P[1..], Q);
    }
  }

  lemma {:induction false} GroupInFlatten(P: seq<seq<int>>, b: nat)
    requires b < |P|
    ensures multiset(P[b]) <= multiset(Flatten(P))
  {
    if b > 0 {
      GroupInFlatten(P[1..], b - 1);
    }
  }

  /** Replacing group b by B trades the members of the one for those of the other. */
  lemma {:induction false} FlattenUpdate(P: seq<seq<int>>, b: nat, B: seq<int>)
    requires b < |P|
    ensures multiset(Flatten(P[b := B])) + multiset(P[b]) == multiset(Flatten(P)) + multiset(B)
  {
    if b == 0 {
      assert P[b := B][1..] == P[1..];
    } else {
      var Q, R := P[b := B], P[1..];
      assert Q[0] == P[0] && Q[1..] == R[b - 1 := B] && P[b] == R[b - 1];
      FlattenUpdate(R, b - 1, B);
      calc {
        multiset(Flatten(Q)) + multiset(P[b]);
        multiset(P[0]) + (multiset(Flatten(R[b - 1 := B])) + multiset(R[b - 1]));
        multiset(P[0]) + (multiset(Flatten(R)) + multiset(B));
        multiset(Flatten(P)) + multiset(B);
      }
    }
  }

  /** Dropping group b drops exactly its members. */
  lemma {:induction false} FlattenRemove(P: seq<seq<int>>, b: nat)
    requires b < |P|
    ensures multiset(Flatten(P[..b] + P[b + 1..])) + multiset(P[b]) == multiset(Flatten(P))
  {
    var tail := [P[b]] + P[b + 1..];
    assert P == P[..b] + tail;
    assert tail[1..] == P[b + 1..];
    FlattenAppend(P[..b], tail);
    FlattenAppend(P[..b], P[b + 1..]);
  }

  /** A member of some group: the index of a group holding it. */
  lemma {:induction false} FindGroup(P: seq<seq<int>>, v: int) returns (b: nat)
    requires v in multiset(Flatten(P))
    ensures b < |P| && v in P[b]
  {
    if v in P[0] {
      b := 0;
    } else {
      var c := FindGroup(P[1..], v);
      b := c + 1;
    }
  }

  lemma {:induction false} FlattenLength(P: seq<seq<int>>)
    requires forall b :: 0 <= b < |P| ==> P[b] != []
    ensures |Flatten(P)| >= |P|
  {
    if P != [] {
      FlattenLength(P[1..]);
    }
  }

  /** There are never more groups than balances; no balances means no groups. */
  lemma {:induction false} PartitionSize(P: seq<seq<int>>, M: multiset<int>)
    requires IsPartition(P, M)
    ensures |P| <= |M|
    ensures M == multiset{} ==> P == []
  {
    FlattenLength(P);
  }

  /** Two splits side by side split the union of what each splits. */
  lemma {:induction false} JoinPartitions(P1: seq<seq<int>>, M1: multiset<int>, P2: seq<seq<int>>, M2: multiset<int>)
    requires IsPartition(P1, M1) && IsPartition(P2, M2)
    ensures IsPartition(P1 + P2, M1 + M2) && |P1 + P2| == |P1| + |P2|
  {
    FlattenAppend(P1, P2);
    var P := P1 + P2;
    forall b | 0 <= b < |P| ensures P[b] != [] && Sum(P[b]) == 0 {
      if b >= |P1| {
        assert P[b] == P2[b - |P1|];
      }
    }
  }

  /** The first group of a split on its own, and the split of what the other groups hold. */
  lemma {:induction false} FirstGroup(P: seq<seq<int>>, M: multiset<int>)
    requires IsPartition(P, M) && P != []
    ensures IsPartition([P[0]], multiset(P[0]))
    ensures IsPartition(P[1..], multiset(Flatten(P[1..])))
    ensures M == multiset(P[0]) + multiset(Flatten(P[1..]))
  {
    assert Flatten([P[0]]) == P[0] + Flatten([]);
    forall b | 0 <= b < |P[1..]| ensures P[1..][b] != [] && Sum(P[1..][b]) == 0 {
      assert P[1..][b] == P[b + 1];
    }
  }

  lemma {:induction false} SumOfGroups(P: seq<seq<int>>)
    requires forall b :: 0 <= b < |P| ==> Sum(P[b]) == 0
    ensures Sum(Flatten(P)) == 0
  {
    if P != [] {
      SumOfGroups(P[1..]);
      SumAppend(P[0], Flatten(P[1..]));
    }
  }

  /** The sum of the balances does not depend on their order. */
  lemma {:induction false} SumByMultiset(a: seq<int>, b: seq<int>)
    requires multiset(a) == multiset(b)
    ensures Sum(a) == Sum(b)
    decreases |a|
  {
    if a != [] {
      assert a == [a[0]] + a[1..];
      assert multiset(a) == multiset(a[1..]) + multiset{a[0]};
      assert a[0] in multiset(b);
      var i := IndexOf(b, a[0]);
      RemoveAtFacts(b, i);
      MultisetCancel(multiset(a[1..]), multiset(RemoveAt(b, i)), multiset{a[0]});
      SumByMultiset(a[1..], RemoveAt(b, i));
    }
  }

  /** A partition of M shows that M sums to 0. */
  lemma {:induction false} PartitionSum(P: seq<seq<int>>, M: multiset<int>, s: seq<int>)
    requires IsPartition(P, M) && multiset(s) == M
    ensures Sum(s) == 0
  {
    SumOfGroups(P);
    SumByMultiset(s, Flatten(P));
  }

  /** Members summing to -x, for x != 0, include one of the opposite sign to x. */
  lemma {:induction false} OppositeMember(R: seq<int>, x: int) returns (k: nat)
    requires x != 0 && Sum(R) == -x
    ensures k < |R| && (x < 0 < R[k] || R[k] < 0 < x)
  {
    if x > 0 {
      if forall i :: 0 <= i < |R| ==> R[i] >= 0 {
        NonNegativeLowerBound(R);
      }
      k :| 0 <= k < |R| && R[k] < 0;
    } else {
      if forall i :: 0 <= i < |R| ==> R[i] <= 0 {
        NonPositiveUpperBound(R);
      }
      k :| 0 <= k < |R| && R[k] > 0;
    }
  }

  // ---------------------------------------------------------------------
  // One transfer and the groups

  /**
   * Undoing one transfer. If M' comes from M by replacing x and y with
   * x + y (dropped when 0), every partition of M' gives one of M: x + y's
   * group takes x and y instead, or {x, y} becomes a group of its own.
   */
  lemma {:induction false} LiftPartition(M: multiset<int>, M': multiset<int>, x: int, y: int, P': seq<seq<int>>)
    returns (P: seq<seq<int>>)
    requires x != 0 && y != 0
    requires IsPartition(P', M')
    requires M' + multiset{x} + multiset{y} == M + Nz(x + y)
    ensures IsPartition(P, M)
    ensures |P| == |P'| + (if x + y == 0 then 1 else 0)
  {
    if x + y == 0 {
      P := LiftPair(M, M', x, y, P');
    } else {
      P := LiftMerge(M, M', x, y, P');
    }
  }

  /** A transfer that settled both x and y undoes into the new group {x, y}. */
  lemma {:induction false} LiftPair(M: multiset<int>, M': multiset<int>, x: int, y: int, P': seq<seq<int>>)
    returns (P: seq<seq<int>>)
    requires x + y == 0
    requires IsPartition(P', M')
    requires M' + multiset{x} + multiset{y} == M
    ensures IsPartition(P, M) && |P| == |P'| + 1
  {
    var pair := [x] + [y];
    SumAppend([x], [y]);
    P := P' + [pair];
    AppendGroup(P', M', pair);
  }

  /** A non-empty zero-sum group added to a partition of M' gives one of M' and its members. */
  lemma {:induction false} AppendGroup(P: seq<seq<int>>, M: multiset<int>, B: seq<int>)
    requires IsPartition(P, M) && B != [] && Sum(B) == 0
    ensures IsPartition(P + [B], M + multiset(B))
  {
    FlattenAppend(P, [B]);
    assert Flatten([B]) == B + Flatten([]);
    forall c | 0 <= c < |P + [B]| ensures (P + [B])[c] != [] && Sum((P + [B])[c]) == 0 {
      if c < |P| {
        assert (P + [B])[c] == P[c];
      }
    }
  }

  /** A transfer that left x + y behind undoes by giving x + y's group x and y instead. */
  lemma {:induction false} LiftMerge(M: multiset<int>, M': multiset<int>, x: int, y: int, P': seq<seq<int>>)
    returns (P: seq<seq<int>>)
    requires x != 0 && y != 0 && x + y != 0
    requires IsPartition(P', M')
    requires M' + multiset{x} + multiset{y} == M + multiset{x + y}
    ensures IsPartition(P, M) && |P| == |P'|
  {
    var z := x + y;
    assert (M' + multiset{x} + multiset{y})[z] == M'[z] >= 1;
    var b := FindGroup(P', z);
    var G := P'[b];
    var i := IndexOf(G, z);
    var rest := RemoveAt(G, i);
    RemoveValue(G, i, z);
    var B := rest + ([x] + [y]);
    SumAppend([x], [y]);
    SumAppend(rest, [x] + [y]);
    P := P'[b := B];
    SplitMember(M, M', P', b, B, rest, x, y);
    ReplaceValidGroup(P', b, B, P);
  }

  /** Group b, holding x + y, becomes the group B with x and y in its place. */
  lemma {:induction false} SplitMember(M: multiset<int>, M': multiset<int>, P': seq<seq<int>>, b: nat, B: seq<int>, rest: seq<int>, x: int, y: int)
    requires b < |P'| && multiset(Flatten(P')) == M'
    requires multiset(rest) + multiset{x + y} == multiset(P'[b])
    requires B == rest + ([x] + [y])
    requires M' + multiset{x} + multiset{y} == M + multiset{x + y}
    ensures multiset(Flatten(P'[b := B])) == M
  {
    var F := multiset(Flatten(P'[b := B]));
    FlattenUpdate(P', b, B);
    var R := multiset(rest) + multiset{x + y};
    calc {
      F + R;
      M' + multiset(B);
      M' + (multiset(rest) + (multiset{x} + multiset{y}));
      (M' + multiset{x} + multiset{y}) + multiset(rest);
      M + R;
    }
    MultisetCancel(F, M, R);
  }

  /** Replacing one group by another non-empty zero-sum group keeps every group valid. */
  lemma {:induction false} ReplaceValidGroup(P: seq<seq<int>>, b: nat, B: seq<int>, Q: seq<seq<int>>)
    requires b < |P| && B != [] && Sum(B) == 0 && Q == P[b := B]
    requires forall c :: 0 <= c < |P| ==> P[c] != [] && Sum(P[c]) == 0
    ensures forall c :: 0 <= c < |Q| ==> Q[c] != [] && Sum(Q[c]) == 0
  {
    forall c | 0 <= c < |Q| ensures Q[c] != [] && Sum(Q[c]) == 0 {
      if c != b {
        assert Q[c] == P[c];
      }
    }
  }

  /**
   * Making one transfer inside a group. In a partition of M, x's group
   * sums to 0, so it holds a y of the opposite sign; replacing x and y
   * with x + y (dropped when 0) keeps every group, except that a group
   * {x, y} with x + y == 0 disappears.
   */
  lemma {:induction false} SplitPartition(M: multiset<int>, P: seq<seq<int>>, x: int) returns (y: int, P': seq<seq<int>>)
    requires IsPartition(P, M) && x in M && x != 0
    ensures x < 0 < y || y < 0 < x
    ensures multiset{x} + multiset{y} <= M
    ensures IsPartition(P', multiset(Flatten(P')))
    ensures Replaced(multiset(Flatten(P')), M, x, y)
    ensures |P'| + (if x + y == 0 then 1 else 0) >= |P|
  {
    var b := FindGroup(P, x);
    var rest;
    y, rest := SplitGroup(P[b], x);
    GroupInFlatten(P, b);
    if x + y == 0 && rest == [] {
      P' := DropGroup(M, P, b);
    } else {
      P' := ReplaceGroup(M, P, b, x, y, rest);
    }
  }

  /** Dropping group b leaves a partition of the other groups' members. */
  lemma {:induction false} DropGroup(M: multiset<int>, P: seq<seq<int>>, b: nat) returns (P': seq<seq<int>>)
    requires IsPartition(P, M) && b < |P|
    ensures IsPartition(P', multiset(Flatten(P')))
    ensures multiset(Flatten(P')) + multiset(P[b]) == M
    ensures |P'| == |P| - 1
  {
    P' := P[..b] + P[b + 1..];
    FlattenRemove(P, b);
    forall c | 0 <= c < |P'| ensures P'[c] != [] && Sum(P'[c]) == 0 {
      if c < b {
        assert P'[c] == P[c];
      } else {
        assert P'[c] == P[c + 1];
      }
    }
  }

  /** Group b, holding x, y and rest, becomes rest and x + y (dropped when 0). */
  lemma {:induction false} ReplaceGroup(M: multiset<int>, P: seq<seq<int>>, b: nat, x: int, y: int, rest: seq<int>)
    returns (P': seq<seq<int>>)
    requires IsPartition(P, M) && b < |P|
    requires multiset(P[b]) == multiset{x} + multiset{y} + multiset(rest)
    requires Sum(rest) == -x - y
    requires x + y != 0 || rest != []
    ensures IsPartition(P', multiset(Flatten(P')))
    ensures multiset(Flatten(P')) + multiset{x} + multiset{y} == M + Nz(x + y)
    ensures |P'| == |P|
  {
    var tail := if x + y == 0 then [] else [x + y];
    var B := rest + tail;
    SumAppend(rest, tail);
    assert multiset(tail) == Nz(x + y);
    P' := P[b := B];
    FlattenUpdate(P, b, B);
    calc {
      multiset(Flatten(P')) + multiset{x} + multiset{y} + multiset(rest);
      multiset(Flatten(P')) + multiset(P[b]);
      M + multiset(B);
      M + Nz(x + y) + multiset(rest);
    }
    MultisetCancel(multiset(Flatten(P')) + multiset{x} + multiset{y}, M + Nz(x + y), multiset(rest));
    forall c | 0 <= c < |P'| ensures P'[c] != [] && Sum(P'[c]) == 0 {
      if c != b {
        assert P'[c] == P[c];
      }
    }
  }

  /** A zero-sum group holding x != 0: a member y of the opposite sign and the group's other members. */
  lemma {:induction false} SplitGroup(B: seq<int>, x: int) returns (y: int, rest: seq<int>)
    requires x in B && x != 0 && Sum(B) == 0
    ensures x < 0 < y || y < 0 < x
    ensures Sum(rest) == -x - y
    ensures multiset(B) == multiset{x} + multiset{y} + multiset(rest)
  {
    var i := IndexOf(B, x);
    var R := RemoveAt(B, i);
    RemoveAtFacts(B, i);
    var k := OppositeMember(R, x);
    y := R[k];
    rest := RemoveAt(R, k);
    RemoveAtFacts(R, k);
  }
}
