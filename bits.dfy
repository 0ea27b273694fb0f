/**
 * Bit masks as non-negative integers, with the bit operations the subset
 * DP uses: `&`, `^`, `mask & -mask`, `__builtin_ctz`, `__builtin_popcount`
 * and `1 << n`. Masks in the DP have at most 30 bits, so the source's
 * 32-bit `int` never wraps and non-negative integers model it.
 */
module Bits {

  /** `1 << k`. */
  function Pow2(k: nat): (r: nat)
    ensures r >= 1
  {
    if k == 0 then 1 else 2 * Pow2(k - 1)
  }

  /** `(1 << n) - 1`: the mask with the n lowest bits set. */
  function FullMask(n: nat): nat
  {
    Pow2(n) - 1
  }

  /** `a & b`. */
  function And(a: nat, b: nat): nat
  {
    if a == 0 || b == 0 then 0
    else 2 * And(a / 2, b / 2) + (if a % 2 == 1 && b % 2 == 1 then 1 else 0)
  }

  /** `a ^ b`. */
  function Xor(a: nat, b: nat): nat
  {
    if a == 0 then b
    else if b == 0 then a
    else 2 * Xor(a / 2, b / 2) + (a % 2 + b % 2) % 2
  }

  /** The number of 32-bit patterns, `1 << 32`. */
  const Word: nat := 0x1_0000_0000

  /** The bit pattern of `-m` for a 32-bit two's-complement `int` m > 0. */
  function Neg32(m: nat): nat
    requires 0 < m < Word
  {
    Word - m
  }

  /** The lowest set bit of m, as a mask. */
  function LowBit(m: nat): nat
    requires m > 0
  {
    if m % 2 == 1 then 1 else 2 * LowBit(m / 2)
  }

  /** `__builtin_ctz`: the number of trailing zero bits of a positive m. */
  function Ctz(m: nat): nat
    requires m > 0
  {
    if m % 2 == 1 then 0 else 1 + Ctz(m / 2)
  }

  /** `__builtin_popcount`: the number of set bits; positive exactly for a non-empty mask. */
  function PopCount(m: nat): (r: nat)
    ensures r == 0 <==> m == 0
    ensures r <= m
  {
    if m == 0 then 0 else m % 2 + PopCount(m / 2)
  }

  /** Every bit of t is also set in m. */
  predicate IsSubmask(t: nat, m: nat)
  {
    t == 0 || (m > 0 && (t % 2 == 1 ==> m % 2 == 1) && IsSubmask(t / 2, m / 2))
  }

  // ---------------------------------------------------------------------
  // Sub-masks

  lemma {:induction false} SubmaskBelow(t: nat, m: nat)
    requires IsSubmask(t, m)
    ensures t <= m
  {
    if t > 0 {
      SubmaskBelow(t / 2, m / 2);
    }
  }

  lemma {:induction false} SubmaskOfSelf(m: nat)
    ensures IsSubmask(m, m)
  {
    if m > 0 {
      SubmaskOfSelf(m / 2);
    }
  }

  /** `t & m` of a sub-mask t is t itself. */
  lemma {:induction false} AndOfSubmask(t: nat, m: nat)
    requires IsSubmask(t, m)
    ensures And(t, m) == t
  {
    if t > 0 {
      AndOfSubmask(t / 2, m / 2);
    }
  }

  /** `a & m` is a sub-mask of m and no larger than a. */
  lemma {:induction false} AndIsSubmask(a: nat, m: nat)
    ensures IsSubmask(And(a, m), m)
    ensures And(a, m) <= a
  {
    if a > 0 && m > 0 {
      AndIsSubmask(a / 2, m / 2);
      var r := And(a, m);
      assert r / 2 == And(a / 2, m / 2);
    }
  }

  /**
   * The step `sub = (sub - 1) & mask` goes from a non-empty sub-mask to the
   * next smaller sub-mask: no sub-mask lies strictly between the two.
   */
  lemma {:induction false} NextSubmask(m: nat, s: nat, t: nat)
    requires IsSubmask(s, m) && s > 0
    requires IsSubmask(t, m) && t < s
    ensures t <= And(s - 1, m)
    decreases s
  {
    if s % 2 == 1 {
      assert IsSubmask(s - 1, m) by {
        assert (s - 1) / 2 == s / 2;
      }
      AndOfSubmask(s - 1, m);
    } else {
      assert (s - 1) / 2 == s / 2 - 1 && (s - 1) % 2 == 1;
      if t > 0 {
        NextSubmask(m / 2, s / 2, t / 2);
      }
      assert And(s - 1, m) == 2 * And(s / 2 - 1, m / 2) + m % 2;
    }
  }

  /** Removing a sub-mask t from m leaves `m - t`, itself a sub-mask of m. */
  lemma {:induction false} MinusSubmask(m: nat, t: nat)
    requires IsSubmask(t, m)
    ensures t <= m && IsSubmask(m - t, m)
  {
    SubmaskBelow(t, m);
    if t == 0 {
      SubmaskOfSelf(m);
    } else {
      MinusSubmask(m / 2, t / 2);
      var r := m - t;
      assert r / 2 == m / 2 - t / 2 && r % 2 == m % 2 - t % 2;
    }
  }

  /** `m ^ t` of a sub-mask t is `m - t`. */
  lemma {:induction false} XorOfSubmask(m: nat, t: nat)
    requires IsSubmask(t, m)
    ensures Xor(m, t) == m - t
  {
    SubmaskBelow(t, m);
    if t > 0 {
      XorOfSubmask(m / 2, t / 2);
      assert Xor(m, t) == 2 * Xor(m / 2, t / 2) + (m % 2 + t % 2) % 2;
      assert (m % 2 + t % 2) % 2 == m % 2 - t % 2;
    }
  }

  /** The set bits of m split between a sub-mask t and `m - t`. */
  lemma {:induction false} PopCountSplit(m: nat, t: nat, r: nat)
    requires IsSubmask(t, m) && r == m - t
    ensures PopCount(m) == PopCount(t) + PopCount(r)
  {
    SubmaskBelow(t, m);
    if t > 0 {
      assert t % 2 <= m % 2;
      assert r / 2 == m / 2 - t / 2 && r % 2 == m % 2 - t % 2;
      PopCountSplit(m / 2, t / 2, r / 2);
    }
  }

  /** Every mask below `1 << n` is a sub-mask of the full mask `(1 << n) - 1`. */
  lemma {:induction false} SubmaskOfFull(t: nat, n: nat)
    requires t < Pow2(n)
    ensures IsSubmask(t, FullMask(n))
  {
    if t > 0 {
      var h := Pow2(n - 1);
      assert Pow2(n) == 2 * h && t / 2 < h;
      SubmaskOfFull(t / 2, n - 1);
      assert (Pow2(n) - 1) % 2 == 1 && (Pow2(n) - 1) / 2 == h - 1;
    }
  }

  lemma {:induction false} PopCountOfFull(n: nat)
    ensures PopCount(FullMask(n)) == n
  {
    if n > 0 {
      var m, h := FullMask(n), FullMask(n - 1);
      assert Pow2(n) == 2 * Pow2(n - 1);
      assert m % 2 == 1 && m / 2 == h;
      PopCountOfFull(n - 1);
      assert PopCount(m) == 1 + PopCount(h);
    }
  }

  // ---------------------------------------------------------------------
  // The lowest set bit

  /** `x & ~x` within k bits is empty. */
  lemma {:induction false} AndComplement(x: nat, k: nat)
    requires x < Pow2(k)
    ensures And(x, Pow2(k) - 1 - x) == 0
  {
    if k > 0 && x > 0 && Pow2(k) - 1 - x > 0 {
      assert (Pow2(k) - 1 - x) / 2 == Pow2(k - 1) - 1 - x / 2;
      AndComplement(x / 2, k - 1);
    }
  }

  /** In w-bit two's complement, `m & -m` is the lowest set bit of m. */
  lemma {:induction false} LowBitTwosComplement(m: nat, w: nat)
    requires 0 < m < Pow2(w)
    ensures And(m, Pow2(w) - m) == LowBit(m)
  {
    if m % 2 == 1 {
      assert (Pow2(w) - m) / 2 == Pow2(w - 1) - 1 - m / 2;
      AndComplement(m / 2, w - 1);
    } else {
      assert (Pow2(w) - m) / 2 == Pow2(w - 1) - m / 2;
      LowBitTwosComplement(m / 2, w - 1);
    }
  }

  /** `mask & -mask` as the 32-bit source computes it. */
  lemma {:induction false} LowBitOf32(m: nat)
    requires 0 < m < Word
    ensures And(m, Neg32(m)) == LowBit(m)
  {
    Pow2Of32();
    LowBitTwosComplement(m, 32);
  }

  lemma {:induction false} Pow2Monotone(a: nat, b: nat)
    requires a <= b
    ensures Pow2(a) <= Pow2(b)
  {
    if a < b {
      Pow2Monotone(a, b - 1);
    }
  }

  /** Shifts by at most 32 stay within the 32-bit patterns. */
  lemma {:induction false} Pow2BelowWord(k: nat)
    requires k <= 32
    ensures Pow2(k) <= Word
  {
    Pow2Monotone(k, 32);
    Pow2Of32();
  }

  lemma {:induction false} Pow2Of32()
    ensures Pow2(32) == Word
  {
    assert Pow2(4) == 0x10;
    assert Pow2(8) == 0x100;
    assert Pow2(12) == 0x1000;
    assert Pow2(16) == 0x1_0000;
    assert Pow2(20) == 0x10_0000;
    assert Pow2(24) == 0x100_0000;
    assert Pow2(28) == 0x1000_0000;
  }

  /** The lowest set bit is `1 << ctz(m)`, lies in m, and shares m's trailing zeros. */
  lemma {:induction false} LowBitFacts(m: nat)
    requires m > 0
    ensures LowBit(m) == Pow2(Ctz(m))
    ensures LowBit(m) > 0 && Ctz(LowBit(m)) == Ctz(m)
    ensures IsSubmask(LowBit(m), m) && LowBit(m) <= m
    ensures PopCount(m - LowBit(m)) == PopCount(m) - 1
  {
    LowBitIsPow2(m);
    CtzOfLowBit(m);
    LowBitIsSubmask(m);
    PopCountLessLowBit(m);
  }

  lemma {:induction false} LowBitIsPow2(m: nat)
    requires m > 0
    ensures LowBit(m) == Pow2(Ctz(m))
  {
    if m % 2 == 0 {
      LowBitIsPow2(m / 2);
    }
  }

  lemma {:induction false} CtzOfLowBit(m: nat)
    requires m > 0
    ensures LowBit(m) > 0 && Ctz(LowBit(m)) == Ctz(m)
  {
    if m % 2 == 0 {
      CtzOfLowBit(m / 2);
    }
  }

  lemma {:induction false} LowBitIsSubmask(m: nat)
    requires m > 0
    ensures IsSubmask(LowBit(m), m) && LowBit(m) <= m
  {
    if m % 2 == 0 {
      LowBitIsSubmask(m / 2);
    }
  }

  lemma {:induction false} PopCountLessLowBit(m: nat)
    requires m > 0
    ensures LowBit(m) <= m && PopCount(m - LowBit(m)) == PopCount(m) - 1
  {
    LowBitIsSubmask(m);
    var l := LowBit(m);
    var r := m - l;
    PopCountSplit(m, l, r);
    PopCountOfLowBit(m);
  }

  /** The lowest set bit is a single bit. */
  lemma {:induction false} PopCountOfLowBit(m: nat)
    requires m > 0
    ensures PopCount(LowBit(m)) == 1
  {
    if m % 2 == 0 {
      var h := m / 2;
      var l := LowBit(h);
      PopCountOfLowBit(h);
      assert LowBit(m) == 2 * l && (2 * l) % 2 == 0 && (2 * l) / 2 == l;
    }
  }

  lemma {:induction false} CtzBound(m: nat, n: nat)
    requires 0 < m < Pow2(n)
    ensures Ctz(m) < n
  {
    if m % 2 == 0 {
      CtzBound(m / 2, n - 1);
    }
  }
}
