/** `Subtree` of merkle_tree.h: ranges [start, end) of leaves, with the two bit tricks it
    relies on, and what they mean in arithmetic. */
module Subtrees {
  import opened Bits

  // ---------- arithmetic meaning ----------

  // The least t with n <= 2^t.
  function Height(n: nat): nat {
    if n <= 1 then 0 else 1 + Height((n + 1) / 2)
  }

  lemma {:induction false} HeightBounds(n: nat)
    requires n >= 1
    ensures n <= Pow2(Height(n))
    ensures n >= 2 ==> Height(n) >= 1 && Pow2(Height(n) - 1) < n
  {
    if n >= 2 {
      HeightBounds((n + 1) / 2);
    }
  }

  lemma HeightLeast(n: nat, t: nat)
    requires n >= 1
    ensures n <= Pow2(t) <==> Height(n) <= t
  {
    HeightBounds(n);
    if Height(n) <= t {
      Pow2Mono(Height(n), t);
    } else {
      Pow2Mono(t, Height(n) - 1);
    }
  }

  lemma HeightIs(n: nat, t: nat)
    requires Pow2(t) < n <= Pow2(t + 1)
    ensures Height(n) == t + 1
  {
    HeightLeast(n, t);
    HeightLeast(n, t + 1);
  }

  // The size of the left half of a tree with n leaves: the largest power of two below n.
  function SplitSize(n: nat): (k: nat)
    requires n >= 2
    ensures 0 < k < n
  {
    HeightBounds(n);
    Pow2(Height(n) - 1)
  }

  // A range that is a node of a tree whose leaves start at 0: its start is a multiple of
  // the least power of two that is no smaller than its size.
  predicate Aligned(lo: nat, hi: nat) {
    lo < hi && Multiple(lo, Height(hi - lo))
  }

  // ---------- the source's operations ----------

  datatype Subtree = Subtree(start: u64, end: u64) {

    function Size(): u64 {
      if start <= end then end - start else U64_SIZE + end - start
    }

    predicate IsValid() {
      start < end &&
      var k := BitAnd(start, Add64(Not64(start), 1));
      start == 0 || Size() <= k
    }

    function Split(): u64 {
      var n := Size();
      if n < 2 then end else Add64(start, Pow2Smaller(n))
    }

    function Left(): Subtree { Subtree(start, Split()) }

    function Right(): Subtree { Subtree(Split(), end) }

    predicate Contains(index: u64) { start <= index < end }
  }

  const LADDER_SHIFTS: seq<nat> := [1, 2, 4, 8, 16, 32]

  // The OR ladder: copy every set bit to all lower places, then keep the top one.
  function Pow2Smaller(n: u64): nat
    requires n >= 2
  {
    Ladder(n - 1, LADDER_SHIFTS) / 2 + 1
  }

  // ---------- what they mean ----------

  // The most significant of the k bits of m is set.
  lemma {:induction false} TopBit(m: nat, k: nat)
    requires Pow2(k) <= m < Pow2(k + 1)
    ensures TopOnes(m, k + 1, 1)
  {
    if k > 0 {
      assert Pow2(k - 1) <= m / 2 < Pow2(k);
      TopBit(m / 2, k - 1);
      assert Shr(m, k) == Shr(m / 2, k - 1);
    }
  }

  lemma ShiftsDouble()
    ensures Doubling(LADDER_SHIFTS, 1) && Shl(1, |LADDER_SHIFTS|) == 64
  {
    assert Doubling([32], 32) && Doubling([16, 32], 16);
    assert [8, 16, 32][1..] == [16, 32] && Doubling([8, 16, 32], 8);
    assert [4, 8, 16, 32][1..] == [8, 16, 32] && Doubling([4, 8, 16, 32], 4);
    assert [2, 4, 8, 16, 32][1..] == [4, 8, 16, 32] && Doubling([2, 4, 8, 16, 32], 2);
    assert LADDER_SHIFTS[1..] == [2, 4, 8, 16, 32];
    assert Shl(1, 3) == 8 && Shl(1, 6) == 64;
  }

  lemma LadderFillsWord(m: nat, k: nat)
    requires Pow2(k) <= m < Pow2(k + 1) && k < 64
    ensures Ladder(m, LADDER_SHIFTS) == Pow2(k + 1) - 1
  {
    hide Ladder, Shl, Doubling;
    TopBit(m, k);
    ShiftsDouble();
    LadderTopOnes(m, LADDER_SHIFTS, k + 1, 1);
  }

  // The OR ladder computes the largest power of two below n.
  lemma Pow2SmallerCorrect(n: u64)
    requires n >= 2
    ensures Pow2Smaller(n) == SplitSize(n)
  {
    HeightBounds(n);
    var k := Height(n) - 1;
    assert k < 64 by { HeightLeast(n, 64); Pow2Of64(); }
    LadderFillsWord(n - 1, k);
  }

  lemma LowestBit(x: u64)
    requires x > 0
    ensures BitAnd(x, Add64(Not64(x), 1)) == Pow2(TrailingZeros(x))
  {
    Pow2Of64();
    AndNegation(x, 64);
  }

  // The lowest-set-bit test accepts exactly the aligned ranges.
  lemma IsValidCorrect(s: Subtree)
    ensures s.IsValid() <==> Aligned(s.start, s.end)
  {
    if s.start < s.end {
      var h := Height(s.end - s.start);
      if s.start == 0 {
        ShlOne(h);
        MultipleOfShl(0, h);
      } else {
        LowestBit(s.start);
        MultipleTrailingZeros(s.start, h);
        HeightLeast(s.end - s.start, TrailingZeros(s.start));
      }
    }
  }

  // Both halves of an aligned range are aligned, the left one being complete.
  lemma SplitAligned(lo: nat, hi: nat)
    requires Aligned(lo, hi) && hi - lo >= 2
    ensures Aligned(lo, lo + SplitSize(hi - lo))
    ensures Aligned(lo + SplitSize(hi - lo), hi)
  {
    var h := Height(hi - lo);
    var k := SplitSize(hi - lo);
    HeightBounds(hi - lo);
    HeightLeast(k, h - 1);
    MultipleLess(lo, Height(k), h);
    var rest := hi - lo - k;
    HeightLeast(rest, h - 1);
    MultiplePow2(Height(rest), h - 1);
    MultipleLess(lo, Height(rest), h);
    MultipleSum(lo, k, Height(rest));
  }

  lemma SplitValue(s: Subtree)
    requires s.start + 2 <= s.end
    ensures s.Split() == s.start + SplitSize(s.end - s.start) < s.end
  {
    hide Pow2Smaller, SplitSize;
    Pow2SmallerCorrect(s.end - s.start);
  }

  lemma ValidSize(s: Subtree)
    requires s.start + 2 <= s.end
    ensures SplitSize(s.end - s.start) > 0
  {
  }

  // The two halves are valid, not empty, meet at the largest power of two below the size, and
  // together make up the subtree.
  lemma SplitCorrect(s: Subtree)
    requires s.IsValid() && s.start + 2 <= s.end
    ensures s.Left().IsValid() && s.Right().IsValid()
    ensures s.Left().start == s.start && s.Right().end == s.end
    ensures s.Left().end == s.Right().start == s.start + SplitSize(s.end - s.start)
    ensures s.start < s.Left().end < s.end
  {
    hide Subtree.IsValid, Subtree.Split, SplitSize, Aligned;
    IsValidCorrect(s);
    SplitValue(s);
    ValidSize(s);
    SplitAligned(s.start, s.end);
    IsValidCorrect(s.Left());
    IsValidCorrect(s.Right());
  }
}
