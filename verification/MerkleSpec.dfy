/** Merkle tree hashes and subtree proofs, defined recursively from the root down: section 2.1.1
    of RFC 9162 and section 4.4 of draft-davidben-tls-merkle-tree-certs-08. The second half gives
    the same hashes and proofs level by level, from the leaves up. */
module MerkleSpec {
  import opened Bits
  import opened Subtrees

  type Entry = seq<bv8>

  // 32-byte digests. SHA-256 is taken to be free of collisions: the hash of a leaf or of a
  // node determines what was hashed, and a digest may also be neither.
  datatype Hash =
    | LeafHash(entry: Entry)
    | NodeHash(left: Hash, right: Hash)
    | OtherDigest(id: nat)

  // MTH of the entries lo..hi.
  function Mth(d: seq<Entry>, lo: nat, hi: nat): Hash
    requires lo < hi <= |d|
    decreases hi - lo
  {
    if hi - lo == 1 then LeafHash(d[lo])
    else
      var k := lo + SplitSize(hi - lo);
      NodeHash(Mth(d, lo, k), Mth(d, k, hi))
  }

  // Three leaves: the first two under one node, the third beside it.
  lemma MthOfThree(a: Entry, b: Entry, c: Entry)
    ensures Mth([a, b, c], 0, 3) == NodeHash(NodeHash(LeafHash(a), LeafHash(b)), LeafHash(c))
  {
    HeightIs(3, 1);
    HeightIs(2, 0);
    assert SplitSize(3) == 2 && SplitSize(2) == 1;
    assert Mth([a, b, c], 0, 2) == NodeHash(LeafHash(a), LeafHash(b));
  }

  // The consistency proof for the subtree [s, e) of the tree [lo, hi). `known` says that the
  // verifier already has the hash of [s, e).
  function SubtreeProof(d: seq<Entry>, s: nat, e: nat, lo: nat, hi: nat, known: bool): seq<Hash>
    requires lo <= s < e <= hi <= |d|
    decreases hi - lo
  {
    if s == lo && e == hi then
      if known then [] else [Mth(d, s, e)]
    else
      var k := lo + SplitSize(hi - lo);
      if e <= k then
        SubtreeProof(d, s, e, lo, k, known) + [Mth(d, k, hi)]
      else if s >= k then
        SubtreeProof(d, s, e, k, hi, known) + [Mth(d, lo, k)]
      else
        SubtreeProof(d, k, e, k, hi, false) + [Mth(d, lo, k)]
  }

  // Every step of the generator is again about valid subtrees.
  lemma GeneratorArguments(s: nat, e: nat, lo: nat, hi: nat)
    requires Aligned(s, e) && Aligned(lo, hi) && lo <= s && e <= hi && e - s < hi - lo
    ensures var k := lo + SplitSize(hi - lo);
            Aligned(lo, k) && Aligned(k, hi) && (k < e ==> Aligned(k, e))
  {
    var k := lo + SplitSize(hi - lo);
    SplitAligned(lo, hi);
    if k < e {
      HeightBounds(hi - k);
      HeightLeast(e - k, Height(hi - k));
      MultipleLess(k, Height(e - k), Height(hi - k));
    }
  }

  // ---------- the same, level by level ----------

  // Node j of level l of a tree whose leaves end at hi covers [Shl(j, l), NodeEnd(l, j, hi)).
  function NodeEnd(l: nat, j: nat, hi: nat): nat {
    var full := Shl(j, l) + Pow2(l);
    if full < hi then full else hi
  }

  function LevelNode(d: seq<Entry>, l: nat, j: nat, hi: nat): Hash
    requires Shl(j, l) < hi <= |d|
  {
    Mth(d, Shl(j, l), NodeEnd(l, j, hi))
  }

  lemma ParentStart(i: nat, l: nat)
    ensures Shl(i / 2, l + 1) <= Shl(i, l)
    ensures i % 2 == 0 ==> Shl(i / 2, l + 1) == Shl(i, l)
    ensures i % 2 == 1 ==> Shl(i / 2, l + 1) == Shl(i - 1, l) && Shl(i, l) == Shl(i - 1, l) + Pow2(l)
  {
    ShlDouble(i / 2, l);
    if i % 2 == 1 { ShlNext(i - 1, l); }
  }

  // The sibling of node i at level l, if it has one.
  function Sibling(d: seq<Entry>, l: nat, i: nat, hi: nat): seq<Hash>
    requires Shl(i, l) < hi <= |d|
  {
    ParentStart(i, l);
    if i % 2 == 1 then [LevelNode(d, l, i - 1, hi)]
    else if Shl(i + 1, l) < hi then [LevelNode(d, l, i + 1, hi)]
    else []
  }

  // The siblings met on the way from node i of level l up to level t.
  function Climb(d: seq<Entry>, l: nat, i: nat, hi: nat, t: nat): seq<Hash>
    requires Shl(i, l) < hi <= |d|
    decreases t - l
  {
    if l >= t then []
    else
      ParentStart(i, l);
      Sibling(d, l, i, hi) + Climb(d, l + 1, i / 2, hi, t)
  }

  // A parent is the node over its two children, or its only child moved up.
  lemma LevelStep(d: seq<Entry>, l: nat, j: nat, hi: nat)
    requires Shl(2 * j, l) < hi <= |d|
    ensures Shl(j, l + 1) == Shl(2 * j, l)
    ensures Shl(2 * j + 1, l) < hi ==>
              LevelNode(d, l + 1, j, hi) == NodeHash(LevelNode(d, l, 2 * j, hi), LevelNode(d, l, 2 * j + 1, hi))
    ensures Shl(2 * j + 1, l) >= hi ==> LevelNode(d, l + 1, j, hi) == LevelNode(d, l, 2 * j, hi)
  {
    hide Shl, Mth;
    ShlDouble(j, l);
    ShlNext(2 * j, l);
    if Shl(2 * j + 1, l) < hi {
      MthSplit(d, Shl(j, l + 1), NodeEnd(l + 1, j, hi), l);
    }
  }

  lemma MthSplit(d: seq<Entry>, lo: nat, hi: nat, l: nat)
    requires lo + Pow2(l) < hi <= lo + Pow2(l + 1) && hi <= |d|
    ensures SplitSize(hi - lo) == Pow2(l)
    ensures Mth(d, lo, hi) == NodeHash(Mth(d, lo, lo + Pow2(l)), Mth(d, lo + Pow2(l), hi))
  {
    HeightIs(hi - lo, l);
  }

  lemma {:induction false} ClimbLast(d: seq<Entry>, l: nat, i: nat, hi: nat, t: nat)
    requires Shl(i, l) < hi <= |d| && l <= t
    ensures Shl(Shr(i, t - l), t) < hi
    ensures Climb(d, l, i, hi, t + 1) == Climb(d, l, i, hi, t) + Sibling(d, t, Shr(i, t - l), hi)
    decreases t - l
  {
    if l < t {
      ParentStart(i, l);
      ClimbLast(d, l + 1, i / 2, hi, t);
    }
  }

  // Below level t, a tree that ends on a multiple of 2^t looks the same inside a larger one.
  lemma {:induction false} ClimbComplete(d: seq<Entry>, l: nat, i: nat, k: nat, hi: nat, t: nat)
    requires Shl(i, l) < k <= hi <= |d| && Multiple(k, t)
    ensures Climb(d, l, i, k, t) == Climb(d, l, i, hi, t)
    decreases t - l
  {
    hide Sibling, Shl, Multiple;
    if l < t {
      ParentStart(i, l);
      ClimbComplete(d, l + 1, i / 2, k, hi, t);
      MultipleLess(k, l + 1, t);
      SiblingComplete(d, l, i, k, hi);
    }
  }

  lemma SiblingComplete(d: seq<Entry>, l: nat, i: nat, k: nat, hi: nat)
    requires Shl(i, l) < k <= hi <= |d| && Multiple(k, l + 1)
    ensures Sibling(d, l, i, k) == Sibling(d, l, i, hi)
  {
    hide Shl, Mth, LevelNode, Multiple;
    ParentStart(i, l);
    if i % 2 == 1 {
      NodeComplete(d, l, i - 1, k, hi);
    } else {
      BlockBelow(i / 2, k, l + 1);
      ShlNext(i, l);
      NodeComplete(d, l, i + 1, k, hi);
    }
  }

  // A node that is complete in one tree is the same node of a larger one.
  lemma NodeComplete(d: seq<Entry>, l: nat, j: nat, k: nat, hi: nat)
    requires Shl(j, l) + Pow2(l) <= k <= hi <= |d|
    ensures LevelNode(d, l, j, k) == LevelNode(d, l, j, hi)
  {
    hide Shl, Pow2, Mth;
  }

  // A block that starts below a multiple of its size also ends there.
  lemma BlockBelow(j: nat, k: nat, l: nat)
    requires Shl(j, l) < k && Multiple(k, l)
    ensures Shl(j, l) + Pow2(l) <= k
  {
    if Shr(k, l) <= j {
      ShlMono(Shr(k, l), j, l);
    } else {
      ShlMono(j, Shr(k, l), l);
    }
  }

  // ---------- the generated proof is the climb ----------

  // The tree [lo, hi) fits the block of size 2^t that starts at lo.
  predicate Fits(lo: nat, hi: nat, t: nat) {
    lo < hi <= lo + Pow2(t) && Multiple(lo, t)
  }

  // Two leaves of one block of size 2^t share the block index.
  lemma SameBlock(lo: nat, x: nat, t: nat)
    requires Multiple(lo, t) && lo <= x < lo + Pow2(t)
    ensures Shr(x, t) == Shr(lo, t)
  {
    ShlNext(Shr(lo, t), t);
    ShrUnique(x, Shr(lo, t), t);
  }

  lemma NodeIndexAbove(j: nat, l: nat, t: nat)
    requires l <= t
    ensures Shr(j, t - l) == Shr(Shl(j, l), t)
  {
    ShrComp(Shl(j, l), l, t - l);
    ShrShl(j, l);
  }

  // When the tree fits a block of half the size, the last level of the climb adds nothing.
  lemma ClimbSkip(d: seq<Entry>, l: nat, j: nat, lo: nat, hi: nat, t: nat)
    requires Fits(lo, hi, t + 1) && hi <= lo + Pow2(t) && hi <= |d| && l <= t
    requires lo <= Shl(j, l) < hi
    ensures Climb(d, l, j, hi, t + 1) == Climb(d, l, j, hi, t)
  {
    ClimbLast(d, l, j, hi, t);
    MultipleEven(lo, t);
    SameBlock(lo, Shl(j, l), t);
    NodeIndexAbove(j, l, t);
    ShlNext(Shr(lo, t), t);
  }

  // Otherwise it adds the half the climb is not in.
  lemma ClimbIntoLeft(d: seq<Entry>, l: nat, j: nat, lo: nat, hi: nat, t: nat)
    requires Fits(lo, hi, t + 1) && lo + Pow2(t) < hi <= |d| && l <= t
    requires lo <= Shl(j, l) < lo + Pow2(t)
    ensures Climb(d, l, j, hi, t + 1) ==
            Climb(d, l, j, lo + Pow2(t), t) + [Mth(d, lo + Pow2(t), hi)]
  {
    assert Pow2(t + 1) == Pow2(t) + Pow2(t);
    hide Climb, Mth, Shl, Shr, Pow2, Sibling;
    var k := lo + Pow2(t);
    HalfMultiple(lo, t);
    ClimbComplete(d, l, j, k, hi, t);
    ClimbLast(d, l, j, hi, t);
    SameBlock(lo, Shl(j, l), t);
    NodeIndexAbove(j, l, t);
    RightSibling(d, t, Shr(lo, t), hi);
  }

  lemma RightSibling(d: seq<Entry>, t: nat, b: nat, hi: nat)
    requires b % 2 == 0 && Shl(b, t) + Pow2(t) < hi <= |d| && hi <= Shl(b, t) + Pow2(t) + Pow2(t)
    ensures Sibling(d, t, b, hi) == [Mth(d, Shl(b, t) + Pow2(t), hi)]
  {
    hide Mth, Shl, Pow2;
    ShlNext(b, t);
    ShlNext(b + 1, t);
  }

  lemma ClimbIntoRight(d: seq<Entry>, l: nat, j: nat, lo: nat, hi: nat, t: nat)
    requires Fits(lo, hi, t + 1) && lo + Pow2(t) < hi <= |d| && l <= t
    requires lo + Pow2(t) <= Shl(j, l) < hi
    ensures Climb(d, l, j, hi, t + 1) == Climb(d, l, j, hi, t) + [Mth(d, lo, lo + Pow2(t))]
  {
    hide Climb, Mth, Shl, Shr, Pow2, Sibling, Fits;
    ClimbLast(d, l, j, hi, t);
    RightIndex(l, j, lo, hi, t);
    LeftSibling(d, t, Shr(lo, t), hi);
  }

  lemma RightIndex(l: nat, j: nat, lo: nat, hi: nat, t: nat)
    requires Fits(lo, hi, t + 1) && lo + Pow2(t) <= Shl(j, l) < hi && l <= t
    ensures Shl(Shr(lo, t), t) == lo && Shr(lo, t) % 2 == 0 && Shr(j, t - l) == Shr(lo, t) + 1
  {
    assert Pow2(t + 1) == Pow2(t) + Pow2(t);
    hide Shl, Shr, Pow2;
    HalfMultiple(lo, t);
    SameBlock(lo + Pow2(t), Shl(j, l), t);
    NodeIndexAbove(j, l, t);
  }

  lemma LeftSibling(d: seq<Entry>, t: nat, b: nat, hi: nat)
    requires b % 2 == 0 && Shl(b, t) + Pow2(t) < hi <= |d|
    ensures Shl(b + 1, t) == Shl(b, t) + Pow2(t)
    ensures Sibling(d, t, b + 1, hi) == [Mth(d, Shl(b, t), Shl(b, t) + Pow2(t))]
  {
    ShlNext(b, t);
  }

  lemma HalfMultiple(lo: nat, t: nat)
    requires Multiple(lo, t + 1)
    ensures Multiple(lo, t) && Multiple(lo + Pow2(t), t)
    ensures Shr(lo, t) % 2 == 0 && Shr(lo + Pow2(t), t) == Shr(lo, t) + 1
  {
    MultipleEven(lo, t);
    ShlNext(Shr(lo, t), t);
    ShrShl(Shr(lo, t) + 1, t);
  }

  // One step of the generator in a tree that splits at lo + 2^t.
  lemma ProofStep(d: seq<Entry>, s: nat, e: nat, lo: nat, hi: nat, known: bool, t: nat)
    requires lo <= s < e <= hi <= |d| && lo + Pow2(t) < hi <= lo + Pow2(t + 1)
    requires e - s < hi - lo
    ensures var k := lo + Pow2(t);
            SubtreeProof(d, s, e, lo, hi, known) ==
            if e <= k then SubtreeProof(d, s, e, lo, k, known) + [Mth(d, k, hi)]
            else if s >= k then SubtreeProof(d, s, e, k, hi, known) + [Mth(d, lo, k)]
            else SubtreeProof(d, k, e, k, hi, false) + [Mth(d, lo, k)]
  {
    MthSplit(d, lo, hi, t);
  }

  // A proof for one half, made of p and a climb, extends to the whole tree.
  lemma ProofIntoLeft(d: seq<Entry>, s: nat, e: nat, lo: nat, hi: nat, known: bool,
                      l: nat, j: nat, t: nat, p: seq<Hash>)
    requires Fits(lo, hi, t + 1) && lo + Pow2(t) < hi <= |d| && l <= t
    requires lo <= s < e <= lo + Pow2(t) && lo <= Shl(j, l) < lo + Pow2(t)
    requires SubtreeProof(d, s, e, lo, lo + Pow2(t), known) == p + Climb(d, l, j, lo + Pow2(t), t)
    ensures SubtreeProof(d, s, e, lo, hi, known) == p + Climb(d, l, j, hi, t + 1)
  {
    ProofStep(d, s, e, lo, hi, known, t);
    ClimbIntoLeft(d, l, j, lo, hi, t);
  }

  lemma ProofIntoRight(d: seq<Entry>, s: nat, e: nat, lo: nat, hi: nat, known: bool,
                       l: nat, j: nat, t: nat, p: seq<Hash>)
    requires Fits(lo, hi, t + 1) && lo + Pow2(t) < hi <= |d| && l <= t
    requires lo + Pow2(t) <= s < e <= hi && lo + Pow2(t) <= Shl(j, l) < hi
    requires SubtreeProof(d, s, e, lo + Pow2(t), hi, known) == p + Climb(d, l, j, hi, t)
    ensures SubtreeProof(d, s, e, lo, hi, known) == p + Climb(d, l, j, hi, t + 1)
  {
    ProofStep(d, s, e, lo, hi, known, t);
    ClimbIntoRight(d, l, j, lo, hi, t);
  }

  lemma ProofAcross(d: seq<Entry>, s: nat, e: nat, lo: nat, hi: nat, known: bool,
                    l: nat, j: nat, t: nat, p: seq<Hash>)
    requires Fits(lo, hi, t + 1) && lo + Pow2(t) < hi <= |d| && l <= t
    requires lo <= s < lo + Pow2(t) < e < hi && lo + Pow2(t) <= Shl(j, l) < hi
    requires SubtreeProof(d, lo + Pow2(t), e, lo + Pow2(t), hi, false) == p + Climb(d, l, j, hi, t)
    ensures SubtreeProof(d, s, e, lo, hi, known) == p + Climb(d, l, j, hi, t + 1)
  {
    ProofStep(d, s, e, lo, hi, known, t);
    ClimbIntoRight(d, l, j, lo, hi, t);
  }

  lemma WholeBlock(lo: nat, hi: nat, j: nat, t: nat)
    requires Fits(lo, hi, t) && lo <= Shl(j, t) < hi
    ensures Shl(j, t) == lo && NodeEnd(t, j, hi) == hi
  {
    SameBlock(lo, Shl(j, t), t);
    ShrShl(j, t);
  }

  lemma ProofOfTree(d: seq<Entry>, lo: nat, hi: nat, known: bool, l: nat, j: nat)
    requires lo < hi <= |d| && Shl(j, l) < hi
    ensures SubtreeProof(d, lo, hi, lo, hi, known) == (if known then [] else [Mth(d, lo, hi)])
    ensures Climb(d, l, j, hi, l) == []
  {
  }

  // A subtree that is itself a node of the tree needs only the siblings above it.
  lemma {:induction false} ProofOfNode(d: seq<Entry>, s: nat, e: nat, lo: nat, hi: nat, known: bool,
                                       l: nat, j: nat, t: nat)
    requires Fits(lo, hi, t) && hi <= |d| && l <= t
    requires s == Shl(j, l) && lo <= s < e == NodeEnd(l, j, hi)
    ensures SubtreeProof(d, s, e, lo, hi, known) ==
            (if known then [] else [Mth(d, s, e)]) + Climb(d, l, j, hi, t)
    decreases t
  {
    hide Climb, SubtreeProof, Mth, Shl, Shr;
    var p := if known then [] else [Mth(d, s, e)];
    if l == t {
      WholeBlock(lo, hi, j, t);
      ProofOfTree(d, lo, hi, known, l, j);
    } else {
      var k := lo + Pow2(t - 1);
      HalfMultiple(lo, t - 1);
      if hi <= k {
        ProofOfNode(d, s, e, lo, hi, known, l, j, t - 1);
        ClimbSkip(d, l, j, lo, hi, t - 1);
      } else if s < k {
        MultipleLess(k, l, t - 1);
        BlockBelow(j, k, l);
        ProofOfNode(d, s, e, lo, k, known, l, j, t - 1);
        ProofIntoLeft(d, s, e, lo, hi, known, l, j, t - 1, p);
      } else {
        ProofOfNode(d, s, e, k, hi, known, l, j, t - 1);
        ProofIntoRight(d, s, e, lo, hi, known, l, j, t - 1, p);
      }
    }
  }

  // A subtree that ends inside the tree with a smaller node j on its right edge is proved by
  // that node and the siblings above it.
  lemma {:induction false} ProofOfRagged(d: seq<Entry>, s: nat, e: nat, lo: nat, hi: nat, known: bool,
                                         l: nat, j: nat, t: nat)
    requires Fits(lo, hi, t) && hi <= |d|
    requires j % 2 == 0 && lo <= s < Shl(j, l) && e == Shl(j, l) + Pow2(l) < hi
    ensures l < t
    ensures SubtreeProof(d, s, e, lo, hi, known) ==
            [Mth(d, Shl(j, l), e)] + Climb(d, l, j, hi, t)
    decreases t
  {
    hide Climb, SubtreeProof, Mth, Shl, Shr;
    if t <= l { Pow2Mono(t, l); }
    HalfMultiple(lo, t - 1);
    var k := lo + Pow2(t - 1);
    var p := [Mth(d, Shl(j, l), e)];
    MultipleLess(k, l, t - 1);
    if hi <= k {
      ProofOfRagged(d, s, e, lo, hi, known, l, j, t - 1);
      ClimbSkip(d, l, j, lo, hi, t - 1);
    } else if e <= k {
      if e == k { RaggedEnd(j, l, t - 1); }
      ProofOfRagged(d, s, e, lo, k, known, l, j, t - 1);
      ProofIntoLeft(d, s, e, lo, hi, known, l, j, t - 1, p);
    } else if s >= k {
      ProofOfRagged(d, s, e, k, hi, known, l, j, t - 1);
      ProofIntoRight(d, s, e, lo, hi, known, l, j, t - 1, p);
    } else {
      if Shl(j, l) < k { BlockBelow(j, k, l); }
      if k == Shl(j, l) {
        ProofOfNode(d, k, e, k, hi, false, l, j, t - 1);
      } else {
        ProofOfRagged(d, k, e, k, hi, false, l, j, t - 1);
      }
      ProofAcross(d, s, e, lo, hi, known, l, j, t - 1, p);
    }
  }

  // The end of an even block of level l is a multiple of 2^t only for t <= l.
  lemma RaggedEnd(j: nat, l: nat, t: nat)
    requires j % 2 == 0 && Multiple(Shl(j, l) + Pow2(l), t)
    ensures t <= l
  {
    ShlNext(j, l);
    if l < t {
      MultipleLess(Shl(j + 1, l), l + 1, t);
      MultipleEven(Shl(j + 1, l), l);
      ShrShl(j + 1, l);
    }
  }
}
