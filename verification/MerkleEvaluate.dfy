/** Evaluation of subtree consistency and inclusion proofs (merkle_tree.cc), and why an accepted
    proof that leads to the true root is the true proof of the true subtree hash. */
module MerkleEvaluate {
  import opened Bits
  import opened Options
  import opened Subtrees
  import opened MerkleSpec

  // A proof is a byte string: whole 32-byte hashes, and perhaps a few bytes more.
  datatype ProofBytes = ProofBytes(hashes: seq<Hash>, trailing: bool)

  // ---------- reference semantics ----------

  datatype Paths = Paths(fn: nat, sn: nat, tn: nat)

  // Shift the three paths up to the level where the proof starts.
  function Start(fn: nat, sn: nat, tn: nat, stopAtEven: bool): Paths
    decreases sn
  {
    if fn == sn || sn == 0 || (stopAtEven && sn % 2 == 0) then Paths(fn, sn, tn)
    else Start(fn / 2, sn / 2, tn / 2, stopAtEven)
  }

  // Go up one level at a time: fr is the hash of the subtree so far, sr of the tree.
  function Walk(fn: nat, sn: nat, tn: nat, proof: seq<Hash>, fr: Hash, sr: Hash): Option<(Hash, Hash)>
    decreases tn
  {
    if tn == 0 then
      if proof == [] then Some((fr, sr)) else None
    else if sn % 2 == 1 then
      if proof == [] then None
      else Walk(fn / 2, sn / 2, tn / 2, proof[1..],
                if fn < sn then NodeHash(proof[0], fr) else fr, NodeHash(proof[0], sr))
    else if sn != tn then
      if proof == [] then None
      else Walk(fn / 2, sn / 2, tn / 2, proof[1..], fr, NodeHash(sr, proof[0]))
    else
      Walk(fn / 2, sn / 2, tn / 2, proof, fr, sr)
  }

  function WalkFrom(p: Paths, proof: seq<Hash>, nodeHash: Hash): Option<(Hash, Hash)> {
    if p.fn == p.sn then Walk(p.fn, p.sn, p.tn, proof, nodeHash, nodeHash)
    else if proof == [] then None
    else Walk(p.fn, p.sn, p.tn, proof[1..], proof[0], proof[0])
  }

  // The root hash a proof leads to, or None when the proof is rejected.
  function Evaluate(n: u64, subtree: Subtree, proof: ProofBytes, nodeHash: Hash): Option<Hash> {
    if !subtree.IsValid() || n < subtree.end || proof.trailing then None
    else
      var p := Start(subtree.start, subtree.end - 1, n - 1, subtree.end != n);
      match WalkFrom(p, proof.hashes, nodeHash)
      case None => None
      case Some((fr, sr)) => if fr == nodeHash then Some(sr) else None
  }

  // ---------- the source's loops ----------

  method EvaluateConsistencyProof(n: u64, subtree: Subtree, proof: ProofBytes, nodeHash: Hash)
    returns (r: Option<Hash>)
    ensures r == Evaluate(n, subtree, proof, nodeHash)
  {
    NonEmpty(subtree);
    hide Subtree.IsValid, Walk;
    if !subtree.IsValid() || n < subtree.end {
      return None;
    }
    var fn: nat, sn: nat, tn: nat := subtree.start, subtree.end - 1, n - 1;
    ghost var start := Start(fn, sn, tn, sn != tn);
    if sn == tn {
      while fn != sn
        invariant fn <= sn == tn
        invariant Start(fn, sn, tn, false) == start
        decreases sn
      {
        fn, sn, tn := fn / 2, sn / 2, tn / 2;
      }
    } else {
      while fn != sn && sn % 2 == 1
        invariant fn <= sn <= tn
        invariant Start(fn, sn, tn, true) == start
      {
        fn, sn, tn := fn / 2, sn / 2, tn / 2;
      }
    }
    assert start == Paths(fn, sn, tn);

    var rest := proof.hashes;
    var computedNode, computedRoot;
    if fn == sn {
      computedNode, computedRoot := nodeHash, nodeHash;
    } else {
      if rest == [] {
        return None;
      }
      computedNode, computedRoot := rest[0], rest[0];
      rest := rest[1..];
    }
    r := FollowProof(fn, sn, tn, rest, proof.trailing, computedNode, computedRoot, nodeHash);
  }

  lemma NonEmpty(subtree: Subtree)
    ensures subtree.IsValid() ==> subtree.start < subtree.end
  {
  }

  // Step 7 and 8: consume the rest of the proof.
  method FollowProof(fn0: nat, sn0: nat, tn0: nat, proof: seq<Hash>, trailing: bool,
                     node0: Hash, root0: Hash, nodeHash: Hash)
    returns (r: Option<Hash>)
    requires fn0 <= sn0 <= tn0
    ensures r == if trailing then None else
                 match Walk(fn0, sn0, tn0, proof, node0, root0)
                 case None => None
                 case Some((fr, sr)) => if fr == nodeHash then Some(sr) else None
  {
    var fn, sn, tn, rest := fn0, sn0, tn0, proof;
    var computedNode, computedRoot := node0, root0;
    ghost var result := Walk(fn, sn, tn, rest, computedNode, computedRoot);
    while rest != [] || trailing
      invariant fn <= sn <= tn
      invariant Walk(fn, sn, tn, rest, computedNode, computedRoot) == result
      decreases |rest|
    {
      if rest == [] {
        return None;
      }
      ghost var rest0, fr0, sr0 := rest, computedNode, computedRoot;
      var p := rest[0];
      rest := rest[1..];
      if tn == 0 {
        return None;
      }
      if sn % 2 == 1 || sn == tn {
        ghost var below := fn < sn;
        if fn < sn {
          computedNode := NodeHash(p, computedNode);
        }
        computedRoot := NodeHash(p, computedRoot);
        while sn % 2 == 0
          invariant fn <= sn <= tn && sn > 0 && (sn % 2 == 0 ==> sn == tn)
          invariant (fn < sn) == below
          invariant Walk(fn, sn, tn, rest0, fr0, sr0) == result
          decreases sn
        {
          fn, sn, tn := fn / 2, sn / 2, tn / 2;
        }
      } else {
        computedRoot := NodeHash(computedRoot, p);
      }
      fn, sn, tn := fn / 2, sn / 2, tn / 2;
    }
    if tn != 0 {
      WalkNeedsMore(fn, sn, tn, computedNode, computedRoot);
      return None;
    }
    if computedNode != nodeHash {
      return None;
    }
    return Some(computedRoot);
  }

  lemma {:induction false} WalkNeedsMore(fn: nat, sn: nat, tn: nat, fr: Hash, sr: Hash)
    requires sn <= tn && tn != 0
    ensures Walk(fn, sn, tn, [], fr, sr) == None
    decreases tn
  {
    if sn == tn && sn % 2 == 0 { WalkNeedsMore(fn / 2, sn / 2, tn / 2, fr, sr); }
  }

  function EvaluateInclusion(proof: ProofBytes, index: u64, entryHash: Hash, subtree: Subtree): Option<Hash> {
    if !subtree.IsValid() || !subtree.Contains(index) then None
    else
      var i := index - subtree.start;
      Evaluate(subtree.Size(), Subtree(i, i + 1), proof, entryHash)
  }

  method EvaluateInclusionProof(proof: ProofBytes, index: u64, entryHash: Hash, subtree: Subtree)
    returns (r: Option<Hash>)
    ensures r == EvaluateInclusion(proof, index, entryHash, subtree)
  {
    if !subtree.IsValid() || !subtree.Contains(index) {
      return None;
    }
    var i := index - subtree.start;
    r := EvaluateConsistencyProof(subtree.Size(), Subtree(i, i + 1), proof, entryHash);
  }

  // ---------- where the proof starts ----------

  // Level l is a sound place to start the proof of [s, e) in [0, n).
  predicate StartsAt(s: nat, e: nat, n: nat, l: nat) {
    0 <= s < e <= n &&
    var fn, sn := Shr(s, l), Shr(e - 1, l);
    if fn == sn then s == Shl(sn, l) && e == NodeEnd(l, sn, n)
    else sn % 2 == 0 && s < Shl(sn, l) && e == Shl(sn, l) + Pow2(l) < n
  }

  lemma EndsBlock(e: nat, l: nat)
    requires e > 0 && Multiple(e, l)
    ensures e == Shl(Shr(e - 1, l), l) + Pow2(l)
  {
    var q := Shr(e - 1, l);
    ShrBracket(e - 1, l);
    ShlNext(q, l);
    BlockBelow(q, e, l);
  }

  // While the edges of an aligned range differ at level l, its start stays aligned one level up.
  lemma StillAligned(s: nat, e: nat, l: nat)
    requires Aligned(s, e) && Multiple(s, l) && Shr(s, l) < Shr(e - 1, l)
    ensures s + Pow2(l) < e && s < Shl(Shr(e - 1, l), l) && Multiple(s, l + 1)
  {
    ShrBracket(e - 1, l);
    ShlMono(Shr(s, l), Shr(e - 1, l), l);
    HeightLeast(e - s, l);
    MultipleLess(s, l + 1, Height(e - s));
  }

  // The level the shifts reach, counted from level l.
  lemma {:induction false} StartLevel(s: nat, e: nat, n: nat, l: nat) returns (m: nat)
    requires Aligned(s, e) && e <= n && Multiple(s, l) && (e != n ==> Multiple(e, l))
    ensures Start(Shr(s, l), Shr(e - 1, l), Shr(n - 1, l), e != n) ==
            Paths(Shr(s, m), Shr(e - 1, m), Shr(n - 1, m))
    ensures StartsAt(s, e, n, m)
    decreases Shr(e - 1, l)
  {
    hide Shl, Shr, Pow2, Height;
    var sn := Shr(e - 1, l);
    ShrMono(s, e - 1, l);
    m := l;
    if e != n { EndsBlock(e, l); }
    if Shr(s, l) == sn {
      ShrBracket(e - 1, l);
      ShlNext(sn, l);
    } else {
      StillAligned(s, e, l);
      if e == n || sn % 2 == 1 {
        ShrStep(s, l);
        ShrStep(e - 1, l);
        ShrStep(n - 1, l);
        if e != n {
          ShlNext(sn, l);
          ShlDouble(sn / 2 + 1, l);
          MultipleOfShl(sn / 2 + 1, l + 1);
        }
        m := StartLevel(s, e, n, l + 1);
      }
    }
  }

  // The generated proof, read from the level where the evaluator starts.
  lemma ProofFrom(d: seq<Entry>, s: nat, e: nat, n: nat, l: nat, t: nat)
    requires StartsAt(s, e, n, l) && n <= |d| && n <= Pow2(t) && l <= t
    ensures var j := Shr(e - 1, l);
            && Shl(j, l) < n
            && SubtreeProof(d, s, e, 0, n, true) ==
               (if Shr(s, l) == j then [] else [Mth(d, Shl(j, l), e)]) + Climb(d, l, j, n, t)
  {
    hide SubtreeProof, Climb, Mth;
    var j := Shr(e - 1, l);
    ShlOne(t);
    MultipleOfShl(0, t);
    if Shr(s, l) == j {
      ProofOfNode(d, s, e, 0, n, true, l, j, t);
    } else {
      ProofOfRagged(d, s, e, 0, n, true, l, j, t);
    }
  }

  // ---------- the walk ----------

  // Above the root there is nothing to climb.
  lemma {:induction false} ClimbAtRoot(d: seq<Entry>, l: nat, n: nat, t: nat)
    requires 0 < n <= |d| && n <= Pow2(l)
    ensures Shl(0, l) == 0
    ensures Climb(d, l, 0, n, t) == []
    decreases t - l
  {
    ShlOne(l);
    if l < t { ClimbAtRoot(d, l + 1, n, t); }
  }

  lemma RootNode(d: seq<Entry>, l: nat, n: nat)
    requires 0 < n <= |d| && Shr(n - 1, l) == 0
    ensures Shl(0, l) == 0 && n <= Pow2(l) && LevelNode(d, l, 0, n) == Mth(d, 0, n)
  {
    ShlOne(l);
    ShrBracket(n - 1, l);
  }

  // Node i of level l lies in the tree of n leaves.
  predicate InTree(i: nat, l: nat, n: nat) {
    0 < n && i <= Shr(n - 1, l)
  }

  lemma InTreeStart(i: nat, l: nat, n: nat)
    requires 0 < n
    ensures InTree(i, l, n) <==> Shl(i, l) < n
    ensures InTree(i, l, n) ==> InTree(i / 2, l + 1, n)
  {
    var q := Shr(n - 1, l);
    ShrBracket(n - 1, l);
    if i <= q { ShlMono(i, q, l); } else { ShlMono(q + 1, i, l); }
    ShrStep(n - 1, l);
  }

  // One level of the climb, told by the parity of i and by whether it is the last node.
  lemma ClimbStep(d: seq<Entry>, l: nat, i: nat, n: nat, t: nat)
    requires n <= |d| && InTree(i, l, n) && l < t
    ensures Shl(i, l) < n && Shl(i / 2, l + 1) < n && InTree(i / 2, l + 1, n)
    ensures i % 2 == 1 ==>
              && Shl(i - 1, l) < n
              && Climb(d, l, i, n, t) == [LevelNode(d, l, i - 1, n)] + Climb(d, l + 1, i / 2, n, t)
              && LevelNode(d, l + 1, i / 2, n) == NodeHash(LevelNode(d, l, i - 1, n), LevelNode(d, l, i, n))
    ensures i % 2 == 0 && i != Shr(n - 1, l) ==>
              && Shl(i + 1, l) < n
              && Climb(d, l, i, n, t) == [LevelNode(d, l, i + 1, n)] + Climb(d, l + 1, i / 2, n, t)
              && LevelNode(d, l + 1, i / 2, n) == NodeHash(LevelNode(d, l, i, n), LevelNode(d, l, i + 1, n))
    ensures i % 2 == 0 && i == Shr(n - 1, l) ==>
              && Climb(d, l, i, n, t) == Climb(d, l + 1, i / 2, n, t)
              && LevelNode(d, l + 1, i / 2, n) == LevelNode(d, l, i, n)
  {
    hide Mth, Shl, Shr, Pow2;
    InTreeStart(i, l, n);
    InTreeStart(i + 1, l, n);
    InTreeStart(i / 2, l + 1, n);
    ParentStart(i, l);
    LevelStep(d, l, i / 2, n);
  }

  // The last level lies below t, where 2^t bounds the tree.
  lemma BelowTop(n: nat, l: nat, t: nat)
    requires 0 < n <= Pow2(t) && Shr(n - 1, l) != 0
    ensures l < t
  {
    if t <= l {
      Pow2Mono(t, l);
      ShrSmall(n - 1, l);
    }
  }

  // A walk that reaches the true root started from a true node and read true siblings only.
  lemma {:induction false} WalkSound(d: seq<Entry>, n: nat, l: nat, t: nat,
                                     fn: nat, sn: nat, proof: seq<Hash>, fr: Hash, sr: Hash)
    requires n <= |d| && InTree(sn, l, n) && n <= Pow2(t)
    requires var w := Walk(fn, sn, Shr(n - 1, l), proof, fr, sr);
             w.Some? && w.value.1 == Mth(d, 0, n)
    ensures Shl(sn, l) < n
    ensures sr == LevelNode(d, l, sn, n) && proof == Climb(d, l, sn, n, t)
    decreases Shr(n - 1, l)
  {
    hide Mth, Climb, Shl, Shr, Pow2, LevelNode;
    var tn := Shr(n - 1, l);
    InTreeStart(sn, l, n);
    if tn == 0 {
      RootNode(d, l, n);
      ClimbAtRoot(d, l, n, t);
    } else {
      BelowTop(n, l, t);
      ClimbStep(d, l, sn, n, t);
      ShrStep(n - 1, l);
      if sn % 2 == 1 {
        WalkSound(d, n, l + 1, t, fn / 2, sn / 2, proof[1..],
                  if fn < sn then NodeHash(proof[0], fr) else fr, NodeHash(proof[0], sr));
        assert proof == [proof[0]] + proof[1..];
      } else if sn != tn {
        WalkSound(d, n, l + 1, t, fn / 2, sn / 2, proof[1..], fr, NodeHash(sr, proof[0]));
        assert proof == [proof[0]] + proof[1..];
      } else {
        WalkSound(d, n, l + 1, t, fn / 2, sn / 2, proof, fr, sr);
      }
    }
  }

  // The subtree hash the walk should hold at level l: the right edge of [s, e), seen as a tree
  // that ends at e, until the two edges meet.
  function EdgeHash(d: seq<Entry>, s: nat, e: nat, l: nat): Hash
    requires s < e <= |d|
  {
    var fn, sn := Shr(s, l), Shr(e - 1, l);
    if fn < sn && Shl(sn, l) < e then LevelNode(d, l, sn, e) else Mth(d, s, e)
  }

  lemma EdgeStep(d: seq<Entry>, s: nat, e: nat, n: nat, l: nat, fn: nat, sn: nat)
    requires Aligned(s, e) && s < e <= n <= |d|
    requires fn == Shr(s, l) && sn == Shr(e - 1, l) && (fn < sn ==> Multiple(s, l))
    ensures fn / 2 < sn / 2 ==> Multiple(s, l + 1)
    ensures fn < sn && sn % 2 == 1 && Shl(sn - 1, l) < n ==>
              EdgeHash(d, s, e, l + 1) == NodeHash(LevelNode(d, l, sn - 1, n), EdgeHash(d, s, e, l))
    ensures fn >= sn || sn % 2 == 0 ==> EdgeHash(d, s, e, l + 1) == EdgeHash(d, s, e, l)
  {
    hide Mth, Shl, Shr, Pow2, Height;
    ShrStep(s, l);
    ShrStep(e - 1, l);
    if fn < sn {
      StillAligned(s, e, l);
      InTreeStart(sn, l, e);
      InTreeStart(sn + 1, l, e);
      InTreeStart(sn / 2, l + 1, e);
      ParentStart(sn, l);
      LevelStep(d, l, sn / 2, e);
      if sn / 2 == fn / 2 {
        ShrBracket(e - 1, l + 1);
        ShlNext(sn / 2, l + 1);
        assert LevelNode(d, l + 1, sn / 2, e) == Mth(d, s, e);
      }
    }
  }

  // The walk along the true siblings ends with both true hashes.
  lemma {:induction false} WalkComplete(d: seq<Entry>, s: nat, e: nat, n: nat, l: nat, t: nat)
    requires Aligned(s, e) && e <= n <= |d| && n <= Pow2(t)
    requires Shr(s, l) < Shr(e - 1, l) ==> Multiple(s, l)
    ensures var sn := Shr(e - 1, l);
            && Shl(sn, l) < n
            && Walk(Shr(s, l), sn, Shr(n - 1, l), Climb(d, l, sn, n, t), EdgeHash(d, s, e, l), LevelNode(d, l, sn, n))
               == Some((Mth(d, s, e), Mth(d, 0, n)))
    decreases Shr(n - 1, l)
  {
    hide Mth, Climb, Shl, Shr, Pow2, LevelNode, EdgeHash, Height;
    var sn, tn := Shr(e - 1, l), Shr(n - 1, l);
    ShrMono(e - 1, n - 1, l);
    ShrMono(s, e - 1, l);
    InTreeStart(sn, l, n);
    if tn == 0 {
      RootNode(d, l, n);
      ClimbAtRoot(d, l, n, t);
      EdgeAtRoot(d, s, e, l);
    } else {
      BelowTop(n, l, t);
      ClimbStep(d, l, sn, n, t);
      ShrStep(s, l);
      ShrStep(e - 1, l);
      ShrStep(n - 1, l);
      EdgeStep(d, s, e, n, l, Shr(s, l), sn);
      WalkComplete(d, s, e, n, l + 1, t);
    }
  }

  lemma EdgeAtRoot(d: seq<Entry>, s: nat, e: nat, l: nat)
    requires s < e <= |d| && Shr(e - 1, l) == 0
    ensures EdgeHash(d, s, e, l) == Mth(d, s, e)
  {
  }

  // ---------- main results ----------

  // What WalkFrom computes from the starting level, split by whether [s, e) is a node itself.
  lemma WalkFromSound(d: seq<Entry>, s: nat, e: nat, n: nat, l: nat, t: nat, proof: seq<Hash>, h: Hash)
    requires Aligned(s, e) && e <= n <= |d| && StartsAt(s, e, n, l) && l <= t && n <= Pow2(t)
    requires var w := WalkFrom(Paths(Shr(s, l), Shr(e - 1, l), Shr(n - 1, l)), proof, h);
             w.Some? && w.value == (h, Mth(d, 0, n))
    ensures h == Mth(d, s, e) && proof == SubtreeProof(d, s, e, 0, n, true)
  {
    hide Mth, Climb, Shl, Shr, Pow2, SubtreeProof, Height, Walk;
    var sn := Shr(e - 1, l);
    ShrMono(e - 1, n - 1, l);
    ProofFrom(d, s, e, n, l, t);
    if Shr(s, l) == sn {
      WalkSound(d, n, l, t, sn, sn, proof, h, h);
    } else {
      WalkSound(d, n, l, t, Shr(s, l), sn, proof[1..], proof[0], proof[0]);
      EdgeAtStart(d, s, e, n, l);
      WalkComplete(d, s, e, n, l, t);
      assert proof == [proof[0]] + proof[1..];
    }
  }

  lemma WalkFromComplete(d: seq<Entry>, s: nat, e: nat, n: nat, l: nat, t: nat)
    requires Aligned(s, e) && e <= n <= |d| && StartsAt(s, e, n, l) && l <= t && n <= Pow2(t)
    ensures WalkFrom(Paths(Shr(s, l), Shr(e - 1, l), Shr(n - 1, l)), SubtreeProof(d, s, e, 0, n, true), Mth(d, s, e))
            == Some((Mth(d, s, e), Mth(d, 0, n)))
  {
    hide Mth, Climb, Shl, Shr, Pow2, SubtreeProof, Height, Walk;
    ProofFrom(d, s, e, n, l, t);
    EdgeAtStart(d, s, e, n, l);
    WalkComplete(d, s, e, n, l, t);
    var proof := SubtreeProof(d, s, e, 0, n, true);
    if Shr(s, l) == Shr(e - 1, l) {
      assert proof == Climb(d, l, Shr(e - 1, l), n, t);
    } else {
      assert proof[1..] == Climb(d, l, Shr(e - 1, l), n, t);
    }
  }

  lemma EdgeAtStart(d: seq<Entry>, s: nat, e: nat, n: nat, l: nat)
    requires Aligned(s, e) && e <= n <= |d| && StartsAt(s, e, n, l)
    ensures var j := Shr(e - 1, l);
            && Shl(j, l) < e
            && EdgeHash(d, s, e, l) == Mth(d, if Shr(s, l) == j then s else Shl(j, l), e)
            && LevelNode(d, l, j, n) == EdgeHash(d, s, e, l)
    ensures Shr(s, l) < Shr(e - 1, l) ==> Multiple(s, l)
  {
    hide Mth, Shl, Shr, Pow2, Height;
    var j := Shr(e - 1, l);
    ShrBracket(e - 1, l);
    ShrMono(s, e - 1, l);
    if Shr(s, l) != j {
      HeightLeast(e - s, l);
      MultipleLess(s, l, Height(e - s));
    }
  }

  lemma LevelZero(x: nat)
    ensures Shr(x, 0) == x && Multiple(x, 0)
  {
  }

  lemma OneLeaf(d: seq<Entry>, i: nat)
    requires i < |d|
    ensures Aligned(i, i + 1) && Mth(d, i, i + 1) == LeafHash(d[i])
  {
  }

  // A proof evaluates to the true root of the first n entries exactly when the subtree is one of
  // that tree, the claimed subtree hash is the true one, and the proof is, hash for hash, the
  // generated one.
  lemma ConsistencyTheorem(d: seq<Entry>, n: u64, subtree: Subtree, proof: ProofBytes, nodeHash: Hash)
    requires 0 < n <= |d|
    ensures Evaluate(n, subtree, proof, nodeHash) == Some(Mth(d, 0, n)) <==>
            && Aligned(subtree.start, subtree.end) && subtree.end <= n
            && nodeHash == Mth(d, subtree.start, subtree.end)
            && proof == ProofBytes(SubtreeProof(d, subtree.start, subtree.end, 0, n, true), false)
  {
    hide Mth, Shl, Shr, Pow2, SubtreeProof, Height, Walk, WalkFrom, Start, Subtree.IsValid, Multiple;
    var s, e := subtree.start, subtree.end;
    IsValidCorrect(subtree);
    if Aligned(s, e) && e <= n && !proof.trailing {
      LevelZero(s);
      LevelZero(e);
      LevelZero(e - 1);
      LevelZero(n - 1);
      var l := StartLevel(s, e, n, 0);
      var p := Paths(Shr(s, l), Shr(e - 1, l), Shr(n - 1, l));
      var t := l + n;
      Pow2Exceeds(n);
      Pow2Mono(n, t);
      if WalkFrom(p, proof.hashes, nodeHash) == Some((nodeHash, Mth(d, 0, n))) {
        WalkFromSound(d, s, e, n, l, t, proof.hashes, nodeHash);
      }
      WalkFromComplete(d, s, e, n, l, t);
    }
  }

  // A tree and its proofs depend only on the entries of its own range.
  lemma {:induction false} MthRebase(d: seq<Entry>, a: nat, b: nat, lo: nat, hi: nat)
    requires a <= b <= |d| && lo < hi <= b - a
    ensures Mth(d[a..b], lo, hi) == Mth(d, a + lo, a + hi)
    decreases hi - lo
  {
    if hi - lo > 1 {
      var k := SplitSize(hi - lo);
      MthRebase(d, a, b, lo, lo + k);
      MthRebase(d, a, b, lo + k, hi);
    }
  }

  lemma {:induction false} ProofRebase(d: seq<Entry>, a: nat, b: nat, s: nat, e: nat, lo: nat, hi: nat, known: bool)
    requires a <= b <= |d| && lo <= s < e <= hi <= b - a
    ensures SubtreeProof(d[a..b], s, e, lo, hi, known) == SubtreeProof(d, a + s, a + e, a + lo, a + hi, known)
    decreases hi - lo
  {
    hide Mth;
    MthRebase(d, a, b, s, e);
    if s == lo && e == hi {
    } else {
      var k := lo + SplitSize(hi - lo);
      MthRebase(d, a, b, lo, k);
      MthRebase(d, a, b, k, hi);
      if e <= k {
        ProofRebase(d, a, b, s, e, lo, k, known);
      } else if s >= k {
        ProofRebase(d, a, b, s, e, k, hi, known);
      } else {
        ProofRebase(d, a, b, k, e, k, hi, false);
      }
    }
  }

  // An inclusion proof evaluates to the true hash of the subtree exactly when the entry hash is
  // that of the entry at `index` and the proof is the generated one.
  lemma InclusionTheorem(d: seq<Entry>, proof: ProofBytes, index: u64, entryHash: Hash, subtree: Subtree)
    requires subtree.start < subtree.end <= |d|
    ensures EvaluateInclusion(proof, index, entryHash, subtree) == Some(Mth(d, subtree.start, subtree.end)) <==>
            && Aligned(subtree.start, subtree.end) && subtree.start <= index < subtree.end
            && entryHash == LeafHash(d[index])
            && proof == ProofBytes(SubtreeProof(d, index, index + 1, subtree.start, subtree.end, true), false)
  {
    hide SubtreeProof, Evaluate, Mth, Shl, Shr, Pow2, Height, Subtree.IsValid, Aligned;
    var a, b := subtree.start, subtree.end;
    IsValidCorrect(subtree);
    if subtree.Contains(index) {
      var i := index - a;
      OneLeaf(d, index);
      OneLeaf(d[a..b], i);
      ConsistencyTheorem(d[a..b], b - a, Subtree(i, i + 1), proof, entryHash);
      MthRebase(d, a, b, 0, b - a);
      MthRebase(d, a, b, i, i + 1);
      ProofRebase(d, a, b, i, i + 1, 0, b - a, true);
    }
  }

  // ---------- every accepted proof has the same length ----------

  lemma {:induction false} WalkLength(fn: nat, sn: nat, tn: nat,
                                      p: seq<Hash>, fr: Hash, sr: Hash, q: seq<Hash>, fr': Hash, sr': Hash)
    requires Walk(fn, sn, tn, p, fr, sr).Some? && Walk(fn, sn, tn, q, fr', sr').Some?
    ensures |p| == |q|
    decreases tn
  {
    if tn != 0 {
      if sn % 2 == 1 {
        WalkLength(fn / 2, sn / 2, tn / 2,
                   p[1..], if fn < sn then NodeHash(p[0], fr) else fr, NodeHash(p[0], sr),
                   q[1..], if fn < sn then NodeHash(q[0], fr') else fr', NodeHash(q[0], sr'));
      } else if sn != tn {
        WalkLength(fn / 2, sn / 2, tn / 2,
                   p[1..], fr, NodeHash(sr, p[0]), q[1..], fr', NodeHash(sr', q[0]));
      } else {
        WalkLength(fn / 2, sn / 2, tn / 2, p, fr, sr, q, fr', sr');
      }
    }
  }

  lemma AcceptedProofsSameLength(n: u64, subtree: Subtree, p: ProofBytes, h: Hash, q: ProofBytes, h': Hash)
    requires Evaluate(n, subtree, p, h).Some? && Evaluate(n, subtree, q, h').Some?
    ensures |p.hashes| == |q.hashes|
  {
    var w := Start(subtree.start, subtree.end - 1, n - 1, subtree.end != n);
    hide Walk, Start, Subtree.IsValid;
    if w.fn == w.sn {
      WalkLength(w.fn, w.sn, w.tn, p.hashes, h, h, q.hashes, h', h');
    } else {
      WalkLength(w.fn, w.sn, w.tn, p.hashes[1..], p.hashes[0], p.hashes[0],
                 q.hashes[1..], q.hashes[0], q.hashes[0]);
    }
  }
}
