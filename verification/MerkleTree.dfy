/** `MerkleTreeInMemory` (merkle_tree.cc): the stored levels, and the subtree hashes and inclusion
    proofs computed from them. */
module MerkleTree {
  import opened Bits
  import opened Options
  import opened Subtrees
  import opened MerkleSpec
  import opened MerkleEvaluate

  // ---------- what the levels hold ----------

  // Block j of level l: the complete subtree of 2^l leaves.
  function Block(d: seq<Entry>, l: nat, j: nat): Hash
    requires Shl(j, l) + Pow2(l) <= |d|
  {
    Mth(d, Shl(j, l), Shl(j, l) + Pow2(l))
  }

  // How many levels a tree of n leaves has: one for every block size that fits, at least one.
  function LevelCount(n: nat): nat {
    if n <= 1 then 1 else 1 + LevelCount(n / 2)
  }

  predicate RowOk(row: seq<Hash>, d: seq<Entry>, l: nat) {
    |row| <= Shr(|d|, l) &&
    forall j | 0 <= j < |row| :: Shl(j, l) + Pow2(l) <= |d| && row[j] == Block(d, l, j)
  }

  // Rows that are right as far as they go.
  predicate Partial(levels: seq<seq<Hash>>, d: seq<Entry>) {
    1 <= |levels| <= LevelCount(|d|) &&
    forall l | 0 <= l < |levels| :: RowOk(levels[l], d, l)
  }

  // Exactly size / 2^l nodes at level l, each the hash of its own block.
  predicate Complete(levels: seq<seq<Hash>>, d: seq<Entry>) {
    && Partial(levels, d)
    && |levels| == LevelCount(|d|)
    && forall l | 0 <= l < |levels| :: |levels[l]| == Shr(|d|, l)
  }

  // The levels are a function of the entries, however they were built.
  lemma CompleteUnique(a: seq<seq<Hash>>, b: seq<seq<Hash>>, d: seq<Entry>)
    requires Complete(a, d) && Complete(b, d)
    ensures a == b
  {
    forall l | 0 <= l < |a|
      ensures a[l] == b[l]
    {
      assert RowOk(a[l], d, l) && RowOk(b[l], d, l);
    }
  }

  lemma {:induction false} LevelCountIs(n: nat, l: nat)
    ensures l < LevelCount(n) <==> l == 0 || Shr(n, l) > 0
    decreases l
  {
    if l > 0 {
      LevelCountIs(n / 2, l - 1);
      if n <= 1 { ShrSmallNumber(l - 1); }
    }
  }

  lemma {:induction false} ShrSmallNumber(l: nat)
    ensures Shr(0, l) == 0
  {
    if l > 0 { ShrSmallNumber(l - 1); }
  }

  lemma BlockFits(n: nat, l: nat, j: nat)
    ensures j < Shr(n, l) <==> Shl(j, l) + Pow2(l) <= n
  {
    ShlNext(j, l);
    ShrBracket(n, l);
    if j < Shr(n, l) {
      ShlMono(j + 1, Shr(n, l), l);
    } else {
      ShlMono(Shr(n, l) + 1, j + 1, l);
    }
  }

  // A parent block is the node over its two halves.
  lemma BlockStep(d: seq<Entry>, l: nat, j: nat)
    requires Shl(j, l + 1) + Pow2(l + 1) <= |d|
    ensures Shl(2 * j, l) + Pow2(l) <= |d| && Shl(2 * j + 1, l) + Pow2(l) <= |d|
    ensures Block(d, l + 1, j) == NodeHash(Block(d, l, 2 * j), Block(d, l, 2 * j + 1))
  {
    hide Shl, Mth;
    ShlDouble(j, l);
    ShlNext(2 * j, l);
    MthSplit(d, Shl(j, l + 1), Shl(j, l + 1) + Pow2(l + 1), l);
  }

  lemma {:induction false} MthAppend(d: seq<Entry>, e: Entry, lo: nat, hi: nat)
    requires lo < hi <= |d|
    ensures Mth(d + [e], lo, hi) == Mth(d, lo, hi)
    decreases hi - lo
  {
    if hi - lo > 1 {
      var k := lo + SplitSize(hi - lo);
      MthAppend(d, e, lo, k);
      MthAppend(d, e, k, hi);
    }
  }

  lemma LeafBlock(d: seq<Entry>, j: nat)
    requires j < |d|
    ensures Shl(j, 0) + Pow2(0) <= |d| && Block(d, 0, j) == LeafHash(d[j])
  {
  }

  // Appending an entry leaves every stored node right.
  lemma PartialAppend(levels: seq<seq<Hash>>, d: seq<Entry>, e: Entry)
    requires Complete(levels, d)
    ensures Partial(levels[0 := levels[0] + [LeafHash(e)]], d + [e])
  {
    hide Shl, Pow2, LevelCount;
    var d' := d + [e];
    var levels' := levels[0 := levels[0] + [LeafHash(e)]];
    LevelCountIs(|d'|, |levels| - 1);
    LevelCountIs(|d|, |levels| - 1);
    ShrMono(|d|, |d'|, |levels| - 1);
    forall l | 0 <= l < |levels|
      ensures RowOk(levels'[l], d', l)
    {
      ShrMono(|d|, |d'|, l);
      assert RowOk(levels[l], d, l);
      forall j | 0 <= j < |levels'[l]|
        ensures Shl(j, l) + Pow2(l) <= |d'| && levels'[l][j] == Block(d', l, j)
      {
        if j < |levels[l]| {
          MthAppend(d, e, Shl(j, l), Shl(j, l) + Pow2(l));
        } else {
          LeafBlock(d', j);
        }
      }
    }
  }

  // ---------- appending as a binary counter ----------

  lemma BlocksFit(n: nat, l: nat)
    ensures forall j | 0 <= j < Shr(n, l) :: Shl(j, l) + Pow2(l) <= n
  {
    forall j | 0 <= j < Shr(n, l)
      ensures Shl(j, l) + Pow2(l) <= n
    {
      BlockFits(n, l, j);
    }
  }

  // All nodes of level l.
  ghost function Row(d: seq<Entry>, l: nat): (row: seq<Hash>)
    ensures |row| == Shr(|d|, l)
    ensures forall j | 0 <= j < |row| :: Shl(j, l) + Pow2(l) <= |d| && row[j] == Block(d, l, j)
  {
    BlocksFit(|d|, l);
    seq(Shr(|d|, l), j requires 0 <= j < Shr(|d|, l) => Block(d, l, j))
  }

  // The levels from l upwards that have any nodes.
  ghost function RowsFrom(d: seq<Entry>, l: nat): seq<seq<Hash>>
    decreases Shr(|d|, l)
  {
    ShrStep(|d|, l);
    if Shr(|d|, l) == 0 then [] else [Row(d, l)] + RowsFrom(d, l + 1)
  }

  lemma {:induction false} RowsFromIs(d: seq<Entry>, l: nat)
    ensures var rows := RowsFrom(d, l);
            && Shr(|d|, l + |rows|) == 0
            && forall k | 0 <= k < |rows| :: rows[k] == Row(d, l + k) && rows[k] != []
    decreases Shr(|d|, l)
  {
    hide Row, Shr;
    ShrStep(|d|, l);
    if Shr(|d|, l) > 0 { RowsFromIs(d, l + 1); }
  }

  lemma RowsAreComplete(d: seq<Entry>)
    requires d != []
    ensures Complete(RowsFrom(d, 0), d)
  {
    hide Row, LevelCount;
    RowsFromIs(d, 0);
    var rows := RowsFrom(d, 0);
    LevelCountIs(|d|, |rows|);
    LevelCountIs(|d|, |rows| - 1);
    forall l | 0 <= l < |rows|
      ensures RowOk(rows[l], d, l) && |rows[l]| == Shr(|d|, l)
    {
      assert rows[l] == Row(d, l);
    }
  }

  // Put a node at the end of the lowest row; if that completes a pair, carry its parent upwards.
  function Carry(rows: seq<seq<Hash>>, h: Hash): seq<seq<Hash>> {
    if rows == [] then [[h]]
    else
      var row, n := rows[0] + [h], |rows[0]|;
      if n % 2 == 0 then [row] + rows[1..] else [row] + Carry(rows[1..], NodeHash(row[n - 1], row[n]))
  }

  lemma RowAppend(d: seq<Entry>, e: Entry, l: nat)
    ensures Shr(|d + [e]|, l) == Shr(|d|, l) ==> Row(d + [e], l) == Row(d, l)
    ensures Shr(|d + [e]|, l) == Shr(|d|, l) + 1 ==>
              Row(d + [e], l) == Row(d, l) + [Row(d + [e], l)[Shr(|d|, l)]]
  {
    hide Shl, Shr, Pow2, Mth;
    forall j | 0 <= j < Shr(|d|, l)
      ensures Shl(j, l) + Pow2(l) <= |d| && Block(d + [e], l, j) == Block(d, l, j)
    {
      BlockFits(|d|, l, j);
      MthAppend(d, e, Shl(j, l), Shl(j, l) + Pow2(l));
    }
  }

  lemma {:induction false} RowsUnchanged(d: seq<Entry>, e: Entry, l: nat)
    requires Shr(|d + [e]|, l) == Shr(|d|, l)
    ensures RowsFrom(d + [e], l) == RowsFrom(d, l)
    decreases Shr(|d|, l)
  {
    hide Row, Shr;
    ShrStep(|d|, l);
    ShrStep(|d + [e]|, l);
    if Shr(|d|, l) > 0 {
      RowAppend(d, e, l);
      RowsUnchanged(d, e, l + 1);
    }
  }

  // The parent of a complete pair in the row above.
  lemma NodeOfPair(d: seq<Entry>, l: nat, j: nat)
    requires j < Shr(|d|, l + 1)
    ensures 2 * j + 1 < Shr(|d|, l)
    ensures Row(d, l + 1)[j] == NodeHash(Row(d, l)[2 * j], Row(d, l)[2 * j + 1])
  {
    hide Shr, Block;
    ShrStep(|d|, l);
    BlockFits(|d|, l + 1, j);
    BlockStep(d, l, j);
  }

  lemma CarryStops(d: seq<Entry>, e: Entry, l: nat)
    requires Shr(|d + [e]|, l) == Shr(|d|, l) + 1 && Shr(|d|, l) % 2 == 0
    ensures Carry(RowsFrom(d, l), Row(d + [e], l)[Shr(|d|, l)]) == RowsFrom(d + [e], l)
  {
    hide Row, Shr;
    var d', n := d + [e], Shr(|d|, l);
    ShrStep(|d|, l);
    ShrStep(|d'|, l);
    RowAppend(d, e, l);
    RowsUnchanged(d, e, l + 1);
    if n == 0 {
      assert RowsFrom(d, l + 1) == [] && Row(d', l) == [Row(d', l)[0]];
    } else {
      assert RowsFrom(d, l)[1..] == RowsFrom(d, l + 1);
    }
  }

  lemma CarryGoesOn(rows: seq<seq<Hash>>, row: seq<Hash>, h: Hash, parent: Hash)
    requires |row| % 2 == 1 && parent == NodeHash(row[|row| - 1], h)
    ensures Carry([row] + rows, h) == [row + [h]] + Carry(rows, parent)
  {
    assert ([row] + rows)[1..] == rows;
  }

  // Where level l gets a new node, carrying it gives the rows with the entry added.
  lemma {:induction false} CarryRows(d: seq<Entry>, e: Entry, l: nat)
    requires Shr(|d + [e]|, l) == Shr(|d|, l) + 1
    ensures Carry(RowsFrom(d, l), Row(d + [e], l)[Shr(|d|, l)]) == RowsFrom(d + [e], l)
    decreases Shr(|d|, l)
  {
    hide Row, Shr, Carry;
    var d', n := d + [e], Shr(|d|, l);
    if n % 2 == 0 {
      CarryStops(d, e, l);
    } else {
      ShrStep(|d|, l);
      ShrStep(|d'|, l);
      RowAppend(d, e, l);
      NodeOfPair(d', l, n / 2);
      CarryRows(d, e, l + 1);
      CarryGoesOn(RowsFrom(d, l + 1), Row(d, l), Row(d', l)[n], Row(d', l + 1)[n / 2]);
    }
  }

  // One append is one carry through the levels.
  lemma CarryComplete(levels: seq<seq<Hash>>, d: seq<Entry>, e: Entry)
    requires Complete(levels, d)
    ensures Complete(Carry(levels, LeafHash(e)), d + [e])
  {
    hide Complete, Row, RowsFrom;
    var d' := d + [e];
    RowsAreComplete(d');
    LevelZero(|d|);
    LevelZero(|d'|);
    LeafBlock(d', |d|);
    CarryRows(d, e, 0);
    if d == [] {
      EmptyLevels(levels, e);
    } else {
      RowsAreComplete(d);
      CompleteUnique(levels, RowsFrom(d, 0), d);
    }
  }

  lemma EmptyComplete()
    ensures Complete([[]], [])
  {
  }

  lemma EmptyLevels(levels: seq<seq<Hash>>, e: Entry)
    requires Complete(levels, [])
    ensures Carry(levels, LeafHash(e)) == Carry(RowsFrom([], 0), LeafHash(e))
  {
    assert levels == [[]] && levels[1..] == [] && levels[0] + [LeafHash(e)] == [LeafHash(e)];
    assert RowsFrom([], 0) == [];
  }

  // The levels after appending the entries one by one to an empty tree.
  function AppendAll(d: seq<Entry>): seq<seq<Hash>> {
    if d == [] then [[]] else Carry(AppendAll(d[..|d| - 1]), LeafHash(d[|d| - 1]))
  }

  lemma {:induction false} AppendAllComplete(d: seq<Entry>)
    ensures Complete(AppendAll(d), d)
  {
    hide Complete, Carry;
    if d == [] {
      EmptyComplete();
    } else {
      var n := |d| - 1;
      AppendAllComplete(d[..n]);
      CarryComplete(AppendAll(d[..n]), d[..n], d[n]);
      assert d[..n] + [d[n]] == d;
    }
  }

  class MerkleTreeInMemory {
    var levels: seq<seq<Hash>>
    ghost var entries: seq<Entry>

    ghost predicate Valid()
      reads this
    {
      Complete(levels, entries)
    }

    constructor ()
      ensures Valid() && entries == [] && levels == [[]]
    {
      levels := [[]];
      entries := [];
    }

    constructor FromEntries(d: seq<Entry>)
      ensures Valid() && entries == d
    {
      var level := [];
      for i := 0 to |d|
        invariant |level| == i && forall k | 0 <= k < i :: level[k] == LeafHash(d[k])
      {
        level := level + [LeafHash(d[i])];
      }
      levels := [level];
      entries := d;
      new;
      UpdateLevels();
    }

    method Size() returns (n: nat)
      requires Valid()
      ensures n == |entries|
    {
      n := |levels[0]|;
    }

    method Append(entry: Entry)
      requires Valid()
      modifies this
      ensures Valid() && entries == old(entries) + [entry]
      ensures levels == Carry(old(levels), LeafHash(entry))
    {
      hide Carry;
      ghost var before := levels;
      PartialAppend(levels, entries, entry);
      CarryComplete(levels, entries, entry);
      levels := levels[0 := levels[0] + [LeafHash(entry)]];
      entries := entries + [entry];
      UpdateLevels();
      CompleteUnique(levels, Carry(before, LeafHash(entry)), entries);
    }

    // Fill the levels above the leaves.
    method UpdateLevels()
      requires Partial(levels, entries) && |levels[0]| == |entries|
      modifies this`levels
      ensures Valid()
    {
      var level, n := 1, |levels[0]| / 2;
      while n != 0
        invariant 1 <= level && n == Shr(|entries|, level)
        invariant Partial(levels, entries) && level <= |levels|
        invariant forall l | 0 <= l < level :: |levels[l]| == Shr(|entries|, l)
        decreases n
      {
        LevelCountIs(|entries|, level);
        if level == |levels| {
          levels := levels + [[]];
        }
        FillLevel(level, n);
        ShrStep(|entries|, level);
        level, n := level + 1, n / 2;
      }
      LevelCountIs(|entries|, level);
    }

    method FillLevel(level: nat, n: nat)
      requires Partial(levels, entries) && 1 <= level < |levels| && n == Shr(|entries|, level)
      requires |levels[level - 1]| == Shr(|entries|, level - 1)
      modifies this`levels
      ensures Partial(levels, entries) && |levels| == old(|levels|)
      ensures |levels[level]| == n
      ensures forall l | 0 <= l < |levels| && l != level :: levels[l] == old(levels[l])
    {
      while |levels[level]| < n
        invariant Partial(levels, entries) && |levels| == old(|levels|)
        invariant |levels[level]| <= n
        invariant forall l | 0 <= l < |levels| && l != level :: levels[l] == old(levels[l])
        decreases n - |levels[level]|
      {
        var i := |levels[level]|;
        ShrStep(|entries|, level - 1);
        assert RowOk(levels[level - 1], entries, level - 1);
        var h := NodeHash(levels[level - 1][2 * i], levels[level - 1][2 * i + 1]);
        BlockFits(|entries|, level, i);
        BlockStep(entries, level - 1, i);
        RowPush(levels[level], entries, level, h);
        levels := levels[level := levels[level] + [h]];
      }
    }

    // Any complete block within the tree is stored.
    method GetNode(level: nat, index: nat) returns (h: Hash)
      requires Valid() && Shl(index, level) + Pow2(level) <= |entries|
      ensures h == Block(entries, level, index)
    {
      BlockFits(|entries|, level, index);
      LevelCountIs(|entries|, level);
      LevelZero(|entries|);
      assert RowOk(levels[level], entries, level);
      h := levels[level][index];
    }

    method SubtreeHash(subtree: Subtree) returns (ret: Hash)
      requires Valid() && subtree.IsValid() && subtree.end <= |entries|
      ensures ret == Mth(entries, subtree.start, subtree.end)
    {
      hide Subtree.IsValid, Mth, Shl, Shr, Pow2, Height, EdgeHash, Complete;
      IsValidCorrect(subtree);
      ghost var s, e := subtree.start, subtree.end;
      var start: nat, last: nat := subtree.start, subtree.end - 1;
      var level := TrailingOnes(last - start);
      RightEdgeBlock(entries, s, e, level);
      start, last := Shr(start, level), Shr(last, level);
      ret := GetNode(level, last);
      while start < last
        invariant start == Shr(s, level) <= last == Shr(e - 1, level)
        invariant start < last ==> Multiple(s, level)
        invariant ret == EdgeHash(entries, s, e, level)
        decreases last
      {
        EdgeStep(entries, s, e, |entries|, level, start, last);
        if last % 2 == 1 {
          LeftNeighbour(entries, level, last, e);
          var left := GetNode(level, last - 1);
          ret := NodeHash(left, ret);
        }
        ShrStep(s, level);
        ShrStep(e - 1, level);
        level, start, last := level + 1, start / 2, last / 2;
      }
      EdgesMeet(entries, s, e, level);
    }

    // The hash of the neighbour of node i, if it has one within the subtree.
    method NeighbourHash(level: nat, i: nat, last: nat, end: u64, ghost t: nat) returns (hashes: seq<Hash>)
      requires Valid() && 0 < end <= |entries| && level < t
      requires last == Shr(end - 1, level) && InTree(i, level, end)
      ensures Shl(i, level) < end && Shl(i / 2, level + 1) < end
      ensures hashes + Climb(entries, level + 1, i / 2, end, t) == Climb(entries, level, i, end, t)
    {
      hide Subtree.IsValid, Mth, Shl, Shr, Pow2, Height, Complete, Climb;
      hashes := [];
      var neighbour := if i % 2 == 0 then i + 1 else i - 1;
      ClimbStep(entries, level, i, end, t);
      if neighbour < last {
        LeftNeighbour(entries, level, neighbour + 1, end);
        var h := GetNode(level, neighbour);
        hashes := [h];
      } else if neighbour == last {
        RightNeighbour(entries, level, end);
        var right := Subtree(Shl(last, level), end);
        IsValidCorrect(right);
        var h := SubtreeHash(right);
        hashes := [h];
      }
    }

    method SubtreeInclusionProof(index: u64, subtree: Subtree) returns (proof: seq<Hash>)
      requires Valid() && subtree.IsValid() && subtree.end <= |entries| && subtree.Contains(index)
      ensures proof == SubtreeProof(entries, index, index + 1, subtree.start, subtree.end, true)
    {
      hide Subtree.IsValid, Mth, Shl, Shr, Pow2, Height, Complete, Climb, SubtreeProof;
      IsValidCorrect(subtree);
      ghost var s, e := subtree.start, subtree.end;
      ghost var t := Height(e - s);
      LeafProof(entries, index, s, e, t);
      LevelZero(s);
      LevelZero(e - 1);
      LevelZero(index);
      proof := [];
      var start: nat, last: nat, i: nat, level := subtree.start, subtree.end - 1, index, 0;
      while start < last
        invariant start == Shr(s, level) <= i == Shr(index, level) <= last == Shr(e - 1, level)
        invariant Shl(i, level) < e
        invariant proof + Climb(entries, level, i, e, t) ==
                  SubtreeProof(entries, index, index + 1, s, e, true)
        decreases last
      {
        EdgesApart(s, e, level);
        var hashes := NeighbourHash(level, i, last, subtree.end, t);
        AssocHashes(proof, hashes, Climb(entries, level + 1, i / 2, e, t));
        proof := proof + hashes;
        ShrStep(s, level);
        ShrStep(e - 1, level);
        ShrStep(index, level);
        level, start, i, last := level + 1, start / 2, i / 2, last / 2;
      }
      ClimbFinished(entries, s, e, level, t);
    }
  }

  // ---------- proofs about the loops ----------

  lemma AssocHashes(a: seq<Hash>, b: seq<Hash>, c: seq<Hash>)
    ensures (a + b) + c == a + (b + c)
  {
  }

  // The number of ones at the low end of m.
  method TrailingOnes(m: nat) returns (count: nat)
    ensures Multiple(m + 1, count) && !Multiple(m + 1, count + 1)
  {
    var n := m;
    count := 0;
    while n % 2 == 1
      invariant m + 1 == Shl(n + 1, count)
      decreases n
    {
      ShlDouble(n / 2 + 1, count);
      n := n / 2;
      count := count + 1;
    }
    MultipleOfShl(n + 1, count);
    RaggedBlock(n, count);
  }

  lemma RaggedBlock(n: nat, l: nat)
    requires n % 2 == 0
    ensures !Multiple(Shl(n + 1, l), l + 1)
  {
    ShlNext(n, l);
    if Multiple(Shl(n + 1, l), l + 1) { RaggedEnd(n, l, l + 1); }
  }

  // The block on the right edge of [s, e) that the hash starts from.
  lemma RightEdgeBlock(d: seq<Entry>, s: nat, e: nat, l: nat)
    requires Aligned(s, e) && e <= |d| && Multiple(e - s, l)
    ensures Shr(s, l) <= Shr(e - 1, l) && Multiple(s, l)
    ensures Shl(Shr(e - 1, l), l) + Pow2(l) <= |d|
    ensures Block(d, l, Shr(e - 1, l)) == EdgeHash(d, s, e, l)
  {
    hide Shr, Shl, Mth, Pow2, Height;
    ShlOne(l);
    BlockBelow(0, e - s, l);
    assert l <= Height(e - s) by {
      HeightBounds(e - s);
      HeightLeast(e - s, l);
      if Height(e - s) < l { Pow2Mono(Height(e - s), l); }
    }
    MultipleLess(s, l, Height(e - s));
    MultipleSum(s, e - s, l);
    EndsBlock(e, l);
    ShrMono(s, e - 1, l);
  }

  // A node before node q is a complete block.
  lemma LeftNeighbour(d: seq<Entry>, l: nat, q: nat, e: nat)
    requires e <= |d| && 0 < q && InTree(q, l, e)
    ensures Shl(q - 1, l) + Pow2(l) < e
    ensures LevelNode(d, l, q - 1, e) == Block(d, l, q - 1) == LevelNode(d, l, q - 1, |d|)
  {
    hide Shr, Shl, Mth, Pow2;
    InTreeStart(q, l, e);
    ShlNext(q - 1, l);
  }

  // The last node is the subtree that starts there.
  lemma RightNeighbour(d: seq<Entry>, l: nat, e: nat)
    requires 0 < e <= |d|
    ensures var q := Shr(e - 1, l);
            Shl(q, l) < e && Aligned(Shl(q, l), e) && LevelNode(d, l, q, e) == Mth(d, Shl(q, l), e)
  {
    hide Shr, Shl, Mth, Pow2, Height;
    var q := Shr(e - 1, l);
    ShrBracket(e - 1, l);
    ShlNext(q, l);
    HeightLeast(e - Shl(q, l), l);
    MultipleOfShl(q, l);
    MultipleLess(Shl(q, l), Height(e - Shl(q, l)), l);
  }

  lemma EdgesMeet(d: seq<Entry>, s: nat, e: nat, l: nat)
    requires s < e <= |d| && Shr(s, l) == Shr(e - 1, l)
    ensures EdgeHash(d, s, e, l) == Mth(d, s, e)
  {
  }

  // Edges that differ at level l belong to a tree higher than l.
  lemma EdgesApart(s: nat, e: nat, l: nat)
    requires Aligned(s, e) && Shr(s, l) < Shr(e - 1, l)
    ensures l < Height(e - s)
  {
    hide Shr, Shl, Pow2, Height;
    var h := Height(e - s);
    if h <= l {
      HeightBounds(e - s);
      SameBlock(s, e - 1, h);
      ShrComp(s, h, l - h);
      ShrComp(e - 1, h, l - h);
    }
  }

  lemma LeafProof(d: seq<Entry>, index: nat, s: nat, e: nat, t: nat)
    requires Aligned(s, e) && e <= |d| && s <= index < e && t == Height(e - s)
    ensures Shl(index, 0) == index
    ensures SubtreeProof(d, index, index + 1, s, e, true) == Climb(d, 0, index, e, t)
  {
    hide Mth, Climb, SubtreeProof, Shr, Height;
    HeightBounds(e - s);
    LevelZero(index);
    ProofOfNode(d, index, index + 1, s, e, true, 0, index, t);
  }

  // Where the edges of the subtree have met, no sibling is left in it.
  lemma {:induction false} ClimbFinished(d: seq<Entry>, s: nat, e: nat, l: nat, t: nat)
    requires s < e <= |d| && Multiple(s, t) && Shr(s, l) == Shr(e - 1, l)
    requires Shl(Shr(s, l), l) < e
    ensures Climb(d, l, Shr(s, l), e, t) == []
    decreases t - l
  {
    hide Shr, Shl, Mth, Pow2;
    if l < t {
      MultipleLess(s, l + 1, t);
      MultipleEven(s, l);
      ClimbStep(d, l, Shr(s, l), e, t);
      ShrStep(s, l);
      ShrStep(e - 1, l);
      ClimbFinished(d, s, e, l + 1, t);
    }
  }

  lemma RowPush(row: seq<Hash>, d: seq<Entry>, l: nat, h: Hash)
    requires RowOk(row, d, l) && |row| < Shr(|d|, l)
    requires Shl(|row|, l) + Pow2(l) <= |d| && h == Block(d, l, |row|)
    ensures RowOk(row + [h], d, l)
  {
    hide Shl, Shr, Block;
    var row' := row + [h];
    forall j | 0 <= j < |row'|
      ensures Shl(j, l) + Pow2(l) <= |d| && row'[j] == Block(d, l, j)
    {
    }
  }

  // ---------- tree and verifier together ----------

  // The tree's own inclusion proof of an entry leads the verifier to the tree's own subtree hash.
  method InclusionRoundTrip(tree: MerkleTreeInMemory, index: u64, subtree: Subtree)
    returns (entryHash: Hash, hashes: seq<Hash>, root: Hash, computed: Option<Hash>)
    requires tree.Valid() && subtree.IsValid() && subtree.end <= |tree.entries| && subtree.Contains(index)
    ensures root == Mth(tree.entries, subtree.start, subtree.end)
    ensures entryHash == LeafHash(tree.entries[index])
    ensures hashes == SubtreeProof(tree.entries, index, index + 1, subtree.start, subtree.end, true)
    ensures EvaluateInclusion(ProofBytes(hashes, false), index, entryHash, subtree) == Some(root) == computed
  {
    hide Subtree.IsValid, SubtreeProof, Mth, EvaluateInclusion, Complete, Aligned;
    ghost var d := tree.entries;
    IsValidCorrect(subtree);
    OneLeaf(d, index);
    var leaf := Subtree(index, index + 1);
    IsValidCorrect(leaf);
    root := tree.SubtreeHash(subtree);
    entryHash := tree.SubtreeHash(leaf);
    hashes := tree.SubtreeInclusionProof(index, subtree);
    InclusionTheorem(d, ProofBytes(hashes, false), index, entryHash, subtree);
    computed := EvaluateInclusionProof(ProofBytes(hashes, false), index, entryHash, subtree);
  }

  // Appending the entries one by one gives the same levels as building from all of them.
  method BuildBothWays(d: seq<Entry>) returns (batch: MerkleTreeInMemory, grown: MerkleTreeInMemory)
    ensures batch.levels == AppendAll(d) && grown.levels == AppendAll(d)
    ensures batch.entries == grown.entries == d && batch.Valid() && grown.Valid()
  {
    hide Complete, Carry;
    grown := new MerkleTreeInMemory();
    for i := 0 to |d|
      invariant fresh(grown) && grown.Valid() && grown.entries == d[..i] && grown.levels == AppendAll(d[..i])
    {
      assert d[..i + 1][..i] == d[..i] && d[..i] + [d[i]] == d[..i + 1];
      grown.Append(d[i]);
    }
    assert d[..|d|] == d;
    batch := new MerkleTreeInMemory.FromEntries(d);
    CompleteUnique(batch.levels, grown.levels, d);
  }
}
