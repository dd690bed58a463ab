/** The 4-bit transition table (mkhufftbl.py) and its meaning: running the table over nibbles
    does what walking the trie bit by bit does. */
module HuffmanTable {
  import opened Bits
  import opened Options
  import opened HuffmanSpec

  // ---------- the table ----------

  // Where a nibble leads, and the symbol it completes. No target means failure.
  datatype Entry = Entry(target: Option<Tree>, sym: Option<nat>)

  function Final(node: Tree, sym: Option<nat>): Entry {
    if sym == Some(EOS) then Entry(None, None) else Entry(Some(node), sym)
  }

  // A leaf passes its symbol on; the symbol seen so far stays otherwise.
  function NextSym(c: Tree, sym: Option<nat>): Option<nat> {
    if IsLeaf(c) then c.term else sym
  }

  // From a leaf the walk goes on at the root.
  function Base(node: Tree, root: Tree): Tree {
    if IsLeaf(node) then root else node
  }

  // The walk `left` bits deep can be made: both children exist all the way, and no path meets
  // a second symbol.
  predicate Walkable(node: Tree, sym: Option<nat>, root: Tree, left: nat)
    decreases left
  {
    node.Node? && (left > 0 ==>
      var n := Base(node, root);
      n.Node? && n.left.Node? && n.right.Node? &&
      (IsLeaf(n.left) || IsLeaf(n.right) ==> sym == None) &&
      Walkable(n.left, NextSym(n.left, sym), root, left - 1) &&
      Walkable(n.right, NextSym(n.right, sym), root, left - 1))
  }

  function Traverse(node: Tree, sym: Option<nat>, root: Tree, left: nat): (r: seq<Entry>)
    requires Walkable(node, sym, root, left)
    ensures |r| == Pow2(left)
    decreases left
  {
    if left == 0 then [Final(node, sym)]
    else
      var n := Base(node, root);
      Traverse(n.left, NextSym(n.left, sym), root, left - 1) +
      Traverse(n.right, NextSym(n.right, sym), root, left - 1)
  }

  datatype Cell = Cell(id: nat, flags: nat, out: nat)

  const FAIL_CELL := Cell(FAIL_ID, 0, 0)

  function CellOf(e: Entry): Cell {
    var symFlag := if e.sym.Some? then SYM else 0;
    var out := if e.sym.Some? then e.sym.value else 0;
    if e.target.None? then Cell(FAIL_ID, symFlag, out)
    else if !e.target.value.Node? || e.target.value.id.None? then Cell(0, symFlag + ACCEPTED, out)
    else Cell(e.target.value.id.value, symFlag + (if e.target.value.accept then ACCEPTED else 0), out)
  }

  function Cells(es: seq<Entry>): (r: seq<Cell>)
    ensures |r| == |es|
  {
    seq(|es|, i requires 0 <= i < |es| => CellOf(es[i]))
  }

  // ---------- deep tries can be walked four bits from any inner node ----------

  // Before any symbol: the node is inner, or it is a leaf and its symbol counts.
  lemma {:induction false} WalkableAfter(node: Tree, sym: Option<nat>, root: Tree, left: nat)
    requires Deep(node, left)
    ensures Walkable(node, sym, root, left)
    decreases left
  {
    if left > 0 {
      WalkableAfter(node.left, sym, root, left - 1);
      WalkableAfter(node.right, sym, root, left - 1);
    }
  }

  lemma {:induction false} DeepLess(t: Tree, j: nat, k: nat)
    requires Deep(t, k) && j <= k
    ensures Deep(t, j)
  {
    if j > 0 {
      DeepLess(t.left, j - 1, k - 1);
      DeepLess(t.right, j - 1, k - 1);
    }
  }

  lemma {:induction false} WalkableFrom(node: Tree, root: Tree, left: nat)
    requires Full(node) && Deep(root, 3) && IsInner(node) && left <= 4
    ensures Walkable(node, None, root, left)
    decreases left
  {
    if left > 0 {
      WalkableChild(node.left, root, left - 1);
      WalkableChild(node.right, root, left - 1);
    }
  }

  lemma {:induction false} WalkableChild(c: Tree, root: Tree, left: nat)
    requires Full(c) && Deep(root, 3) && left <= 3
    ensures Walkable(c, NextSym(c, None), root, left)
    decreases left
  {
    if IsLeaf(c) {
      if left > 0 {
        DeepLess(root, left, 3);
        WalkableAfter(root.left, c.term, root, left - 1);
        WalkableAfter(root.right, c.term, root, left - 1);
      }
    } else if left > 0 {
      WalkableChild(c.left, root, left - 1);
      WalkableChild(c.right, root, left - 1);
    }
  }

  // ---------- one nibble ----------

  // Following given bits instead of all of them.
  function Follow(node: Tree, sym: Option<nat>, root: Tree, bits: BitString): Entry
    requires Walkable(node, sym, root, |bits|)
    decreases |bits|
  {
    if bits == [] then Final(node, sym)
    else
      var c := Child(Base(node, root), bits[0]);
      Follow(c, NextSym(c, sym), root, bits[1..])
  }

  // The number a bit string writes, most significant bit first.
  function Value(bits: BitString): nat
    decreases |bits|
  {
    if bits == [] then 0 else (if bits[0] then Pow2(|bits| - 1) else 0) + Value(bits[1..])
  }

  lemma {:induction false} TraverseAt(node: Tree, sym: Option<nat>, root: Tree, bits: BitString)
    requires Walkable(node, sym, root, |bits|)
    ensures Value(bits) < Pow2(|bits|)
    ensures Traverse(node, sym, root, |bits|)[Value(bits)] == Follow(node, sym, root, bits)
    decreases |bits|
  {
    hide NextSym, Base;
    if bits != [] {
      var c := Child(Base(node, root), bits[0]);
      TraverseAt(c, NextSym(c, sym), root, bits[1..]);
    }
  }

  // ---------- decoding bit by bit ----------

  // Dead after EOS; otherwise the bits read since the last symbol.
  datatype BitState = Dead | Live(pending: BitString)

  function BitRun(root: Tree, st: BitState, bits: BitString): (BitState, seq<nat>)
    decreases |bits|
  {
    if st.Dead? || bits == [] then (st, [])
    else
      var w := st.pending + [bits[0]];
      match TermAt(root, w)
      case None => BitRun(root, Live(w), bits[1..])
      case Some(s) =>
        if s == EOS then (Dead, [])
        else
          var (st', out) := BitRun(root, Live([]), bits[1..]);
          (st', [s] + out)
  }

  lemma {:induction false} BitRunSplit(root: Tree, st: BitState, a: BitString, b: BitString)
    ensures var (st1, out1) := BitRun(root, st, a);
            var (st2, out2) := BitRun(root, st1, b);
            BitRun(root, st, a + b) == (st2, out1 + out2)
    decreases |a|
  {
    if st.Dead? {
    } else if a == [] {
      assert a + b == b;
      assert [] + BitRun(root, st, b).1 == BitRun(root, st, b).1;
    } else {
      assert (a + b)[1..] == a[1..] + b;
      var w := st.pending + [a[0]];
      match TermAt(root, w)
      case None => BitRunSplit(root, Live(w), a[1..], b);
      case Some(s) =>
        if s != EOS {
          BitRunSplit(root, Live([]), a[1..], b);
          var (st1, out1) := BitRun(root, Live([]), a[1..]);
          var (st2, out2) := BitRun(root, st1, b);
          assert [s] + (out1 + out2) == ([s] + out1) + out2;
        } else {
          var none: seq<nat> := [];
          assert none + none == none;
        }
    }
  }

  lemma {:induction false} AtExtend(t: Tree, w: BitString, b: bool)
    ensures At(t, w).Node? ==> At(t, w + [b]) == Child(At(t, w), b)
    decreases |w|
  {
    if w == [] {
      assert w + [b] == [b];
    } else if t.Node? {
      AtExtend(Child(t, w[0]), w[1..], b);
      assert (w + [b])[1..] == w[1..] + [b];
    }
  }

  // The symbols a table entry emits.
  function Emitted(sym: Option<nat>): seq<nat> {
    if sym.Some? then [sym.value] else []
  }

  // An entry says what the bitwise decoder did: dead, or at the node of the pending bits.
  predicate Agrees(root: Tree, e: Entry, st: BitState, out: seq<nat>) {
    match st
    case Dead => e == Entry(None, None) && out == []
    case Live(w) =>
      && e.target.Some? && e.target.value.Node? && out == Emitted(e.sym)
      && IsInner(At(root, w)) && Base(e.target.value, root) == At(root, w)
      && (IsLeaf(e.target.value) ==> w == [] && e.target.value.id == None)
  }

  // Leaves have no number, and the accepting nodes are the short all-ones prefixes.
  ghost predicate Marked(root: Tree) {
    forall w: BitString ::
      && (IsLeaf(At(root, w)) ==> At(root, w).id == None)
      && (IsInner(At(root, w)) ==> (At(root, w).accept <==> Accepting(w)))
  }

  // Once a symbol is complete, the other bits of the nibble complete no second one.
  lemma {:induction false} QuietWalk(root: Tree, n: Tree, s: nat, pending: BitString, bits: BitString)
    requires Base(n, root) == At(root, pending) && Deep(At(root, pending), |bits|)
    requires Walkable(n, Some(s), root, |bits|)
    ensures BitRun(root, Live(pending), bits) == (Live(pending + bits), [])
    ensures Follow(n, Some(s), root, bits) == Final(if bits == [] then n else At(root, pending + bits), Some(s))
    ensures IsInner(At(root, pending + bits))
    decreases |bits|
  {
    if bits == [] {
      assert pending + bits == pending;
    } else {
      var w := pending + [bits[0]];
      AtExtend(root, pending, bits[0]);
      QuietWalk(root, At(root, w), s, w, bits[1..]);
      assert w + bits[1..] == pending + bits;
      if bits[1..] == [] { assert w == pending + bits; }
    }
  }

  lemma {:induction false} NibbleAgrees(root: Tree, pending: BitString, bits: BitString)
    requires Full(root) && Deep(root, 3) && |bits| <= 4
    requires IsInner(At(root, pending)) && Full(At(root, pending)) && Marked(root)
    ensures Walkable(At(root, pending), None, root, |bits|)
    ensures var (st, out) := BitRun(root, Live(pending), bits);
            Agrees(root, Follow(At(root, pending), None, root, bits), st, out)
    decreases |bits|
  {
    var n := At(root, pending);
    WalkableFrom(n, root, |bits|);
    if bits != [] {
      var w, r := pending + [bits[0]], bits[1..];
      AtExtend(root, pending, bits[0]);
      var c := At(root, w);
      if IsLeaf(c) {
        var s := c.term.value;
        DeepLess(root, |r|, 3);
        QuietWalk(root, c, s, [], r);
        assert [] + r == r;
        assert [s] + [] == [s];
      } else {
        NibbleAgrees(root, w, r);
      }
    }
  }

  // ---------- runs ----------

  type Table = seq<seq<Cell>>

  type Nibble = n: nat | n < 16

  function NibbleBits(n: Nibble): BitString {
    [n / 8 % 2 == 1, n / 4 % 2 == 1, n / 2 % 2 == 1, n % 2 == 1]
  }

  function AllBits(ns: seq<Nibble>): BitString {
    if ns == [] then [] else NibbleBits(ns[0]) + AllBits(ns[1..])
  }

  lemma NibbleValue(n: Nibble)
    ensures Value(NibbleBits(n)) == n
  {
    var b := NibbleBits(n);
    assert b[1..][1..] == [b[2], b[3]] && b[1..][1..][1..] == [b[3]] && b[1..][1..][1..][1..] == [];
    assert Value([b[3]]) == n % 2;
    assert Value([b[2], b[3]]) == n % 4;
    assert Value(b[1..]) == n % 8;
  }

  // Row `id` for every inner node in order, then the row of the failure state.
  function TableOf(root: Tree): (t: Table)
    requires forall i | 0 <= i < Inners(root) :: Walkable(Preorder(root)[i], None, root, 4)
    ensures |t| == Inners(root) + 1
  {
    seq(Inners(root), i requires 0 <= i < Inners(root) => Cells(Traverse(Preorder(root)[i], None, root, 4)))
    + [seq(16, i => FAIL_CELL)]
  }

  // The state after a run: row, whether it may end here, and the symbols emitted.
  datatype Outcome = Outcome(id: nat, accepted: bool, out: seq<nat>)

  predicate WellFormed(table: Table) {
    forall i | 0 <= i < |table| :: |table[i]| == 16 && forall j | 0 <= j < 16 :: table[i][j].id < |table|
  }

  function TableRun(table: Table, id: nat, accepted: bool, ns: seq<Nibble>): Outcome
    requires WellFormed(table) && id < |table|
    decreases |ns|
  {
    if ns == [] then Outcome(id, accepted, [])
    else
      var c := table[id][ns[0]];
      var rest := TableRun(table, c.id, c.flags % 2 == ACCEPTED, ns[1..]);
      rest.(out := (if c.flags >= SYM then [c.out] else []) + rest.out)
  }

  // ---------- the table decodes like the trie ----------

  // A numbered trie for 257 symbols, none of them at depth three or less.
  ghost predicate Compiled(root: Tree) {
    && Full(root) && Deep(root, 3) && Inners(root) == FAIL_ID && Marked(root)
    && forall k | 0 <= k < Inners(root) :: Preorder(root)[k].Node? && Preorder(root)[k].id == Some(k)
  }

  // What the generator makes of a code: distinct words, a full trie over 257 symbols, and no
  // word shorter than four bits.
  ghost predicate GoodCode(codes: Code) {
    DistinctWords(codes) && Full(Build(codes)) && Leaves(Build(codes)) == 257 && Deep(Build(codes), 3)
  }

  function RootOf(codes: Code): Tree {
    Number(Build(codes), [], 0)
  }

  lemma RootCompiled(codes: Code)
    requires GoodCode(codes)
    ensures Compiled(RootOf(codes))
  {
    var t := Build(codes);
    var root := RootOf(codes);
    BuildUnmarked(codes);
    InnersOfFull(t);
    NumberKeeps(t, [], 0, 3);
    forall k | 0 <= k < Inners(root)
      ensures Preorder(root)[k].Node? && Preorder(root)[k].id == Some(k)
    {
      NumberPreorder(t, [], 0, k);
    }
    forall w: BitString
      ensures IsLeaf(At(root, w)) ==> At(root, w).id == None
      ensures IsInner(At(root, w)) ==> (At(root, w).accept <==> Accepting(w))
    {
      NumberAt(t, [], 0, w);
      assert [] + w == w;
    }
  }

  // Every inner node is full, so its row exists.
  lemma {:induction false} PreorderInner(t: Tree, k: nat)
    requires Full(t) && k < Inners(t)
    ensures IsInner(Preorder(t)[k]) && Full(Preorder(t)[k])
    decreases t
  {
    PreorderParts(t, k);
    if 0 < k <= Inners(t.left) {
      PreorderInner(t.left, k - 1);
    } else if k > 0 {
      PreorderInner(t.right, k - 1 - Inners(t.left));
    }
  }

  lemma RowsExist(root: Tree)
    requires Full(root) && Deep(root, 3)
    ensures forall i | 0 <= i < Inners(root) :: Walkable(Preorder(root)[i], None, root, 4)
  {
    forall i | 0 <= i < Inners(root)
      ensures Walkable(Preorder(root)[i], None, root, 4)
    {
      PreorderInner(root, i);
      WalkableFrom(Preorder(root)[i], root, 4);
    }
  }

  function CompiledTable(root: Tree): (t: Table)
    requires Full(root) && Deep(root, 3)
    ensures |t| == Inners(root) + 1
  {
    RowsExist(root);
    TableOf(root)
  }

  // The table the generator makes of a code.
  function TableFor(codes: Code): Table
    requires GoodCode(codes)
  {
    RootCompiled(codes);
    CompiledTable(RootOf(codes))
  }

  // Equal numbers mean equal nodes, and the row of a node carries its number.
  lemma RowOf(root: Tree, w: BitString) returns (q: Tree, k: nat)
    requires Compiled(root) && IsInner(At(root, w))
    ensures q == At(root, w) && q.Node? && q.id == Some(k) && k < FAIL_ID
    ensures Full(q) && Walkable(q, None, root, 4)
    ensures CompiledTable(root)[k] == Cells(Traverse(q, None, root, 4))
  {
    hide At, Preorder, Walkable, Traverse, Full, Deep, Marked, Inners;
    q := At(root, w);
    AtInPreorder(root, w);
    k :| 0 <= k < Inners(root) && Preorder(root)[k] == q;
    RowsExist(root);
    PreorderInner(root, k);
  }

  // A cell says what the bitwise decoder did over the nibble.
  ghost predicate CellAgrees(root: Tree, c: Cell, st: BitState, out: seq<nat>) {
    match st
    case Dead => c == FAIL_CELL && out == []
    case Live(w) =>
      && IsInner(At(root, w)) && At(root, w).id == Some(c.id)
      && (c.flags % 2 == ACCEPTED <==> Accepting(w))
      && out == (if c.flags >= SYM then [c.out] else [])
  }

  lemma CellOfEntry(root: Tree, e: Entry, st: BitState, out: seq<nat>)
    requires Compiled(root) && Agrees(root, e, st, out)
    ensures CellAgrees(root, CellOf(e), st, out)
  {
    hide Compiled, At;
    if st.Live? {
      if IsLeaf(e.target.value) {
        RootFirst(root);
      } else {
        MarkedAt(root, st.pending);
      }
    }
  }

  lemma MarkedAt(root: Tree, w: BitString)
    requires Compiled(root) && IsInner(At(root, w))
    ensures At(root, w).id.Some? && (At(root, w).accept <==> Accepting(w))
  {
    hide Full, Deep, Preorder, Inners, Accepting;
    var _, k := RowOf(root, w);
  }

  lemma RootFirst(root: Tree)
    requires Compiled(root)
    ensures At(root, []) == root && root.Node? && root.id == Some(0) && root.accept
  {
    hide Full;
    assert root == At(root, []);
    assert Preorder(root)[0] == root;
  }

  lemma NibbleStep(root: Tree, w: BitString, n: Nibble)
    requires Compiled(root) && IsInner(At(root, w))
    ensures At(root, w).id.Some? && At(root, w).id.value < FAIL_ID
    ensures var row := CompiledTable(root)[At(root, w).id.value];
            var (st, out) := BitRun(root, Live(w), NibbleBits(n));
            |row| == 16 && CellAgrees(root, row[n], st, out)
  {
    hide BitRun, Traverse, Follow, Walkable, CompiledTable, Full, Deep, At, Preorder, CellOf;
    var q, k := RowOf(root, w);
    var bits := NibbleBits(n);
    NibbleValue(n);
    TraverseAt(q, None, root, bits);
    NibbleAgrees(root, w, bits);
    var (st, out) := BitRun(root, Live(w), bits);
    CellOfEntry(root, Follow(q, None, root, bits), st, out);
    assert Pow2(4) == 16;
  }

  // Every transition leads to a row of the table.
  lemma TableWellFormed(root: Tree)
    requires Compiled(root)
    ensures WellFormed(CompiledTable(root))
  {
    var table: Table := CompiledTable(root);
    forall i | 0 <= i < |table|
      ensures |table[i]| == 16 && forall j | 0 <= j < 16 :: table[i][j].id < |table|
    {
      if i < FAIL_ID { RowWellFormed(root, i); }
    }
  }

  lemma RowWellFormed(root: Tree, i: nat)
    requires Compiled(root) && i < FAIL_ID
    ensures var row := CompiledTable(root)[i];
            |row| == 16 && forall j | 0 <= j < 16 :: row[j].id <= FAIL_ID
  {
    hide BitRun, CompiledTable, At;
    var w := PathTo(root, i);
    var row: seq<Cell> := CompiledTable(root)[i];
    forall n: nat | 0 <= n < 16
      ensures |row| == 16 && row[n].id <= FAIL_ID
    {
      NibbleStep(root, w, n);
      var (st, _) := BitRun(root, Live(w), NibbleBits(n));
      if st.Live? { var _, _ := RowOf(root, st.pending); }
    }
    NibbleStep(root, w, 0);
  }

  // Every number belongs to some path.
  lemma {:induction false} PreorderPath(t: Tree, k: nat) returns (w: BitString)
    requires k < Inners(t)
    ensures At(t, w) == Preorder(t)[k]
    decreases t
  {
    hide Preorder;
    PreorderParts(t, k);
    if k == 0 {
      w := [];
    } else if k <= Inners(t.left) {
      var v := PreorderPath(t.left, k - 1);
      w := [false] + v;
      assert w[1..] == v;
    } else {
      var v := PreorderPath(t.right, k - 1 - Inners(t.left));
      w := [true] + v;
      assert w[1..] == v;
    }
  }

  lemma PathTo(root: Tree, k: nat) returns (w: BitString)
    requires Compiled(root) && k < FAIL_ID
    ensures IsInner(At(root, w)) && At(root, w).id == Some(k)
  {
    w := PreorderPath(root, k);
    PreorderInner(root, k);
  }

  // How a state of the table stands for a state of the bitwise decoder.
  ghost predicate Represents(root: Tree, id: nat, accepted: bool, st: BitState) {
    match st
    case Dead => id == FAIL_ID && !accepted
    case Live(w) => IsInner(At(root, w)) && At(root, w).id == Some(id) && (accepted <==> Accepting(w))
  }

  // One step of a run from any state, the failure state included.
  lemma StateStep(root: Tree, id: nat, accepted: bool, st: BitState, n: Nibble)
    requires Compiled(root) && Represents(root, id, accepted, st)
    ensures WellFormed(CompiledTable(root)) && id <= FAIL_ID
    ensures var c := CompiledTable(root)[id][n];
            var (st', out) := BitRun(root, st, NibbleBits(n));
            && c.id <= FAIL_ID
            && Represents(root, c.id, c.flags % 2 == ACCEPTED, st')
            && out == (if c.flags >= SYM then [c.out] else [])
  {
    hide At, CompiledTable;
    TableWellFormed(root);
    if st.Live? {
      NibbleStep(root, st.pending, n);
    } else {
      FailRow(root, n);
    }
  }

  lemma FailRow(root: Tree, n: Nibble)
    requires Compiled(root)
    ensures CompiledTable(root)[FAIL_ID] == seq(16, i => FAIL_CELL)
    ensures CompiledTable(root)[FAIL_ID][n] == FAIL_CELL
  {
  }

  // Running the table over nibbles emits the symbols, and reaches the node, that walking the
  // trie bit by bit does.
  lemma {:induction false} TableRunAgrees(root: Tree, id: nat, accepted: bool, st: BitState, ns: seq<Nibble>)
    requires Compiled(root) && Represents(root, id, accepted, st)
    ensures WellFormed(CompiledTable(root)) && id < |CompiledTable(root)|
    ensures var r := TableRun(CompiledTable(root), id, accepted, ns);
            var (st', out) := BitRun(root, st, AllBits(ns));
            Represents(root, r.id, r.accepted, st') && r.out == out
    decreases |ns|
  {
    hide At, CompiledTable, BitRun, WellFormed, Compiled, Represents;
    InRange(root, id, accepted, st);
    if ns == [] {
      BitRunNone(root, st);
    } else {
      var c := CompiledTable(root)[id][ns[0]];
      var (st', out) := BitRun(root, st, NibbleBits(ns[0]));
      StateStep(root, id, accepted, st, ns[0]);
      TableRunAgrees(root, c.id, c.flags % 2 == ACCEPTED, st', ns[1..]);
      BitRunSplit(root, st, NibbleBits(ns[0]), AllBits(ns[1..]));
    }
  }

  lemma BitRunNone(root: Tree, st: BitState)
    ensures BitRun(root, st, []) == (st, [])
  {
  }

  lemma InRange(root: Tree, id: nat, accepted: bool, st: BitState)
    requires Compiled(root) && Represents(root, id, accepted, st)
    ensures Full(root) && Deep(root, 3)
    ensures WellFormed(CompiledTable(root)) && id < |CompiledTable(root)| == FAIL_ID + 1
    ensures |CompiledTable(root)[id]| == 16
  {
    TableWellFormed(root);
    if st.Live? { var _, _ := RowOf(root, st.pending); }
  }
}
