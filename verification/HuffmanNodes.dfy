/** The generator as mkhufftbl.py runs it: linked nodes updated in place. Each method is proved
    against the functions on values. */
module HuffmanNodes {
  import opened Options
  import opened HuffmanSpec
  import opened HuffmanTable

  class TrieNode {
    var term: Option<nat>
    var left: TrieNode?
    var right: TrieNode?
    var trans: seq<(TrieNode?, Option<nat>)>
    var id: Option<nat>
    var accept: bool
    ghost var Repr: set<TrieNode>

    constructor ()
      ensures Valid() && Repr == {this} && Abs() == EMPTY && trans == []
    {
      term, left, right, trans, id, accept := None, null, null, [], None, false;
      Repr := {this};
    }

    // The nodes form a tree, and Repr holds them all.
    ghost predicate Valid()
      reads this`left, this`right, this`Repr, Repr`left, Repr`right, Repr`Repr
      decreases Repr
    {
      this in Repr &&
      (left != null ==> left in Repr && left.Repr <= Repr - {this} && left.Valid()) &&
      (right != null ==> right in Repr && right.Repr <= Repr - {this} && right.Valid()) &&
      (left != null && right != null ==> left.Repr !! right.Repr) &&
      Repr == {this} + (if left == null then {} else left.Repr) + (if right == null then {} else right.Repr)
    }

    ghost function Abs(): (t: Tree)
      requires Valid()
      reads this`left, this`right, this`Repr, Repr`left, Repr`right, Repr`Repr
      reads this`term, this`id, this`accept, Repr`term, Repr`id, Repr`accept
      ensures t.Node?
      decreases Repr
    {
      Node(term, id, accept,
           if left == null then Nil else left.Abs(),
           if right == null then Nil else right.Abs())
    }
  }

  // No transitions recorded yet.
  ghost predicate Untouched(nodes: set<TrieNode>)
    reads nodes`trans
  {
    forall n | n in nodes :: n.trans == []
  }

  method EnsureLeft(node: TrieNode)
    requires node.Valid()
    modifies node`left, node`Repr
    ensures node.Valid() && fresh(node.Repr - old(node.Repr)) && node.left != null
    ensures var t := old(node.Abs()); t.Node? && node.Abs() == t.(left := OrEmpty(t.left))
    ensures Untouched(node.Repr - old(node.Repr))
  {
    if node.left == null {
      node.left := new TrieNode();
      node.Repr := node.Repr + node.left.Repr;
    }
  }

  method EnsureRight(node: TrieNode)
    requires node.Valid()
    modifies node`right, node`Repr
    ensures node.Valid() && fresh(node.Repr - old(node.Repr)) && node.right != null
    ensures var t := old(node.Abs()); t.Node? && node.Abs() == t.(right := OrEmpty(t.right))
    ensures Untouched(node.Repr - old(node.Repr))
  {
    if node.right == null {
      node.right := new TrieNode();
      node.Repr := node.Repr + node.right.Repr;
    }
  }

  // What Valid and Abs say of one node.
  lemma Parts(node: TrieNode)
    requires node.Valid()
    ensures node in node.Repr
    ensures node.left != null ==> node.left.Valid() && node !in node.left.Repr
    ensures node.right != null ==> node.right.Valid() && node !in node.right.Repr
    ensures node.left != null && node.right != null ==> node.left.Repr !! node.right.Repr
    ensures node.Repr == {node} + (if node.left == null then {} else node.left.Repr)
                                + (if node.right == null then {} else node.right.Repr)
    ensures node.Abs() == Node(node.term, node.id, node.accept,
                               if node.left == null then Nil else node.left.Abs(),
                               if node.right == null then Nil else node.right.Abs())
  {
  }

  // What is needed to make a node valid again after its children changed.
  ghost predicate Detached(node: TrieNode)
    reads node, node.left, node.right
    reads if node.left == null then {} else node.left.Repr
    reads if node.right == null then {} else node.right.Repr
  {
    (node.left != null ==> node.left.Valid() && node !in node.left.Repr) &&
    (node.right != null ==> node.right.Valid() && node !in node.right.Repr) &&
    (node.left != null && node.right != null ==> node.left.Repr !! node.right.Repr)
  }

  ghost method Close(node: TrieNode)
    requires Detached(node)
    modifies node`Repr
    ensures node.Valid()
    ensures node.Repr == {node} + old(if node.left == null then {} else node.left.Repr)
                                + old(if node.right == null then {} else node.right.Repr)
    ensures node.Abs() == Node(node.term, node.id, node.accept,
                               old(if node.left == null then Nil else node.left.Abs()),
                               old(if node.right == null then Nil else node.right.Abs()))
  {
    node.Repr := {node} + (if node.left == null then {} else node.left.Repr)
                        + (if node.right == null then {} else node.right.Repr);
  }

  lemma AddStep(t: Tree, sym: nat, bits: BitString)
    requires t.Node?
    ensures Add(t, sym, bits) ==
            if bits == [] then t.(term := Some(sym))
            else if !bits[0] then t.(left := Add(OrEmpty(t.left), sym, bits[1..]))
            else t.(right := Add(OrEmpty(t.right), sym, bits[1..]))
  {
  }

  method Insert(node: TrieNode, sym: nat, bits: BitString)
    requires node.Valid()
    modifies node.Repr`term, node.Repr`left, node.Repr`right, node.Repr`Repr
    ensures node.Valid() && fresh(node.Repr - old(node.Repr))
    ensures node.Abs() == Add(old(node.Abs()), sym, bits)
    ensures Untouched(node.Repr - old(node.Repr))
    decreases |bits|, 1
  {
    hide Add, TrieNode.Valid, TrieNode.Abs;
    AbsTerm(node);
    AddStep(node.Abs(), sym, bits);
    if |bits| == 0 {
      Parts(node);
      node.term := Some(sym);
      Parts(node);
    } else if !bits[0] {
      EnsureLeft(node);
      InsertLeft(node, sym, bits[1..]);
    } else {
      EnsureRight(node);
      InsertRight(node, sym, bits[1..]);
    }
  }

  method InsertLeft(node: TrieNode, sym: nat, bits: BitString)
    requires node.Valid() && node.left != null
    modifies node.Repr`term, node.Repr`left, node.Repr`right, node.Repr`Repr
    ensures node.Valid() && fresh(node.Repr - old(node.Repr))
    ensures var t := old(node.Abs()); t.left.Node? && node.Abs() == t.(left := Add(t.left, sym, bits))
    ensures Untouched(node.Repr - old(node.Repr))
    decreases |bits|, 2
  {
    hide Add, TrieNode.Valid, TrieNode.Abs;
    Parts(node);
    Insert(node.left, sym, bits);
    Close(node);
  }

  method InsertRight(node: TrieNode, sym: nat, bits: BitString)
    requires node.Valid() && node.right != null
    modifies node.Repr`term, node.Repr`left, node.Repr`right, node.Repr`Repr
    ensures node.Valid() && fresh(node.Repr - old(node.Repr))
    ensures var t := old(node.Abs()); t.right.Node? && node.Abs() == t.(right := Add(t.right, sym, bits))
    ensures Untouched(node.Repr - old(node.Repr))
    decreases |bits|, 2
  {
    hide Add, TrieNode.Valid, TrieNode.Abs;
    Parts(node);
    Insert(node.right, sym, bits);
    Close(node);
  }

  class Context {
    var nextId: nat
    var root: TrieNode

    constructor ()
      ensures nextId == 0 && fresh(root) && root.Valid() && fresh(root.Repr)
      ensures root.Abs() == EMPTY && Untouched(root.Repr)
    {
      nextId := 0;
      root := new TrieNode();
    }
  }

  lemma FullChildren(node: TrieNode)
    requires node.Valid() && Full(node.Abs()) && node.term.None?
    ensures node.left != null && node.right != null && node.left.Valid() && node.right.Valid()
    ensures node !in node.left.Repr && node !in node.right.Repr && node.left.Repr !! node.right.Repr
    ensures node.left.Repr < node.Repr && node.right.Repr < node.Repr
    ensures Full(node.left.Abs()) && Full(node.right.Abs())
    ensures node.Abs() == Node(None, node.id, node.accept, node.left.Abs(), node.right.Abs())
  {
  }

  lemma AbsTerm(node: TrieNode)
    requires node.Valid()
    ensures node.Abs().term == node.term && node.Abs().accept == node.accept
    ensures node in node.Repr
  {
  }

  lemma NumberLeaf(t: Tree, prefix: BitString, next: nat)
    requires IsLeaf(t)
    ensures Inners(t) == 0 && Number(t, prefix, next) == t
  {
  }

  method SetNodeId(ctx: Context, node: TrieNode, prefix: BitString)
    requires node.Valid() && Full(node.Abs())
    modifies ctx`nextId, node.Repr`id, node.Repr`accept
    ensures node.Valid() && node.Abs() == Number(old(node.Abs()), prefix, old(ctx.nextId))
    ensures ctx.nextId == old(ctx.nextId) + Inners(old(node.Abs()))
    decreases node.Repr, 1
  {
    hide Full, Number, Inners, TrieNode.Abs, TrieNode.Valid;
    AbsTerm(node);
    ghost var t := node.Abs();
    if node.term.Some? {
      NumberLeaf(t, prefix, ctx.nextId);
      return;
    }
    FullChildren(node);
    NumberInner(t, prefix, ctx.nextId);
    MarkNode(ctx, node, prefix);
    NumberLeft(ctx, node, prefix + [false]);
    NumberRight(ctx, node, prefix + [true]);
  }

  method MarkNode(ctx: Context, node: TrieNode, prefix: BitString)
    requires node.Valid()
    modifies ctx`nextId, node`id, node`accept
    ensures node.Valid() && ctx.nextId == old(ctx.nextId) + 1
    ensures var t := old(node.Abs());
            node.Abs() == Node(t.term, Some(old(ctx.nextId)), t.accept || Accepting(prefix), t.left, t.right)
  {
    hide TrieNode.Valid, TrieNode.Abs;
    AbsTerm(node);
    if |prefix| <= 7 && AllOnes(prefix) {
      SetMarks(node, node.id, true);
    }
    AbsTerm(node);
    SetMarks(node, Some(ctx.nextId), node.accept);
    ctx.nextId := ctx.nextId + 1;
  }

  method SetMarks(node: TrieNode, id: Option<nat>, accept: bool)
    requires node.Valid()
    modifies node`id, node`accept
    ensures node.Valid()
    ensures var t := old(node.Abs()); t.Node? && node.Abs() == t.(id := id, accept := accept)
  {
    hide TrieNode.Valid, TrieNode.Abs;
    Parts(node);
    node.id, node.accept := id, accept;
    Parts(node);
  }

  method NumberLeft(ctx: Context, node: TrieNode, prefix: BitString)
    requires node.Valid() && node.left != null && Full(node.Abs().left)
    modifies ctx`nextId, node.left.Repr`id, node.left.Repr`accept
    ensures node.Valid() && ctx.nextId == old(ctx.nextId) + Inners(old(node.Abs().left))
    ensures node.Abs() == old(node.Abs()).(left := Number(old(node.Abs().left), prefix, old(ctx.nextId)))
    decreases node.Repr, 0
  {
    hide Number, Inners, Full, TrieNode.Valid, TrieNode.Abs;
    Parts(node);
    SetNodeId(ctx, node.left, prefix);
    Parts(node);
  }

  method NumberRight(ctx: Context, node: TrieNode, prefix: BitString)
    requires node.Valid() && node.right != null && Full(node.Abs().right)
    modifies ctx`nextId, node.right.Repr`id, node.right.Repr`accept
    ensures node.Valid() && ctx.nextId == old(ctx.nextId) + Inners(old(node.Abs().right))
    ensures node.Abs() == old(node.Abs()).(right := Number(old(node.Abs().right), prefix, old(ctx.nextId)))
    decreases node.Repr, 0
  {
    hide Number, Inners, Full, TrieNode.Valid, TrieNode.Abs;
    Parts(node);
    SetNodeId(ctx, node.right, prefix);
    Parts(node);
  }

  type Transition = (TrieNode?, Option<nat>)

  // A recorded transition stands for an entry of the table on values.
  ghost predicate Stands(t: Transition, e: Entry)
    reads *
  {
    && t.1 == e.sym
    && (t.0 == null ==> e.target == None)
    && (t.0 != null ==> t.0.Valid() && e.target == Some(t.0.Abs()))
  }

  ghost predicate AllStand(ts: seq<Transition>, es: seq<Entry>)
    reads *
  {
    |ts| == |es| && forall i | 0 <= i < |ts| :: Stands(ts[i], es[i])
  }

  // Where the walk goes on from a node.
  lemma BaseChildren(node: TrieNode, sym: Option<nat>, root: TrieNode, left: nat)
    requires node.Valid() && root.Valid() && left > 0 && Walkable(node.Abs(), sym, root.Abs(), left)
    ensures var n := if node.term.Some? then root else node;
            var t := Base(node.Abs(), root.Abs());
            && n.left != null && n.right != null && n.left.Valid() && n.right.Valid()
            && t.Node? && t.left == n.left.Abs() && t.right == n.right.Abs()
            && (IsLeaf(t.left) || IsLeaf(t.right) ==> sym == None)
            && Walkable(t.left, NextSym(t.left, sym), root.Abs(), left - 1)
            && Walkable(t.right, NextSym(t.right, sym), root.Abs(), left - 1)
            && Traverse(node.Abs(), sym, root.Abs(), left) ==
               Traverse(t.left, NextSym(t.left, sym), root.Abs(), left - 1) +
               Traverse(t.right, NextSym(t.right, sym), root.Abs(), left - 1)
  {
  }

  lemma RecordedEntry(node: Tree, sym: Option<nat>, root: Tree)
    requires Walkable(node, sym, root, 0)
    ensures Traverse(node, sym, root, 0) ==
            [if sym == Some(EOS) then Entry(None, None) else Entry(Some(node), sym)]
  {
  }

  // `es` is what start.trans stands for already.
  method Record(node: TrieNode, sym: Option<nat>, start: TrieNode, root: TrieNode, ghost es: seq<Entry>)
    requires node.Valid() && root.Valid() && Walkable(node.Abs(), sym, root.Abs(), 0)
    requires AllStand(start.trans, es)
    modifies start`trans
    ensures AllStand(start.trans, es + Traverse(node.Abs(), sym, root.Abs(), 0))
  {
    hide Traverse, Walkable, TrieNode.Abs, TrieNode.Valid;
    RecordedEntry(node.Abs(), sym, root.Abs());
    if sym == Some(EOS) {
      start.trans := start.trans + [(null, None)];
    } else {
      start.trans := start.trans + [(node, sym)];
    }
  }

  lemma EntriesAssoc(a: seq<Entry>, b: seq<Entry>, c: seq<Entry>)
    ensures a + (b + c) == (a + b) + c
  {
  }

  method TraverseFrom(node: TrieNode, sym: Option<nat>, start: TrieNode, root: TrieNode, left: nat,
                      ghost es: seq<Entry>)
    requires node.Valid() && root.Valid() && Walkable(node.Abs(), sym, root.Abs(), left)
    requires AllStand(start.trans, es)
    modifies start`trans
    ensures AllStand(start.trans, es + Traverse(node.Abs(), sym, root.Abs(), left))
    decreases left, 1
  {
    hide Traverse, Walkable, TrieNode.Abs, TrieNode.Valid, AllStand, Base, NextSym, Stands;
    if left == 0 {
      Record(node, sym, start, root, es);
      return;
    }
    BaseChildren(node, sym, root, left);
    var n := if node.term.Some? then root else node;
    GoBoth(n.left, n.right, sym, start, root, left - 1, es, n.left.Abs(), n.right.Abs(), root.Abs());
  }

  method GoBoth(left: TrieNode, right: TrieNode, sym: Option<nat>, start: TrieNode, root: TrieNode, steps: nat,
                ghost es: seq<Entry>, ghost l: Tree, ghost r: Tree, ghost top: Tree)
    requires left.Valid() && right.Valid() && root.Valid()
    requires l == left.Abs() && r == right.Abs() && top == root.Abs() && (IsLeaf(l) || IsLeaf(r) ==> sym == None)
    requires Walkable(l, NextSym(l, sym), top, steps) && Walkable(r, NextSym(r, sym), top, steps)
    requires AllStand(start.trans, es)
    modifies start`trans
    ensures AllStand(start.trans,
                     es + (Traverse(l, NextSym(l, sym), top, steps) + Traverse(r, NextSym(r, sym), top, steps)))
    decreases steps, 3
  {
    hide Traverse, Walkable, TrieNode.Abs, TrieNode.Valid, AllStand, NextSym;
    ghost var es0 := Traverse(l, NextSym(l, sym), top, steps);
    EntriesAssoc(es, es0, Traverse(r, NextSym(r, sym), top, steps));
    Go(left, sym, start, root, steps, es);
    Go(right, sym, start, root, steps, es + es0);
  }

  method Go(node: TrieNode, sym: Option<nat>, start: TrieNode, root: TrieNode, left: nat, ghost es: seq<Entry>)
    requires node.Valid() && root.Valid() && (IsLeaf(node.Abs()) ==> sym == None)
    requires Walkable(node.Abs(), NextSym(node.Abs(), sym), root.Abs(), left)
    requires AllStand(start.trans, es)
    modifies start`trans
    ensures AllStand(start.trans, es + Traverse(node.Abs(), NextSym(node.Abs(), sym), root.Abs(), left))
    decreases left, 2
  {
    hide Traverse, Walkable, TrieNode.Abs, TrieNode.Valid, AllStand;
    AbsTerm(node);
    var nsym := sym;
    if node.term.Some? {
      assert sym == None;
      nsym := node.term;
    }
    TraverseFrom(node, nsym, start, root, left, es);
  }

  // Every node of the subtree has its sixteen transitions.
  ghost predicate Filled(nodes: set<TrieNode>, root: TrieNode)
    reads *
  {
    root.Valid() &&
    forall n | n in nodes ::
      n.Valid() && Walkable(n.Abs(), None, root.Abs(), 4) &&
      AllStand(n.trans, Traverse(n.Abs(), None, root.Abs(), 4))
  }

  lemma WalkableAny(t: Tree, root: Tree)
    requires Full(t) && Full(root) && Deep(root, 3)
    ensures Walkable(t, None, root, 4)
  {
    WalkableFrom(root, root, 4);
    if IsInner(t) { WalkableFrom(t, root, 4); }
  }

  lemma ChildrenOf(node: TrieNode)
    requires node.Valid() && Full(node.Abs())
    ensures node in node.Repr
    ensures node.left != null ==>
              node.left.Valid() && Full(node.left.Abs()) && node.left.Repr < node.Repr && node !in node.left.Repr
    ensures node.right != null ==>
              node.right.Valid() && Full(node.right.Abs()) && node.right.Repr < node.Repr && node !in node.right.Repr
    ensures node.left != null && node.right != null ==> node.left.Repr !! node.right.Repr
    ensures node.Repr == {node} + (if node.left == null then {} else node.left.Repr)
                                + (if node.right == null then {} else node.right.Repr)
  {
  }

  method FillRow(node: TrieNode, root: TrieNode, ghost done: set<TrieNode>)
    requires root.Valid() && node.Valid() && Walkable(node.Abs(), None, root.Abs(), 4)
    requires node.trans == [] && node !in done && Filled(done, root)
    modifies node`trans
    ensures Filled(done + {node}, root)
  {
    hide Traverse, Walkable, TrieNode.Abs, TrieNode.Valid;
    TraverseFrom(node, None, node, root, 4, []);
    assert [] + Traverse(node.Abs(), None, root.Abs(), 4) == Traverse(node.Abs(), None, root.Abs(), 4);
  }

  // `done` holds the nodes whose rows exist already.
  method BuildTransitionTable(node: TrieNode, root: TrieNode, ghost done: set<TrieNode>)
    requires root.Valid() && Full(root.Abs()) && Deep(root.Abs(), 3)
    requires node.Valid() && Full(node.Abs())
    requires Untouched(node.Repr) && Filled(done, root) && done !! node.Repr
    modifies node.Repr`trans
    ensures Filled(done + node.Repr, root)
    decreases node.Repr, 1
  {
    hide Traverse, Walkable, TrieNode.Abs, TrieNode.Valid, Full, Deep, Filled;
    ChildrenOf(node);
    WalkableAny(node.Abs(), root.Abs());
    FillRow(node, root, done);
    BuildChildren(node, root, done + {node});
    assert done + {node} + (node.Repr - {node}) == done + node.Repr;
  }

  method BuildChildren(node: TrieNode, root: TrieNode, ghost done: set<TrieNode>)
    requires root.Valid() && Full(root.Abs()) && Deep(root.Abs(), 3)
    requires node.Valid() && Full(node.Abs())
    requires Untouched(node.Repr - {node}) && Filled(done, root) && done !! node.Repr - {node}
    modifies (node.Repr - {node})`trans
    ensures Filled(done + (node.Repr - {node}), root)
    decreases node.Repr, 0, 1
  {
    hide TrieNode.Abs, TrieNode.Valid, Full, Deep, Filled;
    ChildrenOf(node);
    BuildChild(node.left, root, done, node.Repr);
    BuildChild(node.right, root, done + Nodes(node.left), node.Repr);
    assert done + Nodes(node.left) + Nodes(node.right) == done + (node.Repr - {node});
  }

  ghost function Nodes(node: TrieNode?): set<TrieNode>
    reads node
  {
    if node == null then {} else node.Repr
  }

  method BuildChild(child: TrieNode?, root: TrieNode, ghost done: set<TrieNode>, ghost bound: set<TrieNode>)
    requires root.Valid() && Full(root.Abs()) && Deep(root.Abs(), 3)
    requires child != null ==> child.Valid() && Full(child.Abs()) && child.Repr < bound
    requires Untouched(Nodes(child)) && Filled(done, root) && done !! Nodes(child)
    modifies Nodes(child)`trans
    ensures Filled(done + Nodes(child), root)
    decreases bound, 0, 0
  {
    hide TrieNode.Abs, TrieNode.Valid, Full, Deep, Filled;
    if child != null {
      BuildTransitionTable(child, root, done);
    } else {
      assert done + {} == done;
    }
  }

  method PrintRow(trans: seq<Transition>, ghost es: seq<Entry>) returns (row: seq<Cell>)
    requires AllStand(trans, es)
    ensures row == Cells(es)
  {
    row := [];
    for i := 0 to |trans|
      invariant |row| == i && forall j | 0 <= j < i :: row[j] == CellOf(es[j])
    {
      var cell := PrintCell(trans[i], es[i]);
      row := row + [cell];
    }
  }

  method PrintCell(t: Transition, ghost e: Entry) returns (cell: Cell)
    requires Stands(t, e)
    ensures cell == CellOf(e)
  {
    var (nd, sym) := t;
    var flags, out := 0, 0;
    if sym.Some? {
      out := sym.value;
      flags := flags + SYM;
    }
    var id;
    if nd == null {
      id := FAIL_ID;
    } else if nd.id.None? {
      id := 0;
      flags := flags + ACCEPTED;
    } else {
      id := nd.id.value;
      if nd.accept {
        flags := flags + ACCEPTED;
      }
    }
    cell := Cell(id, flags, out);
  }

  // The rows of the given nodes, in order.
  predicate RowsOk(rows: Table, ts: seq<Tree>, root: Tree) {
    |rows| == |ts| &&
    forall k | 0 <= k < |ts| ::
      Walkable(ts[k], None, root, 4) && rows[k] == Cells(Traverse(ts[k], None, root, 4))
  }

  lemma RowsConcat(a: Table, s: seq<Tree>, b: Table, t: seq<Tree>, root: Tree)
    requires RowsOk(a, s, root) && RowsOk(b, t, root)
    ensures RowsOk(a + b, s + t, root)
  {
    hide Walkable, Traverse, Cells;
  }

  method PrintTransitionTable(node: TrieNode, root: TrieNode, ghost t: Tree, ghost r: Tree) returns (rows: Table)
    requires node.Valid() && root.Valid() && t == node.Abs() && r == root.Abs()
    requires Full(t) && Filled(node.Repr, root)
    ensures RowsOk(rows, Preorder(t), r)
    decreases node.Repr
  {
    hide Walkable, Traverse, Full, RowsOk, AllStand, TrieNode.Valid, TrieNode.Abs, Preorder, Filled;
    AbsTerm(node);
    FilledPart(node.Repr, {node}, root);
    RowFilled(node, root);
    if node.term.Some? {
      NoRows(t, r);
      return [];
    }
    FullChildren(node);
    FilledPart(node.Repr, node.left.Repr, root);
    FilledPart(node.Repr, node.right.Repr, root);
    PreorderInnerNode(t);
    var row := PrintRow(node.trans, Traverse(t, None, r, 4));
    OneRow(row, t, r);
    var left := PrintTransitionTable(node.left, root, t.left, r);
    var right := PrintTransitionTable(node.right, root, t.right, r);
    RowsConcat([row], [t], left, Preorder(t.left), r);
    RowsConcat([row] + left, [t] + Preorder(t.left), right, Preorder(t.right), r);
    rows := [row] + left + right;
  }

  lemma FilledPart(nodes: set<TrieNode>, part: set<TrieNode>, root: TrieNode)
    requires Filled(nodes, root) && part <= nodes
    ensures Filled(part, root)
  {
    hide AllStand, Walkable, Traverse;
  }

  lemma RowFilled(node: TrieNode, root: TrieNode)
    requires Filled({node}, root)
    ensures node.Valid() && root.Valid() && Walkable(node.Abs(), None, root.Abs(), 4)
    ensures AllStand(node.trans, Traverse(node.Abs(), None, root.Abs(), 4))
  {
    hide AllStand, Walkable, Traverse;
  }

  lemma PreorderInnerNode(t: Tree)
    requires IsInner(t)
    ensures Preorder(t) == [t] + Preorder(t.left) + Preorder(t.right)
  {
  }

  lemma NoRows(t: Tree, root: Tree)
    requires IsLeaf(t)
    ensures RowsOk([], Preorder(t), root)
  {
  }

  lemma OneRow(row: seq<Cell>, t: Tree, root: Tree)
    requires Walkable(t, None, root, 4) && row == Cells(Traverse(t, None, root, 4))
    ensures RowsOk([row], [t], root)
  {
  }

  method BuildTrie(codes: Code) returns (ctx: Context)
    ensures fresh(ctx) && fresh(ctx.root.Repr) && ctx.nextId == 0
    ensures ctx.root.Valid() && ctx.root.Abs() == Build(codes) && Untouched(ctx.root.Repr)
  {
    hide Build, Add, TrieNode.Valid, TrieNode.Abs;
    ctx := new Context();
    BuildNone();
    var i := 0;
    while i < |codes|
      invariant 0 <= i <= |codes|
      invariant ctx.nextId == 0 && fresh(ctx) && fresh(ctx.root.Repr) && ctx.root.Valid()
      invariant ctx.root.Abs() == Build(codes[..i]) && Untouched(ctx.root.Repr)
    {
      BuildOne(codes, i);
      Insert(ctx.root, codes[i].0, codes[i].1);
      i := i + 1;
    }
    assert codes[..i] == codes;
  }

  // The whole generator: from the code to the decoder's table.
  method Generate(codes: Code) returns (table: Table)
    requires GoodCode(codes)
    ensures table == TableFor(codes)
  {
    hide Full, Deep, Number, Build, TrieNode.Valid, TrieNode.Abs, CompiledTable, RowsOk, Filled;
    RootCompiled(codes);
    var ctx := BuildTrie(codes);
    var root := ctx.root;
    SetNodeId(ctx, root, []);
    NothingFilled(root);
    BuildTransitionTable(root, root, {});
    assert {} + root.Repr == root.Repr;
    table := PrintTransitionTable(root, root, root.Abs(), root.Abs());
    table := table + [seq(16, i => FAIL_CELL)];
    TableFromRows(table, root.Abs());
  }

  lemma BuildNone()
    ensures Build([]) == EMPTY
  {
  }

  lemma BuildOne(codes: Code, i: nat)
    requires i < |codes|
    ensures Build(codes[..i + 1]) == Add(Build(codes[..i]), codes[i].0, codes[i].1)
  {
    assert codes[..i + 1][..i] == codes[..i];
  }

  lemma NothingFilled(root: TrieNode)
    requires root.Valid()
    ensures Filled({}, root)
  {
  }

  lemma TableFromRows(table: Table, root: Tree)
    requires Full(root) && Deep(root, 3) && |table| > 0
    requires RowsOk(table[..|table| - 1], Preorder(root), root)
    requires table[|table| - 1] == seq(16, i => FAIL_CELL)
    ensures table == CompiledTable(root)
  {
    RowsExist(root);
    var t := CompiledTable(root);
    hide Walkable, Full, Deep, Preorder;
    forall k | 0 <= k < |t|
      ensures table[k] == t[k]
    {
      if k < Inners(root) { assert table[k] == table[..|table| - 1][k]; }
    }
  }
}
