/** The Huffman decoder-table generator (mkhufftbl.py) on values: the code trie, the numbering of
    its inner nodes, and the 4-bit transition table; beside it, decoding bit by bit. */
module HuffmanSpec {
  import opened Options

  const EOS := 256
  const FAIL_ID := 256
  const ACCEPTED := 1
  const SYM := 2

  type BitString = seq<bool>

  // A trie node: `term` is the symbol of a leaf, `id` the number of an inner node.
  datatype Tree =
    | Nil
    | Node(term: Option<nat>, id: Option<nat>, accept: bool, left: Tree, right: Tree)

  const EMPTY: Tree := Node(None, None, false, Nil, Nil)

  predicate IsLeaf(t: Tree) { t.Node? && t.term.Some? }

  predicate IsInner(t: Tree) { t.Node? && t.term.None? }

  function Child(t: Tree, b: bool): Tree
    requires t.Node?
  {
    if b then t.right else t.left
  }

  // The node a bit string leads to.
  function At(t: Tree, path: BitString): Tree
    decreases |path|
  {
    if path == [] || t.Nil? then t else At(Child(t, path[0]), path[1..])
  }

  function TermAt(t: Tree, path: BitString): Option<nat> {
    var n := At(t, path);
    if n.Node? then n.term else None
  }

  // Every node is a leaf without children or has both children.
  predicate Full(t: Tree) {
    t.Node? && if t.term.Some? then t.left.Nil? && t.right.Nil? else Full(t.left) && Full(t.right)
  }

  // No symbol at depth k or less.
  predicate Deep(t: Tree, k: nat) {
    IsInner(t) && (k > 0 ==> Deep(t.left, k - 1) && Deep(t.right, k - 1))
  }

  // ---------- building the trie ----------

  function OrEmpty(t: Tree): (r: Tree)
    ensures r.Node?
  {
    if t.Nil? then EMPTY else t
  }

  function Add(t: Tree, sym: nat, bits: BitString): (r: Tree)
    requires t.Node?
    ensures r.Node?
    decreases |bits|
  {
    if bits == [] then t.(term := Some(sym))
    else if !bits[0] then t.(left := Add(OrEmpty(t.left), sym, bits[1..]))
    else t.(right := Add(OrEmpty(t.right), sym, bits[1..]))
  }

  type Code = seq<(nat, BitString)>

  function Build(codes: Code): (t: Tree)
    ensures t.Node?
  {
    if codes == [] then EMPTY
    else Add(Build(codes[..|codes| - 1]), codes[|codes| - 1].0, codes[|codes| - 1].1)
  }

  // Adding a code word changes the symbol at that word and nowhere else.
  lemma {:induction false} AddTermAt(t: Tree, sym: nat, bits: BitString, w: BitString)
    requires t.Node?
    ensures TermAt(Add(t, sym, bits), w) == if w == bits then Some(sym) else TermAt(t, w)
    decreases |bits|
  {
    if bits != [] && w != [] {
      var c := Child(t, bits[0]);
      if w[0] == bits[0] {
        AddTermAt(OrEmpty(c), sym, bits[1..], w[1..]);
        assert w == [w[0]] + w[1..] && bits == [bits[0]] + bits[1..];
        if c.Nil? { EmptyTermAt(w[1..]); }
      }
    }
  }

  lemma EmptyTermAt(w: BitString)
    ensures TermAt(EMPTY, w) == TermAt(Nil, w) == None
  {
    if w != [] {
      assert At(EMPTY, w) == At(Nil, w[1..]);
    }
  }

  predicate DistinctWords(codes: Code) {
    forall i, j | 0 <= i < j < |codes| :: codes[i].1 != codes[j].1
  }

  // The trie holds exactly the code: a word leads to a symbol just when the code says so.
  lemma {:induction false} BuildTermAt(codes: Code, w: BitString, s: nat)
    requires DistinctWords(codes)
    ensures TermAt(Build(codes), w) == Some(s) <==> (s, w) in codes
  {
    if codes == [] {
      EmptyTermAt(w);
    } else {
      var n := |codes| - 1;
      BuildTermAt(codes[..n], w, s);
      AddTermAt(Build(codes[..n]), codes[n].0, codes[n].1, w);
      assert codes == codes[..n] + [codes[n]];
    }
  }

  // ---------- numbering ----------

  predicate AllOnes(w: BitString) { forall i | 0 <= i < |w| :: w[i] }

  predicate Accepting(w: BitString) { |w| <= 7 && AllOnes(w) }

  function Inners(t: Tree): nat {
    if IsInner(t) then 1 + Inners(t.left) + Inners(t.right) else 0
  }

  // Preorder numbers from `next` for the inner nodes; `accept` marks short all-ones prefixes.
  function Number(t: Tree, prefix: BitString, next: nat): (r: Tree)
    decreases t
  {
    if !IsInner(t) then t
    else t.(id := Some(next),
            accept := t.accept || Accepting(prefix),
            left := Number(t.left, prefix + [false], next + 1),
            right := Number(t.right, prefix + [true], next + 1 + Inners(t.left)))
  }

  // No node is numbered or marked as accepting yet.
  predicate Unmarked(t: Tree) {
    t.Node? ==> t.id.None? && !t.accept && Unmarked(t.left) && Unmarked(t.right)
  }

  lemma {:induction false} AddUnmarked(t: Tree, sym: nat, bits: BitString)
    requires t.Node? && Unmarked(t)
    ensures Unmarked(Add(t, sym, bits))
    decreases |bits|
  {
    if bits != [] { AddUnmarked(OrEmpty(Child(t, bits[0])), sym, bits[1..]); }
  }

  lemma {:induction false} BuildUnmarked(codes: Code)
    ensures Unmarked(Build(codes))
  {
    if codes != [] {
      var n := |codes| - 1;
      BuildUnmarked(codes[..n]);
      AddUnmarked(Build(codes[..n]), codes[n].0, codes[n].1);
    }
  }

  // Numbering keeps the code and marks exactly the all-ones prefixes of at most seven bits.
  lemma {:induction false} NumberAt(t: Tree, prefix: BitString, next: nat, w: BitString)
    requires Full(t) && Unmarked(t)
    ensures var n, m := At(t, w), At(Number(t, prefix, next), w);
            && IsInner(m) == IsInner(n) && TermAt(Number(t, prefix, next), w) == TermAt(t, w)
            && (IsInner(m) ==> (m.accept <==> Accepting(prefix + w)))
            && (IsLeaf(m) ==> m.id == None)
    decreases |w|
  {
    if w == [] {
      assert prefix + w == prefix;
    } else if IsInner(t) {
      assert prefix + w == (prefix + [w[0]]) + w[1..];
      if w[0] {
        NumberAt(t.right, prefix + [true], next + 1 + Inners(t.left), w[1..]);
      } else {
        NumberAt(t.left, prefix + [false], next + 1, w[1..]);
      }
    }
  }

  lemma {:induction false} NumberKeeps(t: Tree, prefix: BitString, next: nat, k: nat)
    ensures Inners(Number(t, prefix, next)) == Inners(t)
    ensures Full(t) ==> Full(Number(t, prefix, next))
    ensures Deep(t, k) ==> Deep(Number(t, prefix, next), k)
    decreases t
  {
    if IsInner(t) {
      var j := if k > 0 then k - 1 else 0;
      NumberKeeps(t.left, prefix + [false], next + 1, j);
      NumberKeeps(t.right, prefix + [true], next + 1 + Inners(t.left), j);
    }
  }

  // The inner nodes in the order they are numbered and printed.
  function Preorder(t: Tree): (s: seq<Tree>)
    ensures |s| == Inners(t)
  {
    if IsInner(t) then [t] + Preorder(t.left) + Preorder(t.right) else []
  }

  lemma NumberInner(t: Tree, prefix: BitString, next: nat)
    requires IsInner(t)
    ensures Inners(t) == 1 + Inners(t.left) + Inners(t.right)
    ensures Number(t, prefix, next) ==
            Node(None, Some(next), t.accept || Accepting(prefix),
                 Number(t.left, prefix + [false], next + 1),
                 Number(t.right, prefix + [true], next + 1 + Inners(t.left)))
  {
  }

  lemma {:induction false} NumberPreorder(t: Tree, prefix: BitString, next: nat, k: nat)
    requires k < Inners(t)
    ensures Inners(Number(t, prefix, next)) == Inners(t)
    ensures Preorder(Number(t, prefix, next))[k].Node?
    ensures Preorder(Number(t, prefix, next))[k].id == Some(next + k)
    decreases t
  {
    hide Preorder, Accepting;
    NumberCount(t, prefix, next);
    NumberCount(t.left, prefix + [false], next + 1);
    PreorderParts(Number(t, prefix, next), k);
    if 0 < k <= Inners(t.left) {
      NumberPreorder(t.left, prefix + [false], next + 1, k - 1);
    } else if k > 0 {
      NumberPreorder(t.right, prefix + [true], next + 1 + Inners(t.left), k - 1 - Inners(t.left));
    }
  }

  lemma NumberCount(t: Tree, prefix: BitString, next: nat)
    ensures Inners(Number(t, prefix, next)) == Inners(t)
  {
    NumberKeeps(t, prefix, next, 0);
  }

  lemma PreorderParts(t: Tree, k: nat)
    requires IsInner(t) && k < Inners(t)
    ensures Preorder(t)[k] ==
            if k == 0 then t
            else if k <= Inners(t.left) then Preorder(t.left)[k - 1]
            else Preorder(t.right)[k - 1 - Inners(t.left)]
  {
  }

  // Every inner node reached by a path is among them.
  lemma {:induction false} AtInPreorder(t: Tree, w: BitString)
    requires Full(t) && IsInner(At(t, w))
    ensures At(t, w) in Preorder(t)
    decreases |w|
  {
    if w != [] {
      AtInPreorder(Child(t, w[0]), w[1..]);
    }
  }

  // A full trie has one inner node fewer than it has leaves.
  function Leaves(t: Tree): nat {
    if IsInner(t) then Leaves(t.left) + Leaves(t.right) else if IsLeaf(t) then 1 else 0
  }

  lemma {:induction false} InnersOfFull(t: Tree)
    requires Full(t)
    ensures Inners(t) + 1 == Leaves(t)
  {
    if IsInner(t) {
      InnersOfFull(t.left);
      InnersOfFull(t.right);
    }
  }
}
