/** The code words of a full trie rebuild that trie, and some code meets every condition of the
    decoding theorem. */
module HuffmanExample {
  import opened Bits
  import opened Options
  import opened HuffmanSpec
  import opened HuffmanTable
  import opened HuffmanRoundTrip

  function Prefixed(b: bool, codes: Code): (r: Code)
    ensures |r| == |codes| && forall i | 0 <= i < |codes| :: r[i] == (codes[i].0, [b] + codes[i].1)
  {
    seq(|codes|, i requires 0 <= i < |codes| => (codes[i].0, [b] + codes[i].1))
  }

  // The leaves from left to right with their paths.
  function CodeOf(t: Tree): Code {
    if t.Nil? then []
    else if t.term.Some? then [(t.term.value, [])]
    else Prefixed(false, CodeOf(t.left)) + Prefixed(true, CodeOf(t.right))
  }

  function AddAll(t: Tree, codes: Code): (r: Tree)
    requires t.Node?
    ensures r.Node?
  {
    if codes == [] then t
    else
      var n := |codes| - 1;
      Add(AddAll(t, codes[..n]), codes[n].0, codes[n].1)
  }

  lemma {:induction false} BuildIsAddAll(codes: Code)
    ensures Build(codes) == AddAll(EMPTY, codes)
  {
    if codes != [] { BuildIsAddAll(codes[..|codes| - 1]); }
  }

  lemma {:induction false} AddAllConcat(t: Tree, a: Code, b: Code)
    requires t.Node?
    ensures AddAll(t, a + b) == AddAll(AddAll(t, a), b)
  {
    if b == [] {
      assert a + b == a;
    } else {
      var n := |b| - 1;
      assert (a + b)[..|a + b| - 1] == a + b[..n];
      AddAllConcat(t, a, b[..n]);
    }
  }

  // Words that begin with 0 build up the left child, and words with 1 the right one.
  lemma {:induction false} AddAllPrefixed(t: Tree, b: bool, codes: Code)
    requires t.Node? && codes != []
    ensures AddAll(t, Prefixed(b, codes)) ==
            if b then t.(right := AddAll(OrEmpty(t.right), codes)) else t.(left := AddAll(OrEmpty(t.left), codes))
  {
    var n := |codes| - 1;
    var p := Prefixed(b, codes);
    assert p[n].1[1..] == codes[n].1;
    if n == 0 {
      assert p[..0] == [] && codes[..0] == [];
      assert AddAll(t, p[..0]) == t;
    } else {
      assert p[..n] == Prefixed(b, codes[..n]);
      AddAllPrefixed(t, b, codes[..n]);
    }
  }

  lemma {:induction false} CodeNonEmpty(t: Tree)
    requires Full(t)
    ensures |CodeOf(t)| == Leaves(t) > 0
  {
    if IsInner(t) {
      CodeNonEmpty(t.left);
      CodeNonEmpty(t.right);
    }
  }

  // Building the code words of a full trie gives back the trie.
  lemma {:induction false} BuildInverse(t: Tree)
    requires Full(t) && Unmarked(t)
    ensures AddAll(EMPTY, CodeOf(t)) == t
  {
    if IsLeaf(t) {
      assert CodeOf(t)[..0] == [];
      assert AddAll(EMPTY, CodeOf(t)[..0]) == EMPTY;
    } else {
      CodeNonEmpty(t.left);
      CodeNonEmpty(t.right);
      BuildInverse(t.left);
      BuildInverse(t.right);
      AddAllPrefixed(EMPTY, false, CodeOf(t.left));
      var half := EMPTY.(left := t.left);
      AddAllPrefixed(half, true, CodeOf(t.right));
      AddAllConcat(EMPTY, Prefixed(false, CodeOf(t.left)), Prefixed(true, CodeOf(t.right)));
    }
  }

  lemma {:induction false} DistinctCode(t: Tree)
    ensures DistinctWords(CodeOf(t))
  {
    if IsInner(t) {
      DistinctCode(t.left);
      DistinctCode(t.right);
      var a: Code, b: Code := Prefixed(false, CodeOf(t.left)), Prefixed(true, CodeOf(t.right));
      var ab: Code := a + b;
      forall i, j | 0 <= i < j < |ab|
        ensures ab[i].1 != ab[j].1
      {
        if j < |a| {
          assert a[i].1[1..] == CodeOf(t.left)[i].1 && a[j].1[1..] == CodeOf(t.left)[j].1;
        } else if i >= |a| {
          assert b[i - |a|].1[1..] == CodeOf(t.right)[i - |a|].1 && b[j - |a|].1[1..] == CodeOf(t.right)[j - |a|].1;
        } else {
          assert a[i].1[0] != b[j - |a|].1[0];
        }
      }
    }
  }

  // ---------- an example ----------

  function LeafNode(s: nat): Tree { Node(Some(s), None, false, Nil, Nil) }

  function InnerNode(l: Tree, r: Tree): Tree { Node(None, None, false, l, r) }

  // All words of k bits.
  function Balanced(k: nat, first: nat): Tree {
    if k == 0 then LeafNode(first)
    else InnerNode(Balanced(k - 1, first), Balanced(k - 1, first + Pow2(k - 1)))
  }

  // The same, with the last word split in two.
  function Skewed(k: nat, first: nat): Tree {
    if k == 0 then InnerNode(LeafNode(first), LeafNode(first + 1))
    else InnerNode(Balanced(k - 1, first), Skewed(k - 1, first + Pow2(k - 1)))
  }

  ghost predicate InOrder(codes: Code, first: nat) {
    forall i | 0 <= i < |codes| :: codes[i].0 == first + i
  }

  lemma InnerFacts(l: Tree, r: Tree, first: nat, j: nat)
    requires Full(l) && Full(r) && Unmarked(l) && Unmarked(r)
    requires InOrder(CodeOf(l), first) && InOrder(CodeOf(r), first + Leaves(l))
    ensures var t := InnerNode(l, r);
            && Full(t) && Unmarked(t) && Leaves(t) == Leaves(l) + Leaves(r) && InOrder(CodeOf(t), first)
            && (j == 0 || (Deep(l, j - 1) && Deep(r, j - 1)) ==> Deep(t, j))
  {
    CodeNonEmpty(l);
  }

  lemma LeafFacts(s: nat)
    ensures var t := LeafNode(s); Full(t) && Unmarked(t) && Leaves(t) == 1 && InOrder(CodeOf(t), s)
  {
  }

  lemma {:induction false} BalancedFacts(k: nat, first: nat, j: nat)
    ensures var t := Balanced(k, first);
            Full(t) && Unmarked(t) && Leaves(t) == Pow2(k) && InOrder(CodeOf(t), first) && (j < k ==> Deep(t, j))
    decreases k
  {
    hide Full, Unmarked, Leaves, CodeOf, Deep, InOrder, InnerNode, LeafNode;
    if k == 0 {
      LeafFacts(first);
    } else {
      var i := if j > 0 then j - 1 else 0;
      BalancedFacts(k - 1, first, i);
      BalancedFacts(k - 1, first + Pow2(k - 1), i);
      InnerFacts(Balanced(k - 1, first), Balanced(k - 1, first + Pow2(k - 1)), first, j);
    }
  }

  lemma {:induction false} SkewedFacts(k: nat, first: nat, j: nat)
    ensures var t := Skewed(k, first);
            && Full(t) && Unmarked(t) && Leaves(t) == Pow2(k) + 1 && InOrder(CodeOf(t), first)
            && (j < k ==> Deep(t, j))
    decreases k
  {
    hide Full, Unmarked, Leaves, CodeOf, Deep, InOrder, InnerNode, LeafNode;
    if k == 0 {
      LeafFacts(first);
      LeafFacts(first + 1);
      InnerFacts(LeafNode(first), LeafNode(first + 1), first, 0);
    } else {
      var i := if j > 0 then j - 1 else 0;
      BalancedFacts(k - 1, first, i);
      SkewedFacts(k - 1, first + Pow2(k - 1), i);
      InnerFacts(Balanced(k - 1, first), Skewed(k - 1, first + Pow2(k - 1)), first, j);
    }
  }

  // The last word is all ones.
  lemma {:induction false} SkewedLast(k: nat, first: nat)
    ensures TermAt(Skewed(k, first), Ones(k + 1)) == Some(first + Pow2(k))
    decreases k
  {
    if k == 0 {
      assert Ones(1)[1..] == [];
    } else {
      SkewedLast(k - 1, first + Pow2(k - 1));
      assert Ones(k + 1)[1..] == Ones(k);
    }
  }

  // The words of eight bits, the last of them split in two so that EOS is nine ones: a code
  // that meets all the conditions.
  lemma SomeHpackCode() returns (codes: Code)
    ensures HpackCode(codes)
  {
    hide Skewed, CodeOf, AddAll, Full, Unmarked, Deep, Leaves;
    var t := Skewed(8, 0);
    assert Pow2(8) == 256;
    SkewedFacts(8, 0, 3);
    SkewedLast(8, 0);
    codes := CodeOf(t);
    BuildIsAddAll(codes);
    BuildInverse(t);
    DistinctCode(t);
    BuildTermAt(codes, Ones(9), EOS);
  }
}
