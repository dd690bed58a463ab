/** Encoding and the generated decoder are inverse to each other (section 5.2 of RFC 7541). */
module HuffmanRoundTrip {
  import opened Options
  import opened HuffmanSpec
  import opened HuffmanTable

  // The code word of a symbol, if the code has one.
  function WordOf(codes: Code, s: nat): (r: Option<BitString>)
    ensures r.Some? ==> (s, r.value) in codes
    ensures r.None? ==> forall w :: (s, w) !in codes
  {
    if codes == [] then None
    else if codes[0].0 == s then Some(codes[0].1)
    else WordOf(codes[1..], s)
  }

  predicate Encodable(codes: Code, syms: seq<nat>) {
    forall i | 0 <= i < |syms| :: syms[i] != EOS && WordOf(codes, syms[i]).Some?
  }

  function Encode(codes: Code, syms: seq<nat>): BitString
    requires Encodable(codes, syms)
  {
    if syms == [] then []
    else
      assert Encodable(codes, syms[1..]);
      WordOf(codes, syms[0]).value + Encode(codes, syms[1..])
  }

  function Ones(k: nat): BitString {
    seq(k, i => true)
  }

  // A code the decoder is meant for: one word per symbol, and the all-ones word of more than
  // seven bits is EOS.
  ghost predicate HpackCode(codes: Code) {
    && GoodCode(codes)
    && (forall i, j | 0 <= i < j < |codes| :: codes[i].0 != codes[j].0)
    && exists k :: k > 7 && (EOS, Ones(k)) in codes
  }

  // ---------- words and the trie ----------

  lemma TermInCode(codes: Code, w: BitString, s: nat)
    requires GoodCode(codes)
    ensures TermAt(RootOf(codes), w) == Some(s) <==> (s, w) in codes
  {
    BuildUnmarked(codes);
    NumberAt(Build(codes), [], 0, w);
    BuildTermAt(codes, w, s);
  }

  // What lies on the way to another node is not a leaf.
  lemma {:induction false} PrefixInner(t: Tree, u: BitString, v: BitString)
    requires Full(t) && At(t, u + v).Node? && v != []
    ensures IsInner(At(t, u))
    decreases |u|
  {
    if u == [] {
      assert u + v == v;
    } else {
      assert (u + v)[1..] == u[1..] + v;
      PrefixInner(Child(t, u[0]), u[1..], v);
    }
  }

  // Reading the rest of a word emits its symbol.
  lemma {:induction false} WordRun(root: Tree, pending: BitString, rest: BitString, s: nat)
    requires Full(root) && rest != [] && TermAt(root, pending + rest) == Some(s) && s != EOS
    ensures BitRun(root, Live(pending), rest) == (Live([]), [s])
    decreases |rest|
  {
    var w := pending + [rest[0]];
    assert w + rest[1..] == pending + rest;
    if rest[1..] == [] {
      assert w == pending + rest;
      assert rest[1..] == [] && [s] + [] == [s];
      assert BitRun(root, Live([]), rest[1..]) == (Live([]), []);
    } else {
      PrefixInner(root, w, rest[1..]);
      WordRun(root, w, rest[1..], s);
    }
  }

  // A proper prefix of a word emits nothing.
  lemma {:induction false} PrefixRun(root: Tree, pending: BitString, bits: BitString, more: BitString)
    requires Full(root) && more != [] && TermAt(root, pending + bits + more).Some?
    ensures BitRun(root, Live(pending), bits) == (Live(pending + bits), [])
    decreases |bits|
  {
    if bits == [] {
      assert pending + bits == pending;
    } else {
      var w := pending + [bits[0]];
      assert w + bits[1..] == pending + bits;
      assert w + (bits[1..] + more) == pending + bits + more;
      PrefixInner(root, w, bits[1..] + more);
      PrefixRun(root, w, bits[1..], more);
    }
  }

  lemma {:induction false} EncodeRun(codes: Code, syms: seq<nat>)
    requires HpackCode(codes) && Encodable(codes, syms)
    ensures BitRun(RootOf(codes), Live([]), Encode(codes, syms)) == (Live([]), syms)
    decreases |syms|
  {
    if syms != [] {
      var root, s := RootOf(codes), syms[0];
      var w := WordOf(codes, s).value;
      RootCompiled(codes);
      TermInCode(codes, w, s);
      assert [] + w == w;
      WordRun(root, [], w, s);
      assert Encodable(codes, syms[1..]);
      EncodeRun(codes, syms[1..]);
      BitRunSplit(root, Live([]), w, Encode(codes, syms[1..]));
      assert [s] + syms[1..] == syms;
    }
  }

  lemma PaddingRun(codes: Code, k: nat)
    requires HpackCode(codes) && k <= 7
    ensures BitRun(RootOf(codes), Live([]), Ones(k)) == (Live(Ones(k)), [])
  {
    var m :| m > 7 && (EOS, Ones(m)) in codes;
    RootCompiled(codes);
    TermInCode(codes, Ones(m), EOS);
    assert [] + Ones(k) + Ones(m - k) == Ones(m);
    PrefixRun(RootOf(codes), [], Ones(k), Ones(m - k));
    assert [] + Ones(k) == Ones(k);
  }

  // ---------- back from what was emitted ----------

  lemma WordUnique(codes: Code, s: nat, w: BitString)
    requires HpackCode(codes) && (s, w) in codes
    ensures WordOf(codes, s) == Some(w)
  {
    var v := WordOf(codes, s);
    var i :| 0 <= i < |codes| && codes[i] == (s, w);
    var j :| 0 <= j < |codes| && codes[j] == (s, v.value);
  }

  lemma EncodeCons(codes: Code, s: nat, w: BitString, rest: seq<nat>)
    requires WordOf(codes, s) == Some(w) && s != EOS && Encodable(codes, rest)
    ensures Encodable(codes, [s] + rest) && Encode(codes, [s] + rest) == w + Encode(codes, rest)
  {
    assert ([s] + rest)[1..] == rest;
  }

  lemma RunStep(root: Tree, pending: BitString, bits: BitString)
    requires bits != []
    ensures var w := pending + [bits[0]];
            BitRun(root, Live(pending), bits) ==
            match TermAt(root, w)
            case None => BitRun(root, Live(w), bits[1..])
            case Some(s) =>
              if s == EOS then (Dead, [])
              else
                var (st, out) := BitRun(root, Live([]), bits[1..]);
                (st, [s] + out)
  {
  }

  // What was read is the encoding of what was emitted and the bits still pending.
  lemma {:induction false} RunIsEncoding(codes: Code, pending: BitString, bits: BitString)
    requires HpackCode(codes) && BitRun(RootOf(codes), Live(pending), bits).0.Live?
    ensures var (st, out) := BitRun(RootOf(codes), Live(pending), bits);
            Encodable(codes, out) && pending + bits == Encode(codes, out) + st.pending
    decreases |bits|
  {
    hide Encode, Encodable, HpackCode, TermAt, RootOf, BitRun, WordOf;
    var root := RootOf(codes);
    if bits == [] {
      BitRunNone(root, Live(pending));
      NothingEncoded(codes);
      assert pending + bits == [] + pending;
    } else {
      var w, rest := pending + [bits[0]], bits[1..];
      assert w + rest == pending + bits;
      RunStep(root, pending, bits);
      match TermAt(root, w)
      case None => RunIsEncoding(codes, w, rest);
      case Some(s) =>
        RunIsEncoding(codes, [], rest);
        WordEmitted(codes, s, w);
        var (st, out) := BitRun(root, Live([]), rest);
        EncodeCons(codes, s, w, out);
        assert [] + rest == rest;
        assert w + (Encode(codes, out) + st.pending) == (w + Encode(codes, out)) + st.pending;
    }
  }

  lemma NothingEncoded(codes: Code)
    ensures Encodable(codes, []) && Encode(codes, []) == []
  {
  }

  lemma WordEmitted(codes: Code, s: nat, w: BitString)
    requires HpackCode(codes) && TermAt(RootOf(codes), w) == Some(s)
    ensures WordOf(codes, s) == Some(w)
  {
    hide TermAt, RootOf, WordOf;
    TermInCode(codes, w, s);
    WordUnique(codes, s, w);
  }

  // ---------- main result ----------

  function Decode(codes: Code, ns: seq<Nibble>): Outcome
    requires GoodCode(codes)
  {
    RootCompiled(codes);
    var root := RootOf(codes);
    TableWellFormed(root);
    TableRun(TableFor(codes), 0, true, ns)
  }

  lemma InitialState(codes: Code)
    requires GoodCode(codes)
    ensures Compiled(RootOf(codes)) && Represents(RootOf(codes), 0, true, Live([]))
  {
    RootCompiled(codes);
    var root := RootOf(codes);
    assert Preorder(root)[0] == root;
    assert At(root, []) == root;
  }

  // The table and the trie agree on what is accepted and what comes out.
  lemma DecodeAgrees(codes: Code, ns: seq<Nibble>)
    requires GoodCode(codes)
    ensures var (st, out) := BitRun(RootOf(codes), Live([]), AllBits(ns));
            && (Decode(codes, ns).accepted <==> st.Live? && Accepting(st.pending))
            && Decode(codes, ns).out == out
  {
    hide BitRun, TableRun, Compiled, AllBits, RootOf, Represents, Decode, CompiledTable, WellFormed, GoodCode;
    InitialState(codes);
    DecodeIs(codes, ns);
    TableRunAgrees(RootOf(codes), 0, true, Live([]), ns);
    var r, st := Decode(codes, ns), BitRun(RootOf(codes), Live([]), AllBits(ns)).0;
    AcceptedState(RootOf(codes), r.id, r.accepted, st);
  }

  lemma DecodeIs(codes: Code, ns: seq<Nibble>)
    requires GoodCode(codes)
    ensures var root := RootOf(codes);
            && Compiled(root) && WellFormed(CompiledTable(root)) && |CompiledTable(root)| > 0
            && Decode(codes, ns) == TableRun(CompiledTable(root), 0, true, ns)
  {
    hide RootOf, GoodCode, Compiled, WellFormed, CompiledTable, TableRun;
    RootCompiled(codes);
    TableWellFormed(RootOf(codes));
  }

  lemma AcceptedState(root: Tree, id: nat, accepted: bool, st: BitState)
    requires Represents(root, id, accepted, st)
    ensures accepted <==> st.Live? && Accepting(st.pending)
  {
  }

  lemma AcceptingIsOnes(w: BitString)
    requires Accepting(w)
    ensures |w| <= 7 && w == Ones(|w|)
  {
  }

  // The words of the symbols, then up to seven ones.
  ghost predicate IsEncoding(codes: Code, bits: BitString, syms: seq<nat>) {
    Encodable(codes, syms) && exists k | 0 <= k <= 7 :: bits == Encode(codes, syms) + Ones(k)
  }

  lemma AcceptedIsEncoding(codes: Code, bits: BitString)
    requires HpackCode(codes)
    requires var st := BitRun(RootOf(codes), Live([]), bits).0; st.Live? && Accepting(st.pending)
    ensures IsEncoding(codes, bits, BitRun(RootOf(codes), Live([]), bits).1)
  {
    hide BitRun, Encode, Ones, HpackCode, Accepting, RootOf;
    RunIsEncoding(codes, [], bits);
    assert [] + bits == bits;
    AcceptingIsOnes(BitRun(RootOf(codes), Live([]), bits).0.pending);
  }

  lemma EncodingIsAccepted(codes: Code, bits: BitString, syms: seq<nat>)
    requires HpackCode(codes) && IsEncoding(codes, bits, syms)
    ensures var (st, out) := BitRun(RootOf(codes), Live([]), bits);
            st.Live? && Accepting(st.pending) && out == syms
  {
    hide BitRun, Encode, HpackCode, Encodable, RootOf;
    var k :| 0 <= k <= 7 && bits == Encode(codes, syms) + Ones(k);
    EncodeRun(codes, syms);
    PaddingRun(codes, k);
    BitRunSplit(RootOf(codes), Live([]), Encode(codes, syms), Ones(k));
    assert syms + [] == syms;
    assert Accepting(Ones(k));
  }

  // The generated decoder accepts an input with output `syms` exactly when the input is the
  // encoding of `syms` followed by at most seven one bits.
  lemma DecodingTheorem(codes: Code, ns: seq<Nibble>, syms: seq<nat>)
    requires HpackCode(codes)
    ensures Decode(codes, ns).accepted && Decode(codes, ns).out == syms <==>
            Encodable(codes, syms) && exists k | 0 <= k <= 7 :: AllBits(ns) == Encode(codes, syms) + Ones(k)
  {
    hide BitRun, Encode, Ones, Encodable, Decode, GoodCode, AllBits, RootOf, Accepting;
    DecodeAgrees(codes, ns);
    if Decode(codes, ns).accepted && Decode(codes, ns).out == syms { AcceptedIsEncoding(codes, AllBits(ns)); }
    if IsEncoding(codes, AllBits(ns), syms) { EncodingIsAccepted(codes, AllBits(ns), syms); }
  }

  // ---------- whole bytes ----------

  function ToNibbles(bits: BitString): (ns: seq<Nibble>)
    requires |bits| % 4 == 0
    ensures AllBits(ns) == bits
    decreases |bits|
  {
    if bits == [] then []
    else
      var n := NibbleOf(bits[..4]);
      var ns := [n] + ToNibbles(bits[4..]);
      assert ns[1..] == ToNibbles(bits[4..]);
      assert bits == bits[..4] + bits[4..];
      ns
  }

  function Bit(b: bool): nat { if b then 1 else 0 }

  function NibbleOf(b: BitString): (n: Nibble)
    requires |b| == 4
    ensures NibbleBits(n) == b
  {
    8 * Bit(b[0]) + 4 * Bit(b[1]) + 2 * Bit(b[2]) + Bit(b[3])
  }

  function Pad(bits: BitString): (r: BitString)
    ensures |r| % 8 == 0 && exists k | 0 <= k <= 7 :: r == bits + Ones(k)
  {
    var k := (8 - |bits| % 8) % 8;
    PadLength(|bits|);
    bits + Ones(k)
  }

  lemma PadLength(n: nat)
    ensures var k := (8 - n % 8) % 8; 0 <= k <= 7 && (n + k) % 8 == 0
  {
  }

  lemma WholeNibbles(n: nat)
    requires n % 8 == 0
    ensures n % 4 == 0
  {
  }

  // The encoder's output: the words, then ones up to the next byte boundary.
  function EncodeBytes(codes: Code, syms: seq<nat>): (ns: seq<Nibble>)
    requires Encodable(codes, syms)
    ensures |AllBits(ns)| % 8 == 0
  {
    hide Encode, ToNibbles, AllBits, Pad;
    var bits := Pad(Encode(codes, syms));
    WholeNibbles(|bits|);
    ToNibbles(bits)
  }

  lemma RoundTrip(codes: Code, syms: seq<nat>)
    requires HpackCode(codes) && Encodable(codes, syms)
    ensures Decode(codes, EncodeBytes(codes, syms)).accepted
    ensures Decode(codes, EncodeBytes(codes, syms)).out == syms
  {
    hide Encode, Decode, GoodCode, Encodable, AllBits, ToNibbles, Pad;
    WholeNibbles(|Pad(Encode(codes, syms))|);
    DecodingTheorem(codes, EncodeBytes(codes, syms), syms);
  }
}
