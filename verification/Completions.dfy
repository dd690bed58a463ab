/** The completion loop of `Ring::run_one` (driver.cpp) and the operations it settles (driver.ixx):
    an operation with a linked timeout gets two completions, in either order. */
module Completions {

  const ETIME := 62
  const ECANCELED := 125
  const CQE_F_BUFFER := 1

  type OpId = nat
  type u8 = x: int | 0 <= x < 0x100
  type u16 = x: int | 0 <= x < 0x1_0000
  type u32 = x: int | 0 <= x < 0x1_0000_0000

  datatype Operation = Operation(
    hasHandle: bool,
    result: int,
    bid: u16,
    refCount: u8,
    hasBuffer: bool,
    cqeFlags: u32)

  // What the user data of a completion points to; the low bit marks the timeout.
  datatype Target = EventFd | Nothing | Op(id: OpId, isTimeout: bool)

  datatype Cqe = Cqe(target: Target, res: int, flags: u32)

  // ---------- reference semantics ----------

  // What a completion writes into its operation, the count aside.
  function Settle(op: Operation, c: Cqe): Operation
    requires c.target.Op?
  {
    if c.target.isTimeout then
      if c.res == -ETIME then op.(result := -ETIME) else op
    else
      var op := op.(cqeFlags := c.flags);
      if c.res == -ECANCELED then op
      else if c.flags % 2 == CQE_F_BUFFER then
        op.(result := c.res, bid := c.flags / 0x1_0000, hasBuffer := true)
      else op.(result := c.res)
  }

  // The count is one byte and wraps.
  function Decrement(n: u8): u8 { if n == 0 then 255 else n - 1 }

  function Deliver(op: Operation, c: Cqe): Operation
    requires c.target.Op?
  {
    Settle(op, c).(refCount := Decrement(op.refCount))
  }

  // The operations under way, and the coroutines resumed so far. An operation has an id of its own
  // even where the program submits the same object again.
  datatype World = World(ops: Ops, resumed: seq<OpId>)

  type Ops = map<OpId, Operation>

  // A resumed coroutine may submit new operations.
  function Handle(w: World, c: Cqe, submits: Ops): World {
    if !c.target.Op? || c.target.id !in w.ops then w
    else
      var id := c.target.id;
      var op := Deliver(w.ops[id], c);
      var ops := w.ops[id := op];
      if op.refCount == 0 && op.hasHandle then World(ops + submits, w.resumed + [id])
      else World(ops, w.resumed)
  }

  // The i-th completion, if it resumes a coroutine, has it submit the i-th of `submits`.
  function HandleAll(w: World, cs: seq<Cqe>, submits: seq<Ops>): World
    requires |submits| == |cs|
  {
    if cs == [] then w
    else
      var n := |cs| - 1;
      Handle(HandleAll(w, cs[..n], submits[..n]), cs[n], submits[n])
  }

  // Completions are of operations submitted before.
  predicate Known(w: World, cs: seq<Cqe>, submits: seq<Ops>)
    requires |submits| == |cs|
  {
    forall i | 0 <= i < |cs| && cs[i].target.Op? :: cs[i].target.id in HandleAll(w, cs[..i], submits[..i]).ops
  }

  // ---------- the source's loop ----------

  class Ring {
    var ops: Ops
    var resumed: seq<OpId>

    // One batch of completions; says whether the eventfd read has to be armed again.
    method RunBatch(cqes: seq<Cqe>, submits: seq<Ops>) returns (needRearm: bool)
      requires |submits| == |cqes| && Known(World(ops, resumed), cqes, submits)
      modifies this
      ensures World(ops, resumed) == HandleAll(World(old(ops), old(resumed)), cqes, submits)
      ensures needRearm <==> exists i | 0 <= i < |cqes| :: cqes[i].target == EventFd
    {
      needRearm := false;
      ghost var w := World(ops, resumed);
      var count := 0;
      while count < |cqes|
        invariant 0 <= count <= |cqes|
        invariant World(ops, resumed) == HandleAll(w, cqes[..count], submits[..count])
        invariant needRearm <==> exists i | 0 <= i < count :: cqes[i].target == EventFd
      {
        OneMore(w, cqes, submits, count);
        var cqe := cqes[count];
        match cqe.target {
          case EventFd => needRearm := true;
          case Nothing =>
          case Op(id, isTimeout) => HandleOne(id, isTimeout, cqe, submits[count]);
        }
        count := count + 1;
      }
      assert cqes[..count] == cqes && submits[..count] == submits;
    }

    method HandleOne(id: OpId, isTimeout: bool, cqe: Cqe, submits: Ops)
      requires id in ops && cqe.target == Op(id, isTimeout)
      modifies this
      ensures World(ops, resumed) == Handle(World(old(ops), old(resumed)), cqe, submits)
    {
      var op := ops[id];
      if isTimeout {
        if cqe.res == -ETIME {
          op := op.(result := -ETIME);
        }
      } else {
        op := op.(cqeFlags := cqe.flags);
        if cqe.res != -ECANCELED {
          op := op.(result := cqe.res);
          if cqe.flags % 2 == CQE_F_BUFFER {
            op := op.(bid := cqe.flags / 0x1_0000, hasBuffer := true);
          }
        }
      }
      op := op.(refCount := Decrement(op.refCount));
      ops := ops[id := op];
      if op.refCount == 0 {
        if op.hasHandle {
          resumed := resumed + [id];
          ops := ops + submits;
        }
      }
    }
  }

  lemma OneMore(w: World, cs: seq<Cqe>, submits: seq<Ops>, n: nat)
    requires |submits| == |cs| && n < |cs|
    ensures HandleAll(w, cs[..n + 1], submits[..n + 1]) ==
            Handle(HandleAll(w, cs[..n], submits[..n]), cs[n], submits[n])
  {
    assert cs[..n + 1][..n] == cs[..n] && submits[..n + 1][..n] == submits[..n];
  }

  // ---------- each operation on its own ----------

  // The completions of one operation, in order of arrival.
  function Of(cs: seq<Cqe>, id: OpId): (r: seq<Cqe>)
    ensures forall i | 0 <= i < |r| :: r[i].target.Op? && r[i].target.id == id
  {
    if cs == [] then []
    else
      var c := cs[|cs| - 1];
      Of(cs[..|cs| - 1], id) + (if c.target.Op? && c.target.id == id then [c] else [])
  }

  function DeliverAll(op: Operation, cs: seq<Cqe>): Operation
    requires forall i | 0 <= i < |cs| :: cs[i].target.Op?
  {
    if cs == [] then op else Deliver(DeliverAll(op, cs[..|cs| - 1]), cs[|cs| - 1])
  }

  predicate Fresh(ops: Ops, submits: seq<Ops>) {
    forall i | 0 <= i < |submits| :: submits[i].Keys !! ops.Keys
  }

  lemma HandleLocal(w: World, c: Cqe, submits: Ops, id: OpId)
    requires id in w.ops && id !in submits
    ensures var w' := Handle(w, c, submits);
            id in w'.ops &&
            w'.ops[id] == if c.target.Op? && c.target.id == id then Deliver(w.ops[id], c) else w.ops[id]
  {
    hide Deliver;
  }

  lemma DeliverOneMore(op: Operation, cs: seq<Cqe>, c: Cqe)
    requires c.target.Op? && forall i | 0 <= i < |cs| :: cs[i].target.Op?
    ensures DeliverAll(op, cs + [c]) == Deliver(DeliverAll(op, cs), c)
  {
    assert (cs + [c])[..|cs|] == cs;
  }

  // Completions of other operations, and what other coroutines submit, make no difference.
  lemma {:induction false} HandleAllLocal(w: World, cs: seq<Cqe>, submits: seq<Ops>, id: OpId)
    requires |submits| == |cs| && id in w.ops && Fresh(w.ops, submits)
    ensures var w' := HandleAll(w, cs, submits);
            id in w'.ops && w'.ops[id] == DeliverAll(w.ops[id], Of(cs, id))
  {
    hide Handle, Deliver;
    if cs != [] {
      var n := |cs| - 1;
      var before := Of(cs[..n], id);
      HandleAllLocal(w, cs[..n], submits[..n], id);
      assert id !in submits[n];
      HandleLocal(HandleAll(w, cs[..n], submits[..n]), cs[n], submits[n], id);
      if cs[n].target.Op? && cs[n].target.id == id {
        DeliverOneMore(w.ops[id], before, cs[n]);
      } else {
        assert before + [] == before;
      }
    }
  }

  lemma {:induction false} CountsDown(op: Operation, cs: seq<Cqe>)
    requires forall i | 0 <= i < |cs| :: cs[i].target.Op?
    requires |cs| <= op.refCount
    ensures DeliverAll(op, cs).refCount == op.refCount - |cs|
    ensures DeliverAll(op, cs).hasHandle == op.hasHandle
  {
    if cs != [] { CountsDown(op, cs[..|cs| - 1]); }
  }

  function Times(s: seq<OpId>, id: OpId): nat {
    if s == [] then 0 else Times(s[..|s| - 1], id) + (if s[|s| - 1] == id then 1 else 0)
  }

  // One completion resumes the operation if it is the last one it waits for.
  lemma ResumeStep(w: World, c: Cqe, submits: Ops, id: OpId)
    requires id in w.ops && w.ops[id].hasHandle
    ensures Times(Handle(w, c, submits).resumed, id) ==
            Times(w.resumed, id) +
            (if c.target.Op? && c.target.id == id && w.ops[id].refCount == 1 then 1 else 0)
  {
    hide Settle;
    var after := Handle(w, c, submits).resumed;
    if after != w.resumed { assert after[..|after| - 1] == w.resumed; }
    if c.target.Op? { SettleKeeps(w.ops[id], c); }
  }

  lemma SettleKeeps(op: Operation, c: Cqe)
    requires c.target.Op?
    ensures Settle(op, c).hasHandle == op.hasHandle
  {
  }

  // ---------- main results ----------

  // An operation is resumed exactly once, at its last outstanding completion: not before the
  // refCount-th one has arrived, and once it has.
  lemma {:induction false} ResumedOnce(w: World, cs: seq<Cqe>, submits: seq<Ops>, id: OpId)
    requires |submits| == |cs| && Fresh(w.ops, submits)
    requires id in w.ops && w.ops[id].hasHandle && 0 < w.ops[id].refCount
    requires |Of(cs, id)| <= w.ops[id].refCount
    ensures Times(HandleAll(w, cs, submits).resumed, id) ==
            Times(w.resumed, id) + (if |Of(cs, id)| == w.ops[id].refCount then 1 else 0)
  {
    hide Handle, DeliverAll, Times, Fresh;
    if cs != [] {
      var n := |cs| - 1;
      FreshBefore(w.ops, submits);
      ResumedOnce(w, cs[..n], submits[..n], id);
      HandleAllLocal(w, cs[..n], submits[..n], id);
      CountsDown(w.ops[id], Of(cs[..n], id));
      ResumeStep(HandleAll(w, cs[..n], submits[..n]), cs[n], submits[n], id);
    }
  }

  lemma FreshBefore(ops: Ops, submits: seq<Ops>)
    requires submits != [] && Fresh(ops, submits)
    ensures Fresh(ops, submits[..|submits| - 1])
  {
  }

  // The result a resumed operation shows: a cancelled one whose timeout has not expired keeps the
  // result it had before.
  function Outcome(op: Operation, opRes: int, timeoutRes: int): int {
    if timeoutRes == -ETIME then -ETIME
    else if opRes == -ECANCELED then op.result
    else opRes
  }

  // The two completions of an operation with a linked timeout.
  predicate Pair(id: OpId, o: Cqe, t: Cqe) {
    o.target == Op(id, false) && t.target == Op(id, true)
  }

  lemma TwoDeliveries(op: Operation, a: Cqe, b: Cqe)
    requires a.target.Op? && b.target.Op?
    ensures DeliverAll(op, [a, b]) == Deliver(Deliver(op, a), b)
  {
    assert [a, b][..1] == [a] && [a][..0] == [];
    assert DeliverAll(op, [a]) == Deliver(op, a);
  }

  // The order of the two completions does not matter exactly when the kernel does not report both
  // an expired timeout and another result of the operation itself.
  lemma OrderIndependent(op: Operation, id: OpId, o: Cqe, t: Cqe)
    requires Pair(id, o, t)
    ensures DeliverAll(op, [o, t]) == DeliverAll(op, [t, o]) <==>
            (t.res == -ETIME ==> o.res == -ECANCELED || o.res == -ETIME)
  {
    TwoDeliveries(op, o, t);
    TwoDeliveries(op, t, o);
  }

  // A timeout that expired beside an operation that read five bytes: the later one wins.
  lemma LaterCompletionWins(op: Operation, id: OpId)
    ensures var o, t := Cqe(Op(id, false), 5, 0), Cqe(Op(id, true), -ETIME, 0);
            DeliverAll(op, [o, t]).result == -ETIME && DeliverAll(op, [t, o]).result == 5
  {
    var o, t := Cqe(Op(id, false), 5, 0), Cqe(Op(id, true), -ETIME, 0);
    TwoDeliveries(op, o, t);
    TwoDeliveries(op, t, o);
  }

  lemma OutcomeOfPair(op: Operation, id: OpId, o: Cqe, t: Cqe)
    requires Pair(id, o, t) && (t.res == -ETIME ==> o.res == -ECANCELED)
    ensures DeliverAll(op, [o, t]).result == Outcome(op, o.res, t.res)
    ensures DeliverAll(op, [t, o]).result == Outcome(op, o.res, t.res)
  {
    TwoDeliveries(op, o, t);
    TwoDeliveries(op, t, o);
  }

  // An operation without a timeout shows the result of its one completion, or what it had before if
  // it was cancelled.
  lemma ResultAlone(w: World, cs: seq<Cqe>, submits: seq<Ops>, id: OpId, o: Cqe)
    requires |submits| == |cs| && Fresh(w.ops, submits) && id in w.ops
    requires Of(cs, id) == [o] && o.target.Op? && !o.target.isTimeout
    ensures id in HandleAll(w, cs, submits).ops
    ensures HandleAll(w, cs, submits).ops[id].result == if o.res == -ECANCELED then w.ops[id].result else o.res
  {
    hide HandleAll, Of, Fresh;
    HandleAllLocal(w, cs, submits, id);
    assert [o][..0] == [];
  }

  // ---------- the buffer a completion names ----------

  lemma {:induction false} TimeoutsKeepBuffer(op: Operation, cs: seq<Cqe>)
    requires forall j | 0 <= j < |cs| :: cs[j].target.Op? && cs[j].target.isTimeout
    ensures var op' := DeliverAll(op, cs);
            op'.bid == op.bid && op'.hasBuffer == op.hasBuffer && op'.cqeFlags == op.cqeFlags
  {
    if cs != [] { TimeoutsKeepBuffer(op, cs[..|cs| - 1]); }
  }

  // The only completion among `cs` that is not of a timeout is the i-th.
  predicate OnlyOne(cs: seq<Cqe>, i: nat) {
    && i < |cs| && (forall j | 0 <= j < |cs| :: cs[j].target.Op?)
    && !cs[i].target.isTimeout && forall j | 0 <= j < |cs| && j != i :: cs[j].target.isTimeout
  }

  // Bit 0 of the flags says that a buffer was used, and the upper half says which.
  lemma FlagParts(flags: u32, b: nat, low: nat)
    requires flags == 0x1_0000 * b + low && low < 0x1_0000
    ensures flags / 0x1_0000 == b && flags % 2 == low % 2
  {
    assert 0x1_0000 * b == 2 * (0x8000 * b);
  }

  lemma {:induction false} DeliverBuffer(op: Operation, cs: seq<Cqe>, i: nat, b: nat, low: nat)
    requires OnlyOne(cs, i) && cs[i].flags == 0x1_0000 * b + low && low < 0x1_0000
    ensures var op' := DeliverAll(op, cs);
            && op'.cqeFlags == cs[i].flags
            && (if low % 2 == 1 && cs[i].res != -ECANCELED then op'.bid == b && op'.hasBuffer
                else op'.bid == op.bid && op'.hasBuffer == op.hasBuffer)
    decreases |cs|
  {
    var n := |cs| - 1;
    if i < n {
      DeliverBuffer(op, cs[..n], i, b, low);
    } else {
      TimeoutsKeepBuffer(op, cs[..n]);
      FlagParts(cs[i].flags, b, low);
    }
  }

  // The buffer an operation ends up with is the one its own completion names, whatever else arrives
  // and whether its timeout completes before or after it. A completion without a buffer, or of a
  // cancelled operation, leaves the buffer alone.
  lemma BufferOfCompletion(w: World, cs: seq<Cqe>, submits: seq<Ops>, id: OpId, i: nat, b: nat, low: nat)
    requires |submits| == |cs| && Fresh(w.ops, submits) && id in w.ops
    requires OnlyOne(Of(cs, id), i)
    requires Of(cs, id)[i].flags == 0x1_0000 * b + low && low < 0x1_0000
    ensures id in HandleAll(w, cs, submits).ops
    ensures var op, op', o := w.ops[id], HandleAll(w, cs, submits).ops[id], Of(cs, id)[i];
            && op'.cqeFlags == o.flags
            && (if low % 2 == 1 && o.res != -ECANCELED then op'.bid == b && op'.hasBuffer
                else op'.bid == op.bid && op'.hasBuffer == op.hasBuffer)
  {
    hide HandleAll, DeliverAll, Of, Fresh, OnlyOne;
    HandleAllLocal(w, cs, submits, id);
    DeliverBuffer(w.ops[id], Of(cs, id), i, b, low);
  }

  // Whatever else arrives or is submitted in between and in whichever order, the result is the
  // same, as long as the kernel pairs an expired timeout with a cancelled operation.
  lemma ResultOfPair(w: World, cs: seq<Cqe>, submits: seq<Ops>, id: OpId, o: Cqe, t: Cqe)
    requires |submits| == |cs| && Fresh(w.ops, submits)
    requires id in w.ops && Pair(id, o, t) && (t.res == -ETIME ==> o.res == -ECANCELED)
    requires Of(cs, id) == [o, t] || Of(cs, id) == [t, o]
    ensures id in HandleAll(w, cs, submits).ops
    ensures HandleAll(w, cs, submits).ops[id].result == Outcome(w.ops[id], o.res, t.res)
  {
    hide HandleAll, DeliverAll, Of, Outcome, Fresh;
    HandleAllLocal(w, cs, submits, id);
    OutcomeOfPair(w.ops[id], id, o, t);
  }
}
