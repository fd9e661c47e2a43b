/** Runs of evbuffer operations on two buffers, against the same runs on two byte sequences. */
module EvbufferRun {
  import opened Bytes
  import opened Chains
  import opened EvbufferModel

  /** The operations; `x` says whether they concern the first or the second buffer. */
  datatype Op =
    | Add(x: bool, data: seq<Byte>)
    | Prepend(x: bool, data: seq<Byte>)
    | Drain(x: bool, len: nat)
    | Remove(x: bool, len: nat)
    | Copyout(x: bool, len: nat)
    | Pullup(x: bool, size: int)
    | RemoveBuffer(x: bool, len: nat)
    | AddBuffer(x: bool)

  /** The contents of the buffer in question and of the other one. */
  datatype Pair = Pair(mine: seq<Byte>, other: seq<Byte>)

  /** What an operation does to the contents. */
  function Effect(op: Op, p: Pair): Pair {
    var n := |p.mine|;
    match op
    case Add(_, data) => if |data| <= SIZE_MAX - n && |data| <= MAX_ALLOC then p.(mine := p.mine + data) else p
    case Prepend(_, data) => if |data| <= SIZE_MAX - n then p.(mine := data + p.mine) else p
    case Drain(_, len) => p.(mine := p.mine[Min(len, n)..])
    case Remove(_, len) => p.(mine := p.mine[Min(len, n)..])
    case Copyout(_, _) => p
    case Pullup(_, _) => p
    case RemoveBuffer(_, len) => Pair(p.mine[Min(len, n)..], p.other + p.mine[..Min(len, n)])
    case AddBuffer(_) => Pair(p.mine + p.other, [])
  }

  /** The bytes that an operation hands out. */
  function Yield(op: Op, p: Pair): seq<Byte> {
    match op
    case Remove(_, len) => p.mine[..Min(len, |p.mine|)]
    case Copyout(_, len) => p.mine[..Min(len, |p.mine|)]
    case Pullup(_, size) => var n := PullupLength(size, p.mine); if 0 < n <= |p.mine| then p.mine[..n] else []
    case _ => []
  }

  function Turned(p: Pair): Pair { Pair(p.other, p.mine) }

  function Step(op: Op, p: Pair): Pair {
    if op.x then Turned(Effect(op, Turned(p))) else Effect(op, p)
  }

  function Out(op: Op, p: Pair): seq<Byte> {
    Yield(op, if op.x then Turned(p) else p)
  }

  function After(ops: seq<Op>, p: Pair): Pair {
    if ops == [] then p else After(ops[1..], Step(ops[0], p))
  }

  function Outs(ops: seq<Op>, p: Pair): seq<seq<Byte>> {
    if ops == [] then [] else [Out(ops[0], p)] + Outs(ops[1..], Step(ops[0], p))
  }

  /** The first bytes that evbuffer_pullup is asked for. */
  function PullupLength(size: int, c: seq<Byte>): int {
    if size < 0 then |c| else size
  }

  /** No block is too large to be allocated. */
  predicate Allocates(op: Op, p: Pair) {
    (op.Prepend? ==> |op.data| <= MAX_ALLOC) && (op.Pullup? ==> PullupLength(op.size, p.mine) <= MAX_ALLOC)
  }

  /** The bytes fit into memory at every point. */
  predicate Fits(ops: seq<Op>, p: Pair) {
    && |p.mine| + |p.other| <= SIZE_MAX
    && (ops == [] || (Allocates(ops[0], if ops[0].x then Turned(p) else p) && Fits(ops[1..], Step(ops[0], p))))
  }

  ghost predicate Ready(a: Evbuffer, b: Evbuffer)
    reads a, b, a.Repr(), b.Repr()
  {
    && a.Valid() && b.Valid() && a.Repr() !! b.Repr()
    && !a.freezeStart && !a.freezeEnd && !b.freezeStart && !b.freezeEnd
  }

  /** An operation on one buffer. */
  method PerformOwn(a: Evbuffer, op: Op, ghost p: Pair) returns (out: seq<Byte>)
    requires a.Valid() && !a.freezeStart && !a.freezeEnd && p.mine == a.Contents() && |p.mine| <= SIZE_MAX
    requires !op.RemoveBuffer? && !op.AddBuffer? && Allocates(op, p)
    modifies a.Repr()
    ensures a.Valid() && !a.freezeStart && !a.freezeEnd && fresh(a.Repr() - old(a.Repr()))
    ensures Pair(a.Contents(), p.other) == Effect(op, p) && out == Yield(op, p)
  {
    hide Seg, View.Bytes, Evbuffer.Lwd;
    out := [];
    match op
    case Add(_, data) => var _ := a.Add(data);
    case Prepend(_, data) => var _ := a.Prepend(data);
    case Drain(_, len) => var _ := a.Drain(len);
    case Remove(_, len) =>
      var n, data := a.Remove(len);
      out := data;
    case Copyout(_, len) =>
      var n, data := a.CopyoutFrom(None, len);
      out := data;
    case Pullup(_, size) => out := PullupBytes(a, size);
    case _ => assert false;
  }

  /** What the pointer that evbuffer_pullup returns leads to. */
  method PullupBytes(a: Evbuffer, size: int) returns (out: seq<Byte>)
    requires a.Valid() && !a.freezeStart && !a.freezeEnd && PullupLength(size, a.Contents()) <= MAX_ALLOC
    modifies a.Repr()
    ensures a.Valid() && !a.freezeStart && !a.freezeEnd && fresh(a.Repr() - old(a.Repr()))
    ensures a.Contents() == old(a.Contents())
    ensures out == var n := PullupLength(size, a.Contents()); if 0 < n <= |a.Contents()| then a.Contents()[..n] else []
  {
    hide Nodes, Flatten, Chain.Holds;
    var n := if size < 0 then a.totalLen else size;
    var r := a.Pullup(size);
    out := [];
    if r != null {
      SegAt(a.first, a.v, 0, null);
      r.HoldsOff(a.v.datas[0]);
      FirstBytes(a.v.datas, n);
      out := r.Data()[..n];
    }
  }

  lemma FirstBytes(ds: seq<seq<Byte>>, n: nat)
    requires ds != [] && n <= |ds[0]|
    ensures n <= |Flatten(ds)| && Flatten(ds)[..n] == ds[0][..n]
  {
  }

  /** An operation on the first of two buffers. */
  method PerformOne(a: Evbuffer, b: Evbuffer, op: Op) returns (out: seq<Byte>)
    requires
      && Ready(a, b)
      && |a.Contents()| + |b.Contents()| <= SIZE_MAX
      && Allocates(op, Pair(a.Contents(), b.Contents()))
    modifies a.Repr(), b.Repr()
    ensures Ready(a, b) && fresh(a.Repr() + b.Repr() - old(a.Repr() + b.Repr()))
    ensures Pair(a.Contents(), b.Contents()) == Effect(op, old(Pair(a.Contents(), b.Contents())))
    ensures out == Yield(op, old(Pair(a.Contents(), b.Contents())))
  {
    hide Evbuffer.Valid, Evbuffer.Repr, Evbuffer.DisjointFrom, View.Bytes;
    if op.RemoveBuffer? || op.AddBuffer? {
      Transfer(a, b, op);
      out := [];
    } else {
      out := Alone(a, b, op);
    }
  }

  /** An operation that moves bytes from one buffer to the other. */
  method Transfer(a: Evbuffer, b: Evbuffer, op: Op)
    requires Ready(a, b) && |a.Contents()| + |b.Contents()| <= SIZE_MAX && (op.RemoveBuffer? || op.AddBuffer?)
    modifies a.Repr(), b.Repr()
    ensures Ready(a, b) && fresh(a.Repr() + b.Repr() - old(a.Repr() + b.Repr()))
    ensures Pair(a.Contents(), b.Contents()) == Effect(op, old(Pair(a.Contents(), b.Contents())))
  {
    hide Evbuffer.Valid, Evbuffer.Repr, Evbuffer.DisjointFrom, View.Bytes, Effect;
    ghost var p := Pair(a.Contents(), b.Contents());
    ApartReprs(a, b);
    if op.RemoveBuffer? {
      var _ := a.RemoveBuffer(b, op.len);
      MovedPart(op, p, Min(op.len, |p.mine|));
    } else {
      var _ := a.AddBuffer(b);
      MovedAll(op, p);
    }
    ReprsApart(a, b);
  }

  lemma MovedPart(op: Op, p: Pair, n: int)
    requires op.RemoveBuffer? && n == Min(op.len, |p.mine|)
    ensures n > 0 ==> Effect(op, p) == Pair(p.mine[n..], p.other + p.mine[..n])
    ensures n == 0 ==> Effect(op, p) == p
  {
  }

  lemma MovedAll(op: Op, p: Pair)
    requires op.AddBuffer?
    ensures Effect(op, p) == Pair(p.mine + p.other, [])
  {
  }

  method Alone(a: Evbuffer, b: Evbuffer, op: Op) returns (out: seq<Byte>)
    requires
      && Ready(a, b)
      && |a.Contents()| + |b.Contents()| <= SIZE_MAX
      && Allocates(op, Pair(a.Contents(), b.Contents()))
    requires !op.RemoveBuffer? && !op.AddBuffer?
    modifies a.Repr()
    ensures Ready(a, b) && fresh(a.Repr() - old(a.Repr()))
    ensures b.Repr() == old(b.Repr())
    ensures Pair(a.Contents(), b.Contents()) == Effect(op, old(Pair(a.Contents(), b.Contents())))
    ensures out == Yield(op, old(Pair(a.Contents(), b.Contents())))
  {
    hide Seg, View.Bytes, Evbuffer.Lwd, Evbuffer.Valid, Evbuffer.DisjointFrom, Effect, Yield, Allocates;
    ReprsStill(b, a);
    out := PerformOwn(a, op, Pair(a.Contents(), b.Contents()));
  }

  /** A run of any operations on two buffers does to the chains what it does to plain byte sequences. */
  method Perform(a: Evbuffer, b: Evbuffer, ops: seq<Op>) returns (outs: seq<seq<Byte>>)
    requires Ready(a, b) && Fits(ops, Pair(a.Contents(), b.Contents()))
    modifies a.Repr(), b.Repr()
    ensures Ready(a, b)
    ensures Pair(a.Contents(), b.Contents()) == After(ops, old(Pair(a.Contents(), b.Contents())))
    ensures outs == Outs(ops, old(Pair(a.Contents(), b.Contents())))
  {
    hide Ready, Step, Out, Evbuffer.Valid, Evbuffer.Repr, View.Bytes;
    outs := [];
    var left := ops;
    ghost var p := Pair(a.Contents(), b.Contents());
    ghost var now, all := p, a.Repr() + b.Repr();
    while left != []
      invariant Ready(a, b) && now == Pair(a.Contents(), b.Contents()) && Fits(left, now)
      invariant fresh(a.Repr() + b.Repr() - all)
      invariant After(left, now) == After(ops, p) && outs + Outs(left, now) == Outs(ops, p)
      decreases |left|
    {
      var op := left[0];
      ghost var was := a.Repr() + b.Repr();
      label Before:
      var out := PerformStep(a, b, op, now);
      forall o: object | o in a.Repr() + b.Repr() && o !in all ensures fresh(o) {
        assert if o in was then o in was - all else fresh@Before(o);
      }
      now := Step(op, now);
      outs := outs + [out];
      left := left[1..];
    }
  }

  method PerformStep(a: Evbuffer, b: Evbuffer, op: Op, ghost p: Pair) returns (out: seq<Byte>)
    requires Ready(a, b) && p == Pair(a.Contents(), b.Contents()) && |p.mine| + |p.other| <= SIZE_MAX
    requires Allocates(op, if op.x then Turned(p) else p)
    modifies a.Repr(), b.Repr()
    ensures Ready(a, b) && fresh(a.Repr() + b.Repr() - old(a.Repr() + b.Repr()))
    ensures Pair(a.Contents(), b.Contents()) == Step(op, p) && out == Out(op, p)
  {
    hide Ready, Effect, Yield, Allocates, Evbuffer.Valid, Evbuffer.Repr, View.Bytes;
    if op.x {
      Other(a, b);
      out := PerformOne(b, a, op);
      Other(b, a);
    } else {
      out := PerformOne(a, b, op);
    }
  }

  lemma Other(a: Evbuffer, b: Evbuffer)
    requires Ready(a, b)
    ensures Ready(b, a)
  {
  }

  /** Moving bytes from the first buffer to the second, in pieces of any size, loses and reorders nothing. */
  lemma {:induction false} MovesConserve(ops: seq<Op>, p: Pair)
    requires forall op :: op in ops ==>
      op == AddBuffer(true) || (op.RemoveBuffer? && !op.x) || op.Pullup? || op.Copyout?
    ensures var q := After(ops, p); q.other + q.mine == p.other + p.mine
  {
    hide Step;
    if ops != [] {
      MoveConserves(ops[0], p);
      MovesConserve(ops[1..], Step(ops[0], p));
    }
  }

  lemma MoveConserves(op: Op, p: Pair)
    requires op == AddBuffer(true) || (op.RemoveBuffer? && !op.x) || op.Pullup? || op.Copyout?
    ensures Step(op, p).other + Step(op, p).mine == p.other + p.mine
  {
    if op.RemoveBuffer? {
      var k := Min(op.len, |p.mine|);
      assert p.mine == p.mine[..k] + p.mine[k..];
    }
  }
}
