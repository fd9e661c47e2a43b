/** The chains of buffer.c and the linked lists they form. */
module Chains {
  import opened Bytes

  const EVBUFFER_CHAIN_MAX := 0x7FFF_FFFF_FFFF_FFFF
  const EVBUFFER_CHAIN_SIZE := 48
  const MIN_BUFFER_SIZE := 1024
  const MAX_TO_REALIGN_IN_EXPAND := 2048

  /** The largest data area `ChainNew` can allocate. */
  const MAX_ALLOC := EVBUFFER_CHAIN_MAX - EVBUFFER_CHAIN_SIZE

  class Chain {
    var next: Chain?
    const buffer: array<Byte>
    var misalign: nat
    var off: nat
    /** Numbers the chains of a list from front to back. */
    ghost var rank: int

    constructor (bufferLen: nat)
      ensures next == null && misalign == 0 && off == 0
      ensures fresh(buffer) && buffer.Length == bufferLen
    {
      next, misalign, off := null, 0, 0;
      buffer := new Byte[bufferLen];
    }

    /** The chain is well formed and its data area holds exactly `d`. */
    ghost predicate Holds(d: seq<Byte>)
      reads this`misalign, this`off, buffer
    {
      && 0 < buffer.Length <= MAX_ALLOC
      && misalign + off <= buffer.Length
      && buffer[misalign..misalign + off] == d
    }

    lemma HoldsOff(d: seq<Byte>)
      requires Holds(d)
      ensures off == |d| && SpaceLen() >= 0 && 0 < buffer.Length <= MAX_ALLOC && Data() == d
    {
    }

    /** CHAIN_SPACE_LEN for a mutable chain. */
    function SpaceLen(): int
      reads this`misalign, this`off
    {
      buffer.Length - (misalign + off)
    }

    /** evbuffer_chain_should_realign. */
    predicate ShouldRealign(datalen: nat)
      reads this`off
    {
      && buffer.Length - off >= datalen
      && off < buffer.Length / 2
      && off <= MAX_TO_REALIGN_IN_EXPAND
    }

    /** The bytes the chain holds. */
    function Data(): seq<Byte>
      requires misalign + off <= buffer.Length
      reads this`misalign, this`off, buffer
    {
      buffer[misalign..misalign + off]
    }

    /** evbuffer_chain_align. */
    method Align(ghost d: seq<Byte>)
      requires Holds(d)
      modifies this`misalign, buffer
      ensures Holds(d) && misalign == 0
    {
      Memcpy(buffer, 0, Data());
      misalign := 0;
    }

    /** Copies `data` behind the bytes held. */
    method Put(data: seq<Byte>, ghost d: seq<Byte>)
      requires Holds(d) && |data| <= SpaceLen()
      modifies this`off, buffer
      ensures Holds(d + data)
    {
      Memcpy(buffer, misalign + off, data);
      off := off + |data|;
    }

    /** Copies `data` in front of the bytes held. */
    method PutFront(data: seq<Byte>, ghost d: seq<Byte>)
      requires Holds(d) && |data| <= misalign
      modifies this`off, this`misalign, buffer
      ensures Holds(data + d) && misalign == old(misalign) - |data|
    {
      ghost var was := buffer[misalign..misalign + off];
      Memcpy(buffer, misalign - |data|, data);
      assert buffer[misalign..misalign + off] == was == d;
      off := off + |data|;
      misalign := misalign - |data|;
      assert buffer[misalign..misalign + off] == buffer[misalign..misalign + |data|] + d;
    }

    /** Copies `data` into the end of an empty data area. */
    method FillBack(data: seq<Byte>)
      requires Holds([]) && |data| <= buffer.Length
      modifies this`off, this`misalign, buffer
      ensures Holds(data)
    {
      off := |data|;
      misalign := buffer.Length - |data|;
      Memcpy(buffer, misalign, data);
    }

    /** Forgets the first `n` bytes held. */
    method Consume(n: nat, ghost d: seq<Byte>)
      requires Holds(d) && n <= |d|
      modifies this`off, this`misalign
      ensures Holds(d[n..])
    {
      misalign := misalign + n;
      off := off - n;
    }
  }

  /** The allocation sizes evbuffer_chain_new rounds up to. */
  ghost function Doubled(k: nat): nat {
    if k == 0 then MIN_BUFFER_SIZE else 2 * Doubled(k - 1)
  }

  /** The size loop of evbuffer_chain_new: the least `Doubled` size that is big enough. */
  method RoundUp(size: nat) returns (toAlloc: nat)
    ensures exists k: nat :: toAlloc == Doubled(k) && size <= toAlloc && (k == 0 || Doubled(k - 1) < size)
  {
    toAlloc := MIN_BUFFER_SIZE;
    ghost var k := 0;
    while toAlloc < size
      invariant toAlloc == Doubled(k) && toAlloc > 0
      invariant k == 0 || Doubled(k - 1) < size
    {
      toAlloc := toAlloc * 2;
      k := k + 1;
    }
  }

  /** evbuffer_chain_new; null exactly when the request is too large. */
  method ChainNew(size: nat) returns (c: Chain?)
    ensures c == null <==> size > MAX_ALLOC
    ensures c != null ==>
      && fresh(c) && fresh(c.buffer)
      && c.next == null && c.misalign == 0
      && size <= c.buffer.Length <= 2 * size + 1024 && c.SpaceLen() == c.buffer.Length > 0
      && c.Holds([])
  {
    if size > EVBUFFER_CHAIN_MAX - EVBUFFER_CHAIN_SIZE {
      return null;
    }
    var total := size + EVBUFFER_CHAIN_SIZE;
    var toAlloc := total;
    if total < EVBUFFER_CHAIN_MAX / 2 {
      toAlloc := RoundUp(total);
      RoundedBound(total, toAlloc);
    }
    c := new Chain(toAlloc - EVBUFFER_CHAIN_SIZE);
  }

  lemma RoundedBound(size: nat, r: nat)
    requires exists k: nat :: r == Doubled(k) && size <= r && (k == 0 || Doubled(k - 1) < size)
    ensures MIN_BUFFER_SIZE <= r && (r == MIN_BUFFER_SIZE || r < 2 * size)
  {
    var k: nat :| r == Doubled(k) && size <= r && (k == 0 || Doubled(k - 1) < size);
    DoubledGrows(k);
  }

  lemma {:induction false} DoubledGrows(k: nat)
    ensures MIN_BUFFER_SIZE <= Doubled(k)
  {
    if k > 0 { DoubledGrows(k - 1); }
  }

  /** A list of chains, the bytes of each, and the rank of the first. */
  datatype View = View(chains: seq<Chain>, datas: seq<seq<Byte>>, base: int) {
    ghost predicate Wf() { |chains| == |datas| }

    ghost function Take(k: nat): View
      requires Wf() && k <= |chains|
    {
      View(chains[..k], datas[..k], base)
    }

    ghost function Drop(k: nat): View
      requires Wf() && k <= |chains|
    {
      View(chains[k..], datas[k..], base + k)
    }

    ghost function With(k: nat, d: seq<Byte>): View
      requires Wf() && k < |chains|
    {
      this.(datas := datas[k := d])
    }

    ghost function Plus(w: View): View {
      View(chains + w.chains, datas + w.datas, base)
    }

    ghost function At(k: nat): Chain?
      requires k <= |chains|
    {
      if k == |chains| then null else chains[k]
    }

    /** The chain whose `next` field leads to position `k`; null stands for the buffer's `first` field. */
    ghost function Before(k: nat): Chain?
      requires k <= |chains|
    {
      if k == 0 then null else chains[k - 1]
    }

    ghost function Bytes(): seq<Byte> { Flatten(datas) }

    lemma BytesOf()
      ensures Bytes() == Flatten(datas)
    {
    }
  }

  const NIL := View([], [], 0)

  ghost function Buffers(v: View): set<array<Byte>> {
    set c: Chain | c in v.chains :: c.buffer
  }

  /** Starting at `head`, the `next` fields run through `v.chains` to `end`, and the chains hold `v.datas`. */
  ghost predicate Seg(head: Chain?, v: View, end: Chain?)
    reads v.chains, set c: Chain | c in v.chains :: c.buffer
  {
    Nodes(head, v, end)
  }

  ghost predicate Nodes(head: Chain?, v: View, end: Chain?)
    reads v.chains, set c: Chain | c in v.chains :: c.buffer
  {
    && v.Wf()
    && head == (if v.chains == [] then end else v.chains[0])
    && (forall i :: 0 <= i < |v.chains| ==> v.chains[i].rank == v.base + i)
    && (forall i :: 0 <= i < |v.chains| ==> v.chains[i].Holds(v.datas[i]))
    && (forall i, j {:trigger v.chains[i].buffer, v.chains[j].buffer} ::
          0 <= i < j < |v.chains| ==> v.chains[i].buffer != v.chains[j].buffer)
    && (forall i {:trigger v.chains[i].next} :: 0 <= i < |v.chains| - 1 ==> v.chains[i].next == v.chains[i + 1])
    && (v.chains != [] ==> v.chains[|v.chains| - 1].next == end)
  }

  lemma SegAt(head: Chain?, v: View, k: nat, end: Chain?)
    requires Seg(head, v, end) && k < |v.chains|
    ensures v.Wf() && v.chains[k].Holds(v.datas[k]) && v.chains[k].off == |v.datas[k]|
    ensures v.chains[k].next == (if k + 1 < |v.chains| then v.chains[k + 1] else end)
    ensures v.chains[k].buffer in Buffers(v)
    ensures head == v.chains[0]
  {
  }

  lemma SegHead(head: Chain?, v: View, end: Chain?)
    requires Seg(head, v, end)
    ensures v.Wf() && head == (if v.chains == [] then end else v.chains[0])
  {
  }

  lemma SegTail(head: Chain?, v: View, k: nat, end: Chain?)
    requires v.Wf() && k <= |v.chains| && Seg(head, v.Drop(k), end)
    ensures head == if k < |v.chains| then v.chains[k] else end
    ensures k < |v.chains| ==>
              v.chains[k].Holds(v.datas[k]) && v.chains[k].off == |v.datas[k]|
              && v.chains[k].next == (if k + 1 < |v.chains| then v.chains[k + 1] else end)
  {
    hide Chain.Holds;
    SegHead(head, v.Drop(k), end);
    if k < |v.chains| {
      assert v.Drop(k).datas[0] == v.datas[k];
      SegAt(head, v.Drop(k), 0, end);
    }
  }

  lemma SegDistinct(head: Chain?, v: View, i: nat, j: nat, end: Chain?)
    requires Seg(head, v, end) && i < |v.chains| && j < |v.chains| && i != j
    ensures v.chains[i] != v.chains[j] && v.chains[i].buffer != v.chains[j].buffer
  {
  }

  lemma SegSplit(head: Chain?, v: View, k: nat, end: Chain?)
    requires Seg(head, v, end) && k <= |v.chains|
    ensures v.Wf()
    ensures var mid := if k < |v.chains| then v.chains[k] else end;
            Seg(head, v.Take(k), mid) && Seg(mid, v.Drop(k), end)
    ensures Buffers(v.Take(k)) <= Buffers(v) && Buffers(v.Drop(k)) <= Buffers(v)
  {
    hide Chain.Holds;
  }

  lemma SegSplitDistinct(head: Chain?, v: View, k: nat, end: Chain?)
    requires Seg(head, v, end) && k <= |v.chains|
    ensures v.Wf() && Buffers(v.Take(k)) !! Buffers(v.Drop(k))
    ensures forall i, j {:trigger v.chains[i], v.chains[j]} :: 0 <= i < k <= j < |v.chains| ==>
      v.chains[i] != v.chains[j]
  {
    hide Chain.Holds;
  }

  lemma SegJoin(head: Chain?, v: View, mid: Chain?, w: View, end: Chain?)
    requires Seg(head, v, mid) && Seg(mid, w, end)
    requires w.base == v.base + |v.chains| && Buffers(v) !! Buffers(w)
    ensures Seg(head, v.Plus(w), end)
  {
    hide Chain.Holds, Buffers;
    var p := v.Plus(w);
    assert forall i :: 0 <= i < |p.chains| ==>
      p.chains[i] == if i < |v.chains| then v.chains[i] else w.chains[i - |v.chains|];
    forall i, j {:trigger p.chains[i].buffer, p.chains[j].buffer} | 0 <= i < j < |p.chains|
      ensures p.chains[i].buffer != p.chains[j].buffer
    {
      if i < |v.chains| <= j {
        OwnBuffer(v, i);
        OwnBuffer(w, j - |v.chains|);
      }
    }
  }

  lemma OwnBuffer(v: View, i: nat)
    requires i < |v.chains|
    ensures v.chains[i].buffer in Buffers(v)
  {
  }

  lemma SegSole(c: Chain, d: seq<Byte>)
    requires c.Holds(d)
    ensures Seg(c, View([c], [d], c.rank), c.next)
  {
  }

  /** The `next` field of the last chain is redirected. */
  method Redirect(c: Chain, n: Chain?, ghost head: Chain?, ghost v: View)
    requires v.chains != [] && c == v.chains[|v.chains| - 1] && Seg(head, v, c.next)
    modifies c`next
    ensures c.next == n
    ensures Seg(head, v, n)
  {
    hide Chain.Holds;
    c.next := n;
  }

  /** Prepares a chain to become the one after the list `v`. */
  ghost method Rank(c: Chain, rank: int, d: seq<Byte>, head: Chain?, v: View, end: Chain?)
    requires Seg(head, v, end) && c !in v.chains && c.buffer !in Buffers(v) && c.Holds(d)
    modifies c`rank
    ensures Seg(head, v, end) && c.rank == rank
    ensures Seg(c, View([c], [d], rank), c.next)
  {
    hide Nodes;
    c.rank := rank;
    SegSole(c, d);
  }

  /** The list around chain `k` does not depend on chain `k`. */
  ghost predicate Apart(head: Chain?, v: View, k: nat, c: Chain, end: Chain?)
    reads v.chains, set c: Chain | c in v.chains :: c.buffer
  {
    && k < |v.chains| && v.Wf() && c == v.chains[k] && c.rank == v.base + k
    && Seg(head, v.Take(k), c) && Seg(c.next, v.Drop(k + 1), end)
    && c !in v.Take(k).chains && c.buffer !in Buffers(v.Take(k))
    && c !in v.Drop(k + 1).chains && c.buffer !in Buffers(v.Drop(k + 1))
    && Buffers(v.Take(k)) !! Buffers(v.Drop(k + 1))
  }

  lemma SegOpen(head: Chain?, v: View, k: nat, end: Chain?)
    requires Seg(head, v, end) && k < |v.chains|
    ensures Apart(head, v, k, v.chains[k], end)
    ensures v.chains[k].Holds(v.datas[k])
  {
    hide Nodes, Chain.Holds;
    SegAt(head, v, k, end);
    SegSplit(head, v, k, end);
    SegSplit(head, v, k + 1, end);
    SegSplitDistinct(head, v, k, end);
    SegSplitDistinct(head, v, k + 1, end);
    SegAlone(head, v, k, end);
  }

  lemma SegAlone(head: Chain?, v: View, k: nat, end: Chain?)
    requires Seg(head, v, end) && k < |v.chains| && v.Wf()
    ensures var c := v.chains[k];
            && c.rank == v.base + k
            && c !in v.Take(k).chains && c.buffer !in Buffers(v.Take(k))
            && c !in v.Drop(k + 1).chains && c.buffer !in Buffers(v.Drop(k + 1))
            && Buffers(v.Take(k)) !! Buffers(v.Drop(k + 1))
  {
    hide Chain.Holds;
  }

  lemma SegClose(head: Chain?, v: View, k: nat, c: Chain, d: seq<Byte>, end: Chain?)
    requires Apart(head, v, k, c, end) && c.Holds(d)
    ensures Seg(head, v.With(k, d), end)
  {
    hide Chain.Holds;
    var w := View([c], [d], c.rank);
    SegSole(c, d);
    SegJoin(head, v.Take(k), c, w, c.next);
    SegJoin(head, v.Take(k).Plus(w), c.next, v.Drop(k + 1), end);
    assert v.With(k, d) == v.Take(k).Plus(w).Plus(v.Drop(k + 1));
  }

  method PutAt(c: Chain, data: seq<Byte>, ghost head: Chain?, ghost v: View, ghost k: nat, ghost end: Chain?)
    requires Seg(head, v, end) && k < |v.chains| && c == v.chains[k] && |data| <= c.SpaceLen()
    modifies c`off, c.buffer
    ensures v.Wf() && Seg(head, v.With(k, v.datas[k] + data), end)
  {
    hide Nodes;
    SegOpen(head, v, k, end);
    c.Put(data, v.datas[k]);
    SegClose(head, v, k, c, v.datas[k] + data, end);
  }

  method AlignAt(c: Chain, ghost head: Chain?, ghost v: View, ghost k: nat, ghost end: Chain?)
    requires Seg(head, v, end) && k < |v.chains| && c == v.chains[k]
    modifies c`misalign, c.buffer
    ensures Seg(head, v, end) && c.misalign == 0
  {
    hide Nodes;
    SegOpen(head, v, k, end);
    c.Align(v.datas[k]);
    SegClose(head, v, k, c, v.datas[k], end);
    assert v.With(k, v.datas[k]) == v;
  }

  method PutFrontAt(c: Chain, data: seq<Byte>, ghost head: Chain?, ghost v: View, ghost k: nat, ghost end: Chain?)
    requires Seg(head, v, end) && k < |v.chains| && c == v.chains[k] && |data| <= c.misalign
    modifies c`off, c`misalign, c.buffer
    ensures v.Wf() && Seg(head, v.With(k, data + v.datas[k]), end) && c.misalign == old(c.misalign) - |data|
  {
    hide Nodes;
    SegOpen(head, v, k, end);
    c.PutFront(data, v.datas[k]);
    SegClose(head, v, k, c, data + v.datas[k], end);
  }

  method ConsumeAt(c: Chain, n: nat, ghost head: Chain?, ghost v: View, ghost k: nat, ghost end: Chain?)
    requires Seg(head, v, end) && k < |v.chains| && c == v.chains[k] && v.Wf() && n <= |v.datas[k]|
    modifies c`off, c`misalign
    ensures Seg(head, v.With(k, v.datas[k][n..]), end)
  {
    hide Nodes;
    SegOpen(head, v, k, end);
    c.Consume(n, v.datas[k]);
    SegClose(head, v, k, c, v.datas[k][n..], end);
  }

  /** Sets `misalign` on a chain that holds nothing. */
  method ResetAt(c: Chain, misalign: nat, ghost head: Chain?, ghost v: View, ghost k: nat, ghost end: Chain?)
    requires Seg(head, v, end) && k < |v.chains| && c == v.chains[k] && v.Wf() && v.datas[k] == []
    requires misalign <= c.buffer.Length
    modifies c`misalign
    ensures Seg(head, v, end) && c.misalign == misalign
  {
    hide Nodes;
    SegOpen(head, v, k, end);
    c.misalign := misalign;
    SegClose(head, v, k, c, [], end);
    assert v.With(k, []) == v;
  }

  /** Puts a chain with data `d` in front of the list `v`. */
  method LinkFront(c: Chain, n: Chain?, ghost d: seq<Byte>, ghost v: View, ghost end: Chain?)
    requires Seg(n, v, end) && c !in v.chains && c.buffer !in Buffers(v) && c.Holds(d)
    modifies c`next, c`rank
    ensures Seg(c, View([c] + v.chains, [d] + v.datas, v.base - 1), end)
  {
    hide Nodes;
    c.next := n;
    Rank(c, v.base - 1, d, n, v, end);
    SegJoin(c, View([c], [d], v.base - 1), n, v, end);
  }

  /** Renumbers a list. */
  ghost method Rerank(head: Chain?, v: View, end: Chain?, base: int)
    requires Seg(head, v, end)
    modifies v.chains`rank
    ensures Seg(head, v.(base := base), end)
  {
    hide Chain.Holds;
    forall c | c in v.chains {
      c.rank := c.rank - v.base + base;
    }
  }
}
