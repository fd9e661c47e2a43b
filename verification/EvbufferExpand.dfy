/** evbuffer_expand_singlechain: room for a block of bytes in one chain (buffer.c). */
module EvbufferExpand {
  import opened Bytes
  import opened Chains
  import opened EvbufferModel

  const MAX_TO_COPY_IN_EXPAND := 4096

  /** Bytes written into the free space of chain `k` come right behind the contents. */
  ghost predicate CanGrow(b: Evbuffer, k: nat)
    reads b`v, b`lwd, b.v.chains`misalign, b.v.chains`off
  {
    && b.v.Wf() && k < |b.v.chains|
    && (k == b.lwd || (k == b.lwd + 1 && (b.v.datas[b.lwd] != [] || b.v.chains[b.lwd].SpaceLen() == 0)))
  }

  /** The chain has room, and is one that may gain bytes. */
  ghost predicate Roomy(b: Evbuffer, c: Chain, datlen: nat)
    reads b`v, b`lwd, b.v.chains`misalign, b.v.chains`off, c`misalign, c`off
  {
    c.SpaceLen() >= datlen && exists k: nat :: CanGrow(b, k) && b.v.chains[k] == c
  }

  /** evbuffer_chain_insert_new. */
  method InsertNew(b: Evbuffer, datlen: nat) returns (r: Chain?)
    requires b.Valid()
    modifies b.Repr()
    ensures b.Valid() && fresh(b.Repr() - old(b.Repr())) && b.Contents() == old(b.Contents())
    ensures b.freezeStart == old(b.freezeStart) && b.freezeEnd == old(b.freezeEnd)
    ensures r == null <==> datlen > MAX_ALLOC
    ensures r != null ==> Roomy(b, r, datlen)
    ensures old(b.v.Wf() && b.lwd < |b.v.chains| && b.v.datas[b.lwd] != []) ==>
      LastStays(b, old(b.v.chains[b.lwd]), old(b.v.chains[b.lwd].SpaceLen()))
  {
    hide Evbuffer.Valid, View.Bytes, Placed, Chain.Holds;
    r := ChainNew(datlen);
    if r != null {
      ghost var v, lwd := b.v, b.lwd;
      WfPlaced(b);
      b.ChainInsert(r, []);
      LastGrows(v, lwd, r, b.v);
      assert CanGrow(b, |b.v.chains| - 1);
    }
  }

  lemma WfPlaced(b: Evbuffer)
    requires b.Valid()
    ensures b.v.Wf() && Placed(b.v.datas, b.lwd)
  {
    hide Nodes, Flatten, Placed;
    SegHead(b.first, b.v, null);
  }

  /** The last chain with data is still `c`, with as much space as before. */
  ghost predicate LastStays(b: Evbuffer, c: Chain, space: int)
    reads b`v, b`lwd, c`misalign, c`off
  {
    b.lwd < |b.v.chains| && b.v.chains[b.lwd] == c && c.SpaceLen() == space
  }

  lemma LastGrows(v: View, lwd: nat, c: Chain, w: View)
    requires v.Wf() && Placed(v.datas, lwd) && w == v.Take(Used(v.datas, lwd)).Plus(View([c], [[]], 0))
    ensures
      && w.Wf()
      && w.chains[|w.chains| - 1] == c
      && (|w.chains| - 1 == lwd || (|w.chains| - 1 == lwd + 1 && w.datas[lwd] != []))
    ensures lwd < |v.chains| && v.datas[lwd] != [] ==> w.chains[lwd] == v.chains[lwd]
  {
  }

  /** A chain that is big enough takes the place of the last one with data. */
  method Replace(b: Evbuffer, chain: Chain, tmp: Chain, ghost k: nat)
    requires b.Valid() && b.v.Wf() && k < |b.v.chains| && chain == b.v.chains[k] && k == b.lwd
    requires tmp.Holds(b.v.datas[k]) && tmp !in b.v.chains && tmp.buffer !in Buffers(b.v)
    modifies b`first, b`last, b`v, b.v.chains`next, tmp`next, tmp`rank
    ensures b.Valid() && b.Contents() == old(b.Contents())
    ensures b.v.chains == old(b.v).chains[k := tmp] && b.v.datas == old(b.v).datas && b.lwd == old(b.lwd)
  {
    hide Nodes, Flatten, Chain.Holds, Placed, Buffers;
    ghost var w := b.v;
    LastIs(b, k);
    ghost var u := LinkBefore(b, chain, tmp, k);
    b.v := u;
    if b.last == chain {
      b.last := tmp;
    }
  }

  lemma LastIs(b: Evbuffer, k: nat)
    requires b.Valid() && k < |b.v.chains|
    ensures b.last == b.v.chains[k] <==> k == |b.v.chains| - 1
    ensures b.v.Wf() && b.lwdPrev == b.v.Before(b.lwd) && b.last == b.v.chains[|b.v.chains| - 1]
  {
    hide Flatten, Chain.Holds;
  }

  /** The chains before `chain` now lead to `tmp`, and `tmp` to those behind it. */
  method LinkBefore(b: Evbuffer, chain: Chain, tmp: Chain, ghost k: nat) returns (ghost u: View)
    requires
      && Seg(b.first, b.v, null)
      && b.v.Wf()
      && k < |b.v.chains|
      && chain == b.v.chains[k]
      && b.lwdPrev == b.v.Before(k)
    requires tmp.Holds(b.v.datas[k]) && tmp !in b.v.chains && tmp.buffer !in Buffers(b.v)
    modifies b`first, b.v.chains`next, tmp`next, tmp`rank
    ensures u == View(b.v.chains[k := tmp], b.v.datas, b.v.base) && Seg(b.first, u, null)
  {
    hide Seg, Flatten, Chain.Holds, Placed;
    ghost var w, d := b.v, b.v.datas[k];
    SegOpen(b.first, w, k, null);
    b.DerefAt(k);
    SegSplitDistinct(b.first, w, k, null);
    ghost var rest := w.Drop(k + 1);
    assert Buffers(rest) <= Buffers(w) && forall c :: c in rest.chains ==> c in w.chains;
    LinkFront(tmp, chain.next, d, rest, null);
    ghost var t, x := w.Take(k), View([tmp] + rest.chains, [d] + rest.datas, rest.base - 1);
    assert forall c: Chain :: c in t.chains ==> c in w.chains && c !in x.chains;
    LinkSegs(b, tmp, t, x);
    u := t.Plus(x);
    assert u == View(w.chains[k := tmp], w.datas, w.base);
  }

  method LinkSegs(b: Evbuffer, tmp: Chain, ghost t: View, ghost x: View)
    requires Seg(b.first, t, b.Deref(b.lwdPrev)) && b.lwdPrev == t.Before(|t.chains|) && Seg(tmp, x, null)
    requires
      && x.base == t.base + |t.chains|
      && Buffers(t) !! Buffers(x)
      && forall c: Chain :: c in t.chains ==> c !in x.chains
    modifies b`first, t.chains`next
    ensures Seg(b.first, t.Plus(x), null)
  {
    hide Nodes, Flatten, Chain.Holds, Placed, Buffers;
    assert forall c: Chain :: c in x.chains ==> c !in t.chains;
    b.SetNext(b.lwdPrev, tmp, t);
    assert Seg(tmp, x, null) by {
      assert forall c: Chain :: c in x.chains ==> c.next == old(c.next);
    }
    SegJoin(b.first, t, tmp, x, null);
  }

  /** The chain is copied into a bigger one, which takes its place. */
  method Resize(b: Evbuffer, chain: Chain, datlen: nat) returns (r: Chain?)
    requires b.Valid() && b.lwd < |b.v.chains| && chain == b.v.chains[b.lwd]
    modifies b.Repr()
    ensures b.Valid() && fresh(b.Repr() - old(b.Repr())) && b.Contents() == old(b.Contents())
    ensures b.freezeStart == old(b.freezeStart) && b.freezeEnd == old(b.freezeEnd)
    ensures r == null <==> old(chain.off) + datlen > MAX_ALLOC
    ensures r != null ==> Roomy(b, r, datlen)
  {
    hide Nodes, Flatten, Chain.Holds, Placed;
    ghost var k := b.lwd;
    SegHead(b.first, b.v, null);
    SegAt(b.first, b.v, k, null);
    chain.HoldsOff(b.v.datas[k]);
    r := ChainNew(chain.off + datlen);
    if r != null {
      r.Put(chain.Data(), []);
      assert [] + chain.Data() == b.v.datas[k];
      r.HoldsOff(b.v.datas[k]);
      Replace(b, chain, r, k);
      assert CanGrow(b, k);
    }
  }

  /**
   * evbuffer_expand_singlechain. The contents stay. Unless the sizes are too large, there is a chain with room for the
   * whole block, right behind the contents: one that is there already, the last one with data after its bytes were
   * moved to its front or into a bigger chain, or a new one. More than 4096 bytes are neither moved nor copied.
   */
  method ExpandSingleChain(b: Evbuffer, datlen: nat) returns (r: Chain?)
    requires b.Valid()
    modifies b.Repr()
    ensures b.Valid() && fresh(b.Repr() - old(b.Repr())) && b.Contents() == old(b.Contents())
    ensures b.freezeStart == old(b.freezeStart) && b.freezeEnd == old(b.freezeEnd)
    ensures datlen + MAX_TO_COPY_IN_EXPAND <= MAX_ALLOC ==> r != null
    ensures r != null ==> Roomy(b, r, datlen)
    ensures old(b.lwd < |b.v.chains| && b.v.chains[b.lwd].off > MAX_TO_COPY_IN_EXPAND) ==>
      LastStays(b, old(b.v.chains[b.lwd]), old(b.v.chains[b.lwd].SpaceLen()))
  {
    hide Nodes, Flatten, Chain.Holds, Placed, Buffers, View.Bytes, Roomy;
    SegHead(b.first, b.v, null);
    var chainp := b.lwdPrev;
    ghost var k: nat := b.lwd;
    AtLwd(b);
    if b.Deref(chainp) != null && b.Deref(chainp).SpaceLen() == 0 {
      chainp := b.Deref(chainp);
      k := k + 1;
      b.DerefAt(k);
    }
    var chain := b.Deref(chainp);
    if chain == null {
      r := InsertNew(b, datlen);
      return;
    }
    SegAt(b.first, b.v, k, null);
    assert CanGrow(b, k);
    if chain.SpaceLen() >= datlen {
      IsRoomy(b, chain, datlen, k);
      return chain;
    }
    if chain.off == 0 {
      r := InsertNew(b, datlen);
      return;
    }
    r := ExpandChain(b, chain, datlen);
  }

  lemma IsRoomy(b: Evbuffer, c: Chain, datlen: nat, k: nat)
    requires CanGrow(b, k) && b.v.chains[k] == c && c.SpaceLen() >= datlen
    ensures Roomy(b, c, datlen)
  {
  }

  lemma AtLwd(b: Evbuffer)
    requires b.Valid()
    ensures b.v.Wf() && b.lwd <= |b.v.chains| && b.Deref(b.lwdPrev) == b.v.At(b.lwd)
    ensures forall i :: b.lwd < i < |b.v.chains| ==> b.v.chains[i].off == 0
    ensures b.lwd < |b.v.chains| ==> b.v.chains[b.lwd].off == |b.v.datas[b.lwd]|
  {
    hide Nodes, Flatten, Chain.Holds;
    SegHead(b.first, b.v, null);
    b.DerefAt(b.lwd);
    forall i | b.lwd < i < |b.v.chains| ensures b.v.chains[i].off == 0 {
      SegAt(b.first, b.v, i, null);
    }
  }

  /** The last chain with data holds bytes and has too little space behind them. */
  method ExpandChain(b: Evbuffer, chain: Chain, datlen: nat) returns (r: Chain?)
    requires
      && b.Valid()
      && b.lwd < |b.v.chains|
      && chain == b.v.chains[b.lwd]
      && chain.off > 0
      && chain.SpaceLen() < datlen
    modifies b.Repr()
    ensures b.Valid() && fresh(b.Repr() - old(b.Repr())) && b.Contents() == old(b.Contents())
    ensures b.freezeStart == old(b.freezeStart) && b.freezeEnd == old(b.freezeEnd)
    ensures datlen + MAX_TO_COPY_IN_EXPAND <= MAX_ALLOC ==> r != null
    ensures r != null ==> Roomy(b, r, datlen)
    ensures old(chain.off) > MAX_TO_COPY_IN_EXPAND ==> LastStays(b, chain, old(chain.SpaceLen()))
  {
    hide Nodes, Flatten, Chain.Holds, Placed;
    ghost var k := b.lwd;
    SegHead(b.first, b.v, null);
    SegAt(b.first, b.v, k, null);
    chain.HoldsOff(b.v.datas[k]);
    if chain.ShouldRealign(datlen) {
      AlignAt(chain, b.first, b.v, k, null);
      assert CanGrow(b, k);
      return chain;
    }
    if
      || chain.SpaceLen() < chain.buffer.Length / 8
      || chain.off > MAX_TO_COPY_IN_EXPAND
      || datlen >= EVBUFFER_CHAIN_MAX - chain.off
    {
      if chain.next != null && chain.next.SpaceLen() >= datlen {
        assert CanGrow(b, k + 1);
        return chain.next;
      }
      r := InsertNew(b, datlen);
    } else {
      r := Resize(b, chain, datlen);
    }
  }
}
