/** The byte queue of buffer.c: a linked list of chains that refines `seq<Byte>`. */
module EvbufferModel {
  import opened Bytes
  import opened Chains

  const SIZE_MAX := 0xFFFF_FFFF_FFFF_FFFF
  const EVBUFFER_CHAIN_MAX_AUTO_SIZE := 4096
  const MAX_TO_COPY_IN_EXPAND := 4096

  const SSIZE_MAX := 0x7FFF_FFFF_FFFF_FFFF

  /** struct evbuffer_ptr. */
  datatype Ptr = Ptr(pos: int, chain: Chain?, posInChain: nat)

  /** The chain at `lwd` is the last one with data, or the first when there is none. */
  ghost predicate Placed(ds: seq<seq<Byte>>, lwd: nat) {
    && (lwd == 0 || (lwd < |ds| && ds[lwd] != []))
    && (forall i :: 0 <= i < |ds| && i < lwd ==> ds[i] != [])
    && (forall i :: lwd < i < |ds| ==> ds[i] == [])
  }

  /** The number of chains up to and including the last one with data. */
  ghost function Used(ds: seq<seq<Byte>>, lwd: nat): (k: nat)
    requires Placed(ds, lwd)
    ensures k <= |ds|
  {
    if lwd < |ds| && ds[lwd] != [] then lwd + 1 else lwd
  }

  lemma TrimPlaced(ds: seq<seq<Byte>>, lwd: nat)
    requires Placed(ds, lwd)
    ensures var k := Used(ds, lwd);
            && Placed(ds[..k], lwd)
            && Flatten(ds[..k]) == Flatten(ds)
            && (forall i :: 0 <= i < k ==> ds[i] != [])
            && (k == 0 || k == lwd + 1)
  {
    var k := Used(ds, lwd);
    FlattenPrefixLength(ds, k);
    FlattenEmpties(ds[k..]);
  }

  /** A list of chains that all hold data gains one at its end. */
  lemma AppendPlaced(ds: seq<seq<Byte>>, lwd: nat, d: seq<Byte>)
    requires Placed(ds, lwd) && (forall i :: 0 <= i < |ds| ==> ds[i] != []) && (ds == [] || |ds| == lwd + 1)
    ensures Placed(ds + [d], if d == [] then lwd else |ds|)
    ensures Flatten(ds + [d]) == Flatten(ds) + d
  {
    hide Flatten;
    FlattenSnoc(ds, d);
  }

  /** The last chain with data, or the first chain, gains bytes. */
  lemma GrowPlaced(ds: seq<seq<Byte>>, lwd: nat, d: seq<Byte>)
    requires Placed(ds, lwd) && lwd < |ds|
    ensures Placed(ds[lwd := ds[lwd] + d], lwd)
    ensures Flatten(ds[lwd := ds[lwd] + d]) == Flatten(ds) + d
  {
    var es := ds[lwd := ds[lwd] + d];
    FlattenAt(ds, lwd);
    FlattenAt(es, lwd);
    FlattenEmpties(ds[lwd + 1..]);
    assert es[..lwd] == ds[..lwd] && es[lwd + 1..] == ds[lwd + 1..];
  }

  /** The first chain gains bytes at its front. */
  lemma FrontPlaced(ds: seq<seq<Byte>>, lwd: nat, d: seq<Byte>)
    requires Placed(ds, lwd) && ds != []
    ensures Placed(ds[0 := d + ds[0]], lwd)
    ensures Flatten(ds[0 := d + ds[0]]) == d + Flatten(ds)
  {
    var es := ds[0 := d + ds[0]];
    assert es[1..] == ds[1..];
  }

  lemma ConsPlaced(ds: seq<seq<Byte>>, lwd: nat, d: seq<Byte>)
    requires Placed(ds, lwd) && ds != [] && ds[0] != [] && d != []
    ensures Placed([d] + ds, lwd + 1)
    ensures Flatten([d] + ds) == d + Flatten(ds)
  {
    FlattenCons(d, ds);
  }

  /** The first `k` chains are dropped and `n` bytes of the next one. */
  lemma DropPlaced(ds: seq<seq<Byte>>, lwd: nat, k: nat, n: nat)
    requires Placed(ds, lwd) && k <= lwd && k < |ds| && n <= |ds[k]| && (n < |ds[k]| || lwd == k == 0)
    ensures |Flatten(ds[..k])| + n <= |Flatten(ds)|
    ensures var es := ds[k..][0 := ds[k][n..]];
            Placed(es, lwd - k) && Flatten(es) == Flatten(ds)[|Flatten(ds[..k])| + n..]
  {
    hide Flatten;
    FlattenPiece(ds, k);
    FirstReplaced(ds, k, ds[k][n..]);
    FlattenCons(ds[k][n..], ds[k + 1..]);
    CutFront(Flatten(ds), |Flatten(ds[..k])|, ds[k], Flatten(ds[k + 1..]), n);
  }

  lemma FirstReplaced(ds: seq<seq<Byte>>, k: nat, d: seq<Byte>)
    requires k < |ds|
    ensures ds[k..][0 := d] == [d] + ds[k + 1..]
  {
  }

  lemma CutFront(c: seq<Byte>, p: nat, d: seq<Byte>, rest: seq<Byte>, n: nat)
    requires p <= |c| && c[p..] == d + rest && n <= |d|
    ensures p + n <= |c| && c[p + n..] == d[n..] + rest
  {
    assert c[p..][n..] == c[p + n..];
  }

  class Evbuffer {
    var first: Chain?
    var last: Chain?
    /** `last_with_datap` points at `first` when this is null and at the `next` field of this chain otherwise. */
    var lwdPrev: Chain?
    var totalLen: nat
    var freezeStart: bool
    var freezeEnd: bool

    /** The linked list and the index of its last chain with data. */
    ghost var v: View
    ghost var lwd: nat

    ghost function Contents(): seq<Byte>
      reads this`v
    {
      v.Bytes()
    }

    ghost function Repr(): set<object>
      reads this`v
    {
      {this} + (set c: Chain | c in v.chains) + Buffers(v)
    }

    /** `last_with_datap` points at the `next` field leading to the chain at `lwd`. */
    ghost predicate Lwd()
      reads this`v, this`lwd, this`lwdPrev
    {
      && Placed(v.datas, lwd)
      && lwdPrev == (if lwd == 0 then null else if lwd <= |v.chains| then v.chains[lwd - 1] else null)
    }

    ghost predicate Valid()
      reads this, v.chains, set c: Chain | c in v.chains :: c.buffer
    {
      && Seg(first, v, null)
      && Lwd()
      && last == v.Before(|v.chains|)
      && totalLen == |Contents()|
    }

    constructor ()
      ensures Valid() && fresh(Repr()) && Contents() == [] && v.chains == [] && !freezeStart && !freezeEnd
    {
      first, last, lwdPrev, totalLen := null, null, null, 0;
      freezeStart, freezeEnd := false, false;
      v, lwd := View([], [], 0), 0;
    }

    /** `*p` for a pointer to a next pointer. */
    function Deref(p: Chain?): Chain?
      reads this`first, p
    {
      if p == null then first else p.next
    }

    /** `*p = n` for the pointer behind the chains `t`. */
    method SetNext(p: Chain?, n: Chain?, ghost t: View)
      requires Seg(first, t, Deref(p)) && p == t.Before(|t.chains|)
      modifies this`first, t.chains`next
      ensures Seg(first, t, n)
      ensures Deref(p) == n
      ensures p != null ==> first == old(first)
      ensures forall c :: c in t.chains && c != p ==> c.next == old(c.next)
    {
      if p == null {
        first := n;
      } else {
        Redirect(p, n, first, t);
      }
    }

    lemma DerefAt(k: nat)
      requires Seg(first, v, null) && k <= |v.chains|
      ensures v.Wf() && Deref(v.Before(k)) == v.At(k)
      ensures k < |v.chains| ==> v.chains[k].off == |v.datas[k]|
    {
      hide Chain.Holds;
      SegHead(first, v, null);
      if k > 0 { SegAt(first, v, k - 1, null); }
      if k < |v.chains| { SegAt(first, v, k, null); }
    }

    /** The loop of evbuffer_free_trailing_empty_chains. */
    method FindTrailing() returns (prev: Chain?, ghost k: nat)
      requires Seg(first, v, null) && Lwd()
      ensures Seg(first, v, null) && v.Wf() && k == Used(v.datas, lwd) && prev == v.Before(k)
    {
      hide Nodes, Flatten;
      SegHead(first, v, null);
      prev := lwdPrev;
      k := lwd;
      DerefAt(k);
      while Deref(prev) != null && Deref(prev).off != 0
        invariant Seg(first, v, null) && lwd <= k <= |v.chains|
        invariant prev == v.Before(k)
        invariant Deref(prev) == v.At(k)
        invariant k <= Used(v.datas, lwd)
        decreases |v.chains| - k
      {
        DerefAt(k);
        DerefAt(k + 1);
        prev := Deref(prev);
        k := k + 1;
      }
      DerefAt(k);
    }

    /** evbuffer_free_trailing_empty_chains: the caller must repair `last`. */
    method FreeTrailingEmptyChains() returns (prev: Chain?)
      requires Seg(first, v, null) && Lwd()
      modifies this`first, this`v, v.chains`next
      ensures old(v).Wf() && v == old(v).Take(Used(old(v).datas, lwd))
      ensures Seg(first, v, null) && Lwd()
      ensures prev == v.Before(|v.chains|)
    {
      hide Nodes, Flatten;
      ghost var k;
      prev, k := FindTrailing();
      DerefAt(k);
      TrimPlaced(v.datas, lwd);
      SegSplit(first, v, k, null);
      if Deref(prev) != null {
        SetNext(prev, null, v.Take(k));
      }
      v := v.Take(k);
    }

    /** evbuffer_chain_insert. */
    method ChainInsert(chain: Chain, ghost d: seq<Byte>)
      requires Valid()
      requires chain.Holds(d) && chain.next == null && chain !in v.chains && chain.buffer !in Buffers(v)
      modifies this`first, this`last, this`lwdPrev, this`totalLen, this`v, this`lwd, v.chains`next, chain`rank
      ensures Valid()
      ensures Contents() == old(Contents()) + d
      ensures old(v).Wf() && v == old(v).Take(Used(old(v).datas, old(lwd))).Plus(View([chain], [d], 0))
      ensures lwd == (if d != [] then |v.chains| - 1 else old(lwd))
      ensures Repr() <= old(Repr()) + {chain, chain.buffer}
    {
      hide Nodes, Flatten, Chain.Holds, Buffers;
      chain.HoldsOff(d);
      SegHead(first, v, null);
      DerefAt(lwd);
      TrimPlaced(v.datas, lwd);
      if Deref(lwdPrev) == null {
        AppendPlaced(v.datas, 0, d);
        Rank(chain, v.base, d, first, v, null);
        assert v.datas + [d] == [d];
        first, last := chain, chain;
        v := View([chain], [d], v.base);
      } else {
        InsertBehind(chain, d);
      }
      totalLen := totalLen + chain.off;
      BuffersWith(old(v), Used(old(v).datas, old(lwd)), chain, d);
    }

    static lemma BuffersWith(w: View, k: nat, chain: Chain, d: seq<Byte>)
      requires w.Wf() && k <= |w.chains|
      ensures Buffers(w.Take(k).Plus(View([chain], [d], 0))) <= Buffers(w) + {chain.buffer}
    {
    }

    /** evbuffer_chain_insert into a buffer that has chains. */
    method InsertBehind(chain: Chain, ghost d: seq<Byte>)
      requires Seg(first, v, null) && Lwd()
      requires chain.Holds(d) && chain.next == null && chain !in v.chains && chain.buffer !in Buffers(v)
      modifies this`first, this`last, this`lwdPrev, this`v, this`lwd, v.chains`next, chain`rank
      ensures Seg(first, v, null) && Lwd() && last == v.Before(|v.chains|)
      ensures Contents() == old(Contents()) + d
      ensures old(v).Wf() && v == old(v).Take(Used(old(v).datas, old(lwd))).Plus(View([chain], [d], 0))
      ensures lwd == (if d != [] then |v.chains| - 1 else old(lwd))
    {
      hide Nodes, Flatten, Chain.Holds;
      chain.HoldsOff(d);
      SegHead(first, v, null);
      TrimPlaced(v.datas, lwd);
      var chp := FreeTrailingEmptyChains();
      SegHead(first, v, null);
      AppendPlaced(v.datas, lwd, d);
      AttachLast(chp, chain, d);
      MoveLwd(chain, chp, d);
      last := chain;
    }

    /** A chain was put behind chains that all hold data. */
    method MoveLwd(chain: Chain, chp: Chain?, ghost d: seq<Byte>)
      requires v.Wf() && v.chains != [] && chp == v.Before(|v.chains| - 1) && chain.off == |d|
      requires Placed(v.datas, if d == [] then lwd else |v.datas| - 1)
      requires lwdPrev == (if lwd == 0 then null else if lwd <= |v.chains| - 1 then v.chains[lwd - 1] else null)
      requires lwd <= |v.chains| - 1 || lwd == 0
      modifies this`lwdPrev, this`lwd
      ensures Lwd() && lwd == (if d != [] then |v.chains| - 1 else old(lwd))
    {
      if chain.off != 0 {
        lwdPrev := chp;
        lwd := |v.chains| - 1;
      }
    }

    /** `*chp = chain` at the end of the list. */
    method AttachLast(chp: Chain?, chain: Chain, ghost d: seq<Byte>)
      requires Seg(first, v, null) && chp == v.Before(|v.chains|)
      requires chain.Holds(d) && chain.next == null && chain !in v.chains && chain.buffer !in Buffers(v)
      modifies this`first, this`v, v.chains`next, chain`rank
      ensures v == old(v).Plus(View([chain], [d], 0))
      ensures Seg(first, v, null)
    {
      hide Nodes, Flatten, Chain.Holds;
      ghost var w := View([chain], [d], v.base + |v.chains|);
      DerefAt(|v.chains|);
      SetNext(chp, chain, v);
      Rank(chain, v.base + |v.chains|, d, first, v, chain);
      SegJoin(first, v, chain, w, null);
      v := v.Plus(w);
    }

    /** Puts `data` behind the bytes of the last chain with data, or of the first chain. */
    method PutLwd(chain: Chain, data: seq<Byte>)
      requires Valid() && lwd < |v.chains| && chain == v.chains[lwd] && |data| <= chain.SpaceLen()
      modifies this`totalLen, this`v, chain`off, chain.buffer
      ensures Valid() && Contents() == old(Contents()) + data
      ensures v.chains == old(v).chains && Repr() == old(Repr())
    {
      hide Nodes, Flatten, Chain.Holds;
      SegHead(first, v, null);
      GrowPlaced(v.datas, lwd, data);
      PutAt(chain, data, first, v, lwd, null);
      v := v.With(lwd, v.datas[lwd] + data);
      totalLen := totalLen + |data|;
    }

    /** evbuffer_add. */
    method Add(data: seq<Byte>) returns (ok: bool)
      requires Valid()
      modifies Repr()
      ensures Valid() && fresh(Repr() - old(Repr()))
      ensures freezeStart == old(freezeStart) && freezeEnd == old(freezeEnd)
      ensures ok <==> !freezeEnd && |data| <= SIZE_MAX - old(totalLen) && |data| <= MAX_ALLOC
      ensures Contents() == if ok then old(Contents()) + data else old(Contents())
    {
      hide Nodes, Flatten, Chain.Holds;
      if freezeEnd || |data| > SIZE_MAX - totalLen {
        return false;
      }
      SegHead(first, v, null);
      DerefAt(lwd);
      var chain := Deref(lwdPrev);
      if chain == null {
        chain := ChainNew(|data|);
        if chain == null { return false; }
        ChainInsert(chain, []);
      }
      ok := AddBehind(chain, data);
    }

    /** The part of evbuffer_add after the chain to start from is known. */
    method AddBehind(chain: Chain, data: seq<Byte>) returns (ok: bool)
      requires Valid() && lwd < |v.chains| && chain == v.chains[lwd]
      modifies Repr()
      ensures Valid() && fresh(Repr() - old(Repr()))
      ensures freezeStart == old(freezeStart) && freezeEnd == old(freezeEnd)
      ensures ok <==> |data| <= MAX_ALLOC
      ensures Contents() == if ok then old(Contents()) + data else old(Contents())
    {
      hide Nodes, Flatten, Chain.Holds;
      SegAt(first, v, lwd, null);
      chain.HoldsOff(v.datas[lwd]);
      var remain := chain.buffer.Length - chain.misalign - chain.off;
      if remain >= |data| {
        PutLwd(chain, data);
        return true;
      }
      if chain.ShouldRealign(|data|) {
        AlignAt(chain, first, v, lwd, null);
        PutLwd(chain, data);
        return true;
      }
      var toAlloc := chain.buffer.Length;
      if toAlloc <= EVBUFFER_CHAIN_MAX_AUTO_SIZE / 2 {
        toAlloc := toAlloc * 2;
      }
      if |data| > toAlloc {
        toAlloc := |data|;
      }
      ok := AddNew(chain, data, remain, toAlloc);
    }

    /** Fills the last chain and adds a new one for the rest. */
    method AddNew(chain: Chain, data: seq<Byte>, remain: nat, toAlloc: nat) returns (ok: bool)
      requires Valid() && lwd < |v.chains| && chain == v.chains[lwd]
      requires remain == chain.SpaceLen() < |data| <= toAlloc
      modifies Repr()
      ensures Valid() && fresh(Repr() - old(Repr()))
      ensures freezeStart == old(freezeStart) && freezeEnd == old(freezeEnd)
      ensures ok <==> toAlloc <= MAX_ALLOC
      ensures Contents() == if ok then old(Contents()) + data else old(Contents())
    {
      hide Valid, Flatten, Chain.Holds, View.Bytes, Used;
      var tmp := ChainNew(toAlloc);
      if tmp == null {
        return false;
      }
      ConcatSplit(Contents(), data, remain);
      PutLwd(chain, data[..remain]);
      tmp.Put(data[remain..], []);
      ChainInsert(tmp, data[remain..]);
      return true;
    }

    /** Puts `data` in front of the bytes of the first chain. */
    method PutFirst(chain: Chain, data: seq<Byte>)
      requires Valid() && v.chains != [] && chain == v.chains[0] && |data| <= chain.misalign
      modifies this`totalLen, this`v, chain`off, chain`misalign, chain.buffer
      ensures Valid() && Contents() == data + old(Contents())
      ensures old(v).Wf() && v == old(v).With(0, data + old(v).datas[0]) && Repr() == old(Repr())
      ensures chain.misalign == old(chain.misalign) - |data|
    {
      hide Nodes, Flatten, Chain.Holds;
      SegHead(first, v, null);
      FrontPlaced(v.datas, lwd, data);
      PutFrontAt(chain, data, first, v, 0, null);
      v := v.With(0, data + v.datas[0]);
      totalLen := totalLen + |data|;
    }

    /** Adds a new first chain that ends with `data`. */
    method PushFront(tmp: Chain, chain: Chain, data: seq<Byte>)
      requires Valid() && v.chains != [] && chain == v.chains[0] && v.Wf() && v.datas[0] != []
      requires tmp.Holds([]) && tmp !in v.chains && tmp.buffer !in Buffers(v) && 0 < |data| <= tmp.buffer.Length
      modifies this`first, this`lwdPrev, this`totalLen, this`v, this`lwd, tmp, tmp.buffer
      ensures Valid() && Contents() == data + old(Contents())
      ensures Repr() <= old(Repr()) + {tmp, tmp.buffer}
    {
      hide Nodes, Flatten, Chain.Holds;
      SegHead(first, v, null);
      ConsPlaced(v.datas, lwd, data);
      tmp.FillBack(data);
      LinkFront(tmp, chain, data, v, null);
      PushFields(tmp, data, View([tmp] + v.chains, [data] + v.datas, v.base - 1));
    }

    method PushFields(tmp: Chain, data: seq<Byte>, ghost w: View)
      requires Seg(tmp, w, null) && w.chains == [tmp] + v.chains && w.datas == [data] + v.datas && v.chains != []
      requires Lwd() && lwd < |v.chains| && Placed(w.datas, lwd + 1)
      requires last == v.Before(|v.chains|) && totalLen + |data| == |w.Bytes()|
      modifies this`first, this`lwdPrev, this`totalLen, this`v, this`lwd
      ensures Valid() && v == w
    {
      hide Nodes, Flatten, Chain.Holds, Placed;
      first := tmp;
      if lwdPrev == null {
        lwdPrev := tmp;
      }
      totalLen := totalLen + |data|;
      lwd := lwd + 1;
      v := w;
    }

    /** The room in front of the bytes of the first chain; all of it when the chain is empty. */
    ghost function FrontRoom(): nat
      reads this`v, v.chains`misalign, v.chains`off
    {
      if v.chains == [] then 0 else if v.chains[0].off == 0 then v.chains[0].buffer.Length else v.chains[0].misalign
    }

    /**
     * evbuffer_prepend. When what does not fit in front of the first chain is too large, the rest has been copied
     * already.
     */
    method Prepend(data: seq<Byte>) returns (ok: bool)
      requires Valid()
      modifies Repr()
      ensures Valid() && fresh(Repr() - old(Repr()))
      ensures freezeStart == old(freezeStart) && freezeEnd == old(freezeEnd)
      ensures ok <==> !freezeStart && |data| <= SIZE_MAX - old(totalLen) && |data| - old(FrontRoom()) <= MAX_ALLOC
      ensures ok ==> Contents() == data + old(Contents())
      ensures !ok && (freezeStart || |data| > SIZE_MAX - old(totalLen)) ==> Contents() == old(Contents())
      ensures !ok && !freezeStart && |data| <= SIZE_MAX - old(totalLen) ==>
        Contents() == data[|data| - old(FrontRoom())..] + old(Contents())
    {
      hide Valid, Repr, FrontRoom, View.Bytes;
      if freezeStart || |data| > SIZE_MAX - totalLen {
        return false;
      }
      var chain := FirstChain(|data|);
      if chain == null { return false; }
      label Got:
      ok := PrependTo(chain, data);
      assert fresh(Repr() - old(Repr())) by {
        forall o: object | o in Repr() && o !in old(Repr()) ensures fresh(o) {
          assert o !in old@Got(Repr()) ==> fresh@Got(o);
        }
      }
    }

    /** The first chain, which evbuffer_prepend makes if there is none. */
    method FirstChain(datlen: nat) returns (chain: Chain?)
      requires Valid()
      modifies Repr()
      ensures Valid() && fresh(Repr() - old(Repr())) && Contents() == old(Contents())
      ensures freezeStart == old(freezeStart) && freezeEnd == old(freezeEnd)
      ensures chain == null <==> old(v.chains) == [] && datlen > MAX_ALLOC
      ensures chain == null ==> FrontRoom() == 0 && Contents() == []
      ensures chain != null ==> v.chains != [] && chain == v.chains[0]
      ensures if old(v.chains) == [] then old(FrontRoom()) == 0 && (chain != null ==> FrontRoom() >= datlen)
        else FrontRoom() == old(FrontRoom())
    {
      hide Nodes, Flatten, Chain.Holds;
      SegHead(first, v, null);
      chain := first;
      if chain == null {
        FlattenWhole(v.datas);
        chain := ChainNew(datlen);
        if chain != null {
          chain.HoldsOff([]);
          ChainInsert(chain, []);
        }
      }
    }

    /** evbuffer_prepend once the buffer has a first chain. */
    method PrependTo(chain: Chain, data: seq<Byte>) returns (ok: bool)
      requires Valid() && v.chains != [] && chain == v.chains[0]
      modifies Repr()
      ensures Valid() && fresh(Repr() - old(Repr()))
      ensures freezeStart == old(freezeStart) && freezeEnd == old(freezeEnd)
      ensures ok <==> |data| - old(FrontRoom()) <= MAX_ALLOC
      ensures ok ==> Contents() == data + old(Contents())
      ensures !ok ==> Contents() == data[|data| - old(FrontRoom())..] + old(Contents())
    {
      hide Valid, FrontRoom, View.Bytes;
      ResetFirst(chain);
      if chain.misalign >= |data| {
        PutFirst(chain, data);
        return true;
      }
      ok := PrependNew(chain, data);
    }

    /** An empty chain counts as empty at its beginning. */
    method ResetFirst(chain: Chain)
      requires Valid() && v.chains != [] && chain == v.chains[0]
      modifies chain`misalign
      ensures Valid() && v.chains != [] && chain == v.chains[0] && Contents() == old(Contents())
      ensures chain.misalign == old(FrontRoom()) && (chain.misalign > 0 || chain.off > 0)
    {
      hide Nodes, Flatten, Chain.Holds;
      SegAt(first, v, 0, null);
      chain.HoldsOff(v.datas[0]);
      if chain.off == 0 {
        ResetAt(chain, chain.buffer.Length, first, v, 0, null);
      }
    }

    /** Fills the space in front of the first chain and adds a new one for the rest. */
    method PrependNew(chain: Chain, data: seq<Byte>) returns (ok: bool)
      requires Valid() && v.chains != [] && chain == v.chains[0]
      requires chain.misalign < |data| && (chain.misalign > 0 || chain.off > 0)
      modifies Repr()
      ensures Valid() && fresh(Repr() - old(Repr()))
      ensures freezeStart == old(freezeStart) && freezeEnd == old(freezeEnd)
      ensures ok <==> |data| - old(chain.misalign) <= MAX_ALLOC
      ensures ok ==> Contents() == data + old(Contents())
      ensures !ok ==> Contents() == data[|data| - old(chain.misalign)..] + old(Contents())
    {
      hide Nodes, Flatten, Chain.Holds, View.Bytes, Placed;
      SegAt(first, v, 0, null);
      var k := |data| - chain.misalign;
      ghost var before := Contents();
      PutFirst(chain, data[k..]);
      var tmp := ChainNew(k);
      if tmp == null {
        return false;
      }
      PrependSplit(data, k, before);
      PushFront(tmp, chain, data[..k]);
      return true;
    }

    /** evbuffer_drain of everything, and ZERO_CHAIN. */
    method Zero()
      modifies this`first, this`last, this`lwdPrev, this`totalLen, this`v, this`lwd
      ensures Valid() && v == NIL && Contents() == []
    {
      first, last, lwdPrev, totalLen := null, null, null, 0;
      v, lwd := NIL, 0;
    }

    /** The loop of evbuffer_drain and of evbuffer_remove_buffer: finds the chain that keeps some of its bytes,
        the chain before it, and the new `last_with_datap`. */
    method FindKept(len: nat) returns (chain: Chain, previous: Chain?, remaining: nat, lwdp: Chain?, ghost k: nat)
      requires Valid() && len < totalLen
      ensures v.Wf() && k <= lwd && k < |v.chains| && chain == v.chains[k] && remaining < |v.datas[k]|
      ensures len == |Flatten(v.datas[..k])| + remaining
      ensures lwdp == (if k == lwd then null else lwdPrev) && previous == v.Before(k)
    {
      hide Nodes, Flatten;
      SegHead(first, v, null);
      FlattenWhole(v.datas);
      PlacedLength(v.datas, lwd);
      chain, previous, remaining, k, lwdp := first, null, len, 0, lwdPrev;
      SegAt(first, v, 0, null);
      while remaining >= chain.off
        invariant Seg(first, v, null)
        invariant k <= lwd && k < |v.chains| && chain == v.chains[k]
        invariant chain.off == |v.datas[k]|
        invariant len == |Flatten(v.datas[..k])| + remaining
        invariant lwdp == (if k == lwd then null else lwdPrev) && previous == v.Before(k)
        decreases |v.chains| - k
      {
        FlattenPiece(v.datas, k);
        assert k < lwd;
        SegAt(first, v, k, null);
        SegAt(first, v, k + 1, null);
        SegDistinct(first, v, k, lwd, null);
        if k + 1 < lwd { SegDistinct(first, v, k, lwd - 1, null); }
        DerefAt(lwd);
        var next := chain.next;
        remaining := remaining - chain.off;
        if chain == Deref(lwdp) {
          lwdp := null;
        }
        if chain == lwdp {
          lwdp := null;
        }
        chain, previous, k := next, chain, k + 1;
      }
    }

    /** evbuffer_drain. */
    method Drain(len: nat) returns (ok: bool)
      requires Valid()
      modifies Repr()
      ensures Valid() && Repr() <= old(Repr())
      ensures freezeStart == old(freezeStart) && freezeEnd == old(freezeEnd)
      ensures ok <==> old(Contents()) == [] || !freezeStart
      ensures Contents() ==
        if !ok then old(Contents()) else if len <= |old(Contents())| then old(Contents())[len..] else []
    {
      hide Nodes, Flatten, Chain.Holds;
      if totalLen == 0 {
        return true;
      }
      if freezeStart {
        return false;
      }
      if len >= totalLen {
        Zero();
      } else {
        var chain, _, remaining, lwdp, k := FindKept(len);
        DropTo(chain, remaining, lwdp, k, len);
      }
      return true;
    }

    /** The list now starts at chain `k`, and that chain forgets `remaining` bytes. */
    method DropTo(chain: Chain, remaining: nat, lwdp: Chain?, ghost k: nat, len: nat)
      requires Valid() && v.Wf() && k <= lwd && k < |v.chains| && chain == v.chains[k] && remaining < |v.datas[k]|
      requires lwdp == if k == lwd then null else lwdPrev
      requires len == |Flatten(v.datas[..k])| + remaining <= totalLen
      modifies this`first, this`lwdPrev, this`totalLen, this`v, this`lwd, chain`misalign, chain`off
      ensures Valid() && Contents() == old(Contents())[len..] && Repr() <= old(Repr())
    {
      hide Nodes, Flatten, Chain.Holds;
      DropPlaced(v.datas, lwd, k, remaining);
      SegSplit(first, v, k, null);
      ConsumeAt(chain, remaining, chain, v.Drop(k), 0, null);
      totalLen := totalLen - len;
      lwdPrev := lwdp;
      first := chain;
      v := v.Drop(k).With(0, v.datas[k][remaining..]);
      lwd := lwd - k;
    }

    /** `p` stands at byte `posInChain` of chain `k`, or behind the last chain. */
    ghost predicate StandsIn(p: Ptr, k: nat)
      reads this`v
    {
      && v.Wf() && k <= |v.chains| && p.chain == v.At(k)
      && p.pos == |Flatten(v.datas[..k])| + p.posInChain
      && (if k < |v.chains| then p.posInChain <= |v.datas[k]| else p.posInChain == 0)
    }

    /** `p` is a position in this buffer. */
    ghost predicate Denotes(p: Ptr)
      reads this`v
    {
      exists k: nat :: StandsIn(p, k)
    }

    lemma StandsBound(p: Ptr, k: nat)
      requires StandsIn(p, k)
      ensures 0 <= p.pos <= |Contents()|
    {
      hide Flatten;
      FlattenPrefixLength(v.datas, k);
      if k < |v.chains| { FlattenPiece(v.datas, k); }
    }

    /** evbuffer_copyout_from. */
    method CopyoutFrom(pos: Option<Ptr>, datlen: nat) returns (n: int, data: seq<Byte>)
      requires Valid() && (pos.Some? ==> Denotes(pos.value))
      ensures var p := if pos.Some? then pos.value.pos else 0;
              var len := if datlen + p <= |Contents()| then datlen else |Contents()| - p;
              && 0 <= p <= |Contents()|
              && (n == -1 <==> (pos.Some? && datlen > SSIZE_MAX - p) || (len > 0 && freezeStart))
              && (n != -1 ==> n == len)
              && data == (if n > 0 then Contents()[p..p + n] else [])
    {
      hide Nodes, Flatten, Chain.Holds;
      var chain := first;
      var posInChain: nat, len: nat := 0, datlen;
      ghost var k: nat, p := 0, 0;
      FlattenWhole(v.datas);
      SegHead(first, v, null);
      if pos.Some? {
        k :| StandsIn(pos.value, k);
        p := pos.value.pos;
        FlattenPrefixLength(v.datas, k);
        if k < |v.chains| { FlattenPiece(v.datas, k); }
        if datlen > SSIZE_MAX - pos.value.pos {
          return -1, [];
        }
        chain, posInChain := pos.value.chain, pos.value.posInChain;
        if datlen + pos.value.pos > totalLen {
          len := totalLen - pos.value.pos;
        }
      } else if datlen > totalLen {
        len := totalLen;
      }
      if len == 0 {
        return 0, [];
      }
      if freezeStart {
        return -1, [];
      }
      data := CopyLoop(chain, posInChain, len, k, p);
      n := len;
    }

    /** The copying loop of evbuffer_copyout_from. */
    method CopyLoop(chain0: Chain?, pos0: nat, datlen: nat, ghost k0: nat, ghost p: nat) returns (data: seq<Byte>)
      requires Seg(first, v, null) && v.Wf() && k0 <= |v.chains| && chain0 == v.At(k0)
      requires p == |Flatten(v.datas[..k0])| + pos0 && (k0 < |v.chains| ==> pos0 <= |v.datas[k0]|)
      requires p + datlen <= |Contents()| && (k0 == |v.chains| ==> datlen == 0)
      ensures data == Contents()[p..p + datlen]
    {
      hide Nodes, Flatten, Chain.Holds, View.Bytes, Buffers, Seg, Copied;
      var chain := chain0;
      var posInChain: nat, left: nat := pos0, datlen;
      ghost var k, q := k0, p;
      data := [];
      NoneCopied(p);
      assert Contents() == Flatten(v.datas) by { v.BytesOf(); }
      FlattenWhole(v.datas);
      SegHead(first, v, null);
      if k < |v.chains| { NextPiece(k); }
      while left > 0 && left >= chain.off - posInChain
        invariant Seg(first, v, null) && v.Wf() && k <= |v.chains| && left <= datlen
        invariant chain == v.At(k) && q == p + datlen - left == |Flatten(v.datas[..k])| + posInChain
        invariant k < |v.chains| ==> posInChain <= |v.datas[k]| == chain.off
        invariant left > 0 ==> k < |v.chains|
        invariant Copied(data, p, q)
        decreases |v.chains| - k
      {
        var piece := PieceOf(chain, k, posInChain, chain.off);
        CopiedMore(data, p, q, piece);
        data := data + piece;
        left, q := left - |piece|, q + |piece|;
        NextPiece(k);
        chain, posInChain, k := chain.next, 0, k + 1;
      }
      if left > 0 {
        var piece := PieceOf(chain, k, posInChain, posInChain + left);
        CopiedMore(data, p, q, piece);
        data := data + piece;
      }
      CopiedAll(data, p, p + datlen);
    }

    /** The bytes from `p` to `q` are in `data`. */
    ghost predicate Copied(data: seq<Byte>, p: nat, q: nat)
      reads this`v
    {
      p <= q <= |Contents()| && data == Contents()[p..q]
    }

    lemma NoneCopied(p: nat)
      requires p <= |Contents()|
      ensures Copied([], p, p)
    {
    }

    lemma CopiedMore(data: seq<Byte>, p: nat, q: nat, piece: seq<Byte>)
      requires Copied(data, p, q) && q + |piece| <= |Contents()| && piece == Contents()[q..q + |piece|]
      ensures Copied(data + piece, p, q + |piece|)
    {
      SliceJoin(Contents(), p, q, q + |piece|);
    }

    lemma CopiedAll(data: seq<Byte>, p: nat, q: nat)
      requires Copied(data, p, q)
      ensures p <= q <= |Contents()| && data == Contents()[p..q]
    {
    }

    lemma NextPiece(k: nat)
      requires Seg(first, v, null) && k < |v.chains|
      ensures v.Wf() && v.chains[k].next == v.At(k + 1) && v.chains[k].off == |v.datas[k]|
      ensures |Flatten(v.datas[..k + 1])| == |Flatten(v.datas[..k])| + |v.datas[k]| <= |Contents()|
      ensures k + 1 < |v.chains| ==> v.chains[k + 1].off == |v.datas[k + 1]|
    {
      hide Nodes, Chain.Holds;
      SegAt(first, v, k, null);
      if k + 1 < |v.chains| { SegAt(first, v, k + 1, null); }
      FlattenPiece(v.datas, k);
    }

    /** The bytes from `a` to `b` of chain `k`, and where they lie in the contents. */
    method PieceOf(chain: Chain, ghost k: nat, a: nat, b: nat) returns (piece: seq<Byte>)
      requires Seg(first, v, null) && k < |v.chains| && chain == v.chains[k] && v.Wf() && a <= b <= |v.datas[k]|
      ensures var o := |Flatten(v.datas[..k])|;
              o + b <= |Contents()| && piece == Contents()[o + a..o + b] == v.datas[k][a..b] && |piece| == b - a
    {
      hide Nodes, Flatten, Chain.Holds;
      SegAt(first, v, k, null);
      chain.HoldsOff(v.datas[k]);
      PieceSlice(v.datas, k, a, b);
      piece := chain.Data()[a..b];
    }

    /** evbuffer_remove. */
    method Remove(datlen: nat) returns (n: int, data: seq<Byte>)
      requires Valid()
      modifies Repr()
      ensures Valid() && Repr() <= old(Repr())
      ensures freezeStart == old(freezeStart) && freezeEnd == old(freezeEnd)
      ensures var c, k := old(Contents()), Min(datlen, |old(Contents())|);
        if freezeStart && k > 0 then n == -1 && data == [] && Contents() == c
        else n == ToInt(k) && data == c[..k] && Contents() == c[k..]
    {
      hide Nodes, Flatten, Chain.Holds, ToInt;
      n, data := CopyoutFrom(None, datlen);
      if n > 0 {
        var ok := Drain(n);
        if !ok {
          n := -1;
        }
      }
      n := ToInt(n);
    }

    /**
     * The first `n - left` bytes are in `tmp`, which has room for the rest; `chain` is the chain at `k`, the next one
     * to copy.
     */
    ghost predicate Pulling(tmp: Chain, chain: Chain?, left: nat, k: nat, n: nat)
      reads this, v.chains, (set c: Chain | c in v.chains :: c.buffer), tmp, tmp.buffer
    {
      && v.Wf() && k <= |v.chains| && left <= n <= |Contents()| && |Flatten(v.datas[..k])| + left == n
      && Seg(chain, v.Drop(k), null) && tmp.Holds(Contents()[..n - left]) && left <= tmp.SpaceLen()
      && tmp !in v.Drop(k).chains && tmp.buffer !in Buffers(v.Drop(k))
      && chain == v.At(k) && (chain != null ==> chain.off == |v.datas[k]|)
    }

    /** The copying loop of evbuffer_pullup: moves whole chains behind the bytes of `tmp`. */
    method PullLoop(tmp: Chain, chain0: Chain?, lastWithData: Chain?, need: nat, ghost j: nat, ghost n: nat)
      returns (chain: Chain?, left: nat, removedLwd: bool, removedLwdp: bool, ghost k: nat)
      requires Pulling(tmp, chain0, need, j, n) && v.Wf() && j <= lwd < |v.chains| && 0 < lwd
      requires lastWithData == v.chains[lwd] && lwdPrev == v.chains[lwd - 1] && (j < lwd || lwdPrev == tmp)
      modifies tmp`off, tmp.buffer
      ensures j <= k <= |v.chains| && Pulling(tmp, chain, left, k, n)
      ensures if k < |v.chains| then left < |v.datas[k]| else left == 0
      ensures removedLwd <==> lwd < k
      ensures removedLwdp <==> j < lwd <= k
    {
      hide Pulling, Placed;
      chain, left, k, removedLwd, removedLwdp := chain0, need, j, false, false;
      PullingAt(tmp, chain, left, k, n);
      while chain != null && left >= chain.off
        invariant j <= k <= |v.chains| && Pulling(tmp, chain, left, k, n) && chain == v.At(k)
        invariant if chain == null then left == 0 else chain.off == |v.datas[k]|
        invariant removedLwd <==> lwd < k
        invariant removedLwdp <==> j < lwd <= k
        decreases |v.chains| - k
      {
        var lwdHere, lwdpHere := chain == lastWithData, chain == lwdPrev;
        PassedBy(tmp, chain, left, lastWithData, j, k, n);
        chain, left := PullStep(tmp, chain, left, k, n);
        k := k + 1;
        PullingAt(tmp, chain, left, k, n);
        if lwdHere { removedLwd := true; }
        if lwdpHere { removedLwdp := true; }
      }
    }

    lemma StartPulling(tmp: Chain, chain: Chain?, j: nat, d: seq<Byte>, n: nat)
      requires v.Wf() && j <= |v.chains| && Seg(chain, v.Drop(j), null) && tmp.Holds(d) && |d| <= n <= |Contents()|
      requires |d| == |Flatten(v.datas[..j])| && d == Contents()[..|d|] && n - |d| <= tmp.SpaceLen()
      requires tmp !in v.Drop(j).chains && tmp.buffer !in Buffers(v.Drop(j))
      ensures Pulling(tmp, chain, n - |d|, j, n)
    {
      hide Nodes, Flatten, Chain.Holds, Buffers;
      SegTail(chain, v, j, null);
    }

    lemma PullingAt(tmp: Chain, chain: Chain?, left: nat, k: nat, n: nat)
      requires Pulling(tmp, chain, left, k, n)
      ensures v.Wf() && k <= |v.chains| && chain == v.At(k)
      ensures if chain == null then left == 0 else k < |v.chains| && chain.off == |v.datas[k]|
      ensures |Flatten(v.datas[..k])| + left == n <= |Contents()|
    {
      hide Seg, Flatten, Chain.Holds;
      FlattenWhole(v.datas);
    }

    /** Which of the two chains that evbuffer_pullup looks out for is met at `k`. */
    lemma PassedBy(tmp: Chain, chain: Chain, left: nat, lastWithData: Chain?, j: nat, k: nat, n: nat)
      requires Pulling(tmp, chain, left, k, n) && j <= lwd < |v.chains| && 0 < lwd && j <= k < |v.chains|
      requires lastWithData == v.chains[lwd] && lwdPrev == v.chains[lwd - 1] && (j < lwd || lwdPrev == tmp)
      ensures lwd < k || chain == lastWithData <==> lwd < k + 1
      ensures j < lwd <= k || chain == lwdPrev <==> j < lwd <= k + 1
    {
      hide Nodes, Chain.Holds;
      assert chain == v.Drop(k).chains[0];
      forall i | k < i < |v.chains| ensures v.chains[i] != chain {
        SegDistinct(chain, v.Drop(k), 0, i - k, null);
      }
    }

    /** Copies the whole of chain `k` behind the bytes of `tmp`. */
    method PullStep(tmp: Chain, chain: Chain, left: nat, ghost k: nat, ghost n: nat) returns (next: Chain?, left': nat)
      requires Pulling(tmp, chain, left, k, n) && k < |v.chains| && |v.datas[k]| <= left
      modifies tmp`off, tmp.buffer
      ensures Pulling(tmp, next, left', k + 1, n) && left' <= left
    {
      hide Nodes, Flatten, Chain.Holds, Placed;
      SegTail(chain, v, k, null);
      chain.HoldsOff(v.datas[k]);
      FlattenPiece(v.datas, k);
      tmp.HoldsOff(Contents()[..n - left]);
      SliceJoin(Contents(), 0, n - left, n - left + chain.off);
      tmp.Put(chain.Data(), Contents()[..n - left]);
      left' := left - chain.off;
      tmp.HoldsOff(Contents()[..n - left']);
      SegSplit(chain, v.Drop(k), 1, null);
      next := chain.next;
      SegTail(next, v, k + 1, null);
    }

    /** Takes the last `left` bytes that evbuffer_pullup needs from the next chain. */
    method PullPart(tmp: Chain, chain: Chain, left: nat, ghost k: nat, ghost n: nat)
      requires Pulling(tmp, chain, left, k, n) && k < |v.chains| && left < |v.datas[k]|
      modifies tmp`off, tmp.buffer, chain`off, chain`misalign
      ensures tmp.Holds(Contents()[..n])
      ensures Seg(chain, v.Drop(k).With(0, v.datas[k][left..]), null)
    {
      hide Nodes, Flatten, Chain.Holds, Placed;
      SegTail(chain, v, k, null);
      chain.HoldsOff(v.datas[k]);
      FlattenPiece(v.datas, k);
      PieceSlice(v.datas, k, 0, left);
      SliceJoin(Contents(), 0, n - left, n);
      tmp.Put(chain.Data()[..left], Contents()[..n - left]);
      ConsumeAt(chain, left, chain, v.Drop(k), 0, null);
    }

    /** The end of evbuffer_pullup: takes `left` bytes of the next chain and puts `tmp` in front. */
    method PullFinish(tmp: Chain, chain: Chain?, left: nat, ghost k: nat, ghost n: nat) returns (ghost w: View)
      requires Pulling(tmp, chain, left, k, n) && v.Wf() && k <= |v.chains| && last == v.Before(|v.chains|)
      requires if k < |v.chains| then left < |v.datas[k]| else left == 0
      modifies this`first, this`last, tmp, tmp.buffer
      modifies (if chain == null then {} else {chain})`off, (if chain == null then {} else {chain})`misalign
      ensures w.chains == [tmp] + v.Drop(k).chains && w.datas == Pulled(v.datas, k, left)
      ensures Seg(first, w, null) && w.Wf() && first == tmp && last == w.Before(|w.chains|)
      ensures n <= |Flatten(v.datas)| && w.datas[0] == Contents()[..n]
    {
      hide Nodes, Flatten, Chain.Holds, Placed;
      SegTail(chain, v, k, null);
      w := v.Drop(k);
      if chain != null {
        PullPart(tmp, chain, left, k, n);
        w := w.With(0, v.datas[k][left..]);
      } else {
        last := tmp;
      }
      LinkFront(tmp, chain, Contents()[..n], w, null);
      first := tmp;
      w := View([tmp] + w.chains, [Contents()[..n]] + w.datas, w.base - 1);
      SegHead(first, w, null);
    }

    /** Where evbuffer_pullup leaves `last_with_datap`. */
    method PullLwd(tmp: Chain, removedLwd: bool, removedLwdp: bool, ghost j: nat, ghost k: nat, ghost left: nat,
        ghost w: View)
      requires
        && v.Wf()
        && j <= k <= |v.chains|
        && Placed(v.datas, lwd)
        && 0 < lwd < |v.chains|
        && lwdPrev == v.chains[lwd - 1]
      requires if k < |v.chains| then left < |v.datas[k]| else left == 0
      requires 0 < |Flatten(v.datas[..k])| + left <= |Flatten(v.datas)|
      requires w.chains == [tmp] + v.Drop(k).chains && w.datas == Pulled(v.datas, k, left)
      requires Seg(first, w, null) && first == tmp
      requires removedLwd <==> lwd < k
      requires removedLwdp <==> j < lwd <= k
      requires j < lwd || (lwd == 1 && lwdPrev == tmp)
      modifies this`lwdPrev, this`v, this`lwd
      ensures v == w && Lwd() && Contents() == old(Contents()) && Seg(first, v, null)
    {
      hide Nodes, Flatten, Chain.Holds, Placed, Pulled;
      PulledPlaced(v.datas, lwd, k, left);
      SegHead(first, w, null);
      SegAt(first, w, 0, null);
      if k < |v.chains| { SegAt(first, w, 1, null); }
      PulledSecond(v.datas, lwd, k, left);
      if removedLwd {
        lwdPrev := null;
      } else if removedLwdp {
        lwdPrev := if first.next != null && first.next.off != 0 then first else null;
      }
      lwd := if lwd < k then 0 else lwd - k + 1;
      v := w;
    }

    /** evbuffer_pullup; the result is the chain whose data starts with the bytes asked for. */
    method Pullup(size: int) returns (r: Chain?)
      requires Valid()
      modifies Repr()
      ensures Valid() && fresh(Repr() - old(Repr()))
      ensures freezeStart == old(freezeStart) && freezeEnd == old(freezeEnd)
      ensures Contents() == old(Contents())
      ensures var n := if size < 0 then |Contents()| else size;
              && (n <= MAX_ALLOC ==> (r != null <==> 0 < n <= |Contents()|))
              && (r != null ==> 0 < n <= |Contents()| && v.chains != [] && r == v.chains[0] && n <= |v.datas[0]|)
    {
      hide Nodes, Flatten, Chain.Holds;
      var n := if size < 0 then totalLen else size;
      if n == 0 || n > totalLen {
        return null;
      }
      SegHead(first, v, null);
      PlacedLength(v.datas, lwd);
      var chain := first;
      SegAt(first, v, 0, null);
      if chain.off >= n {
        return chain;
      }
      r := PullInto(chain, n);
    }

    /** evbuffer_pullup when the first chain does not hold enough. */
    method PullInto(chain: Chain, n: nat) returns (r: Chain?)
      requires Valid() && v.chains != [] && chain == v.chains[0] && chain.off < n <= |Contents()|
      modifies Repr()
      ensures Valid() && fresh(Repr() - old(Repr()))
      ensures freezeStart == old(freezeStart) && freezeEnd == old(freezeEnd)
      ensures Contents() == old(Contents())
      ensures n <= MAX_ALLOC ==> r != null
      ensures r != null ==> v.chains != [] && v.Wf() && r == v.chains[0] && v.datas[0] == Contents()[..n]
    {
      hide Nodes, Flatten, Chain.Holds;
      SegHead(first, v, null);
      SegAt(first, v, 0, null);
      chain.HoldsOff(v.datas[0]);
      FlattenWhole(v.datas);
      FlattenPiece(v.datas, 0);
      PlacedLength(v.datas, lwd);
      DerefAt(lwd);
      if chain.buffer.Length - chain.misalign >= n {
        PullHere(chain, n);
        return chain;
      }
      r := PullNew(chain, n);
    }

    /** evbuffer_pullup into the room of the first chain. */
    method PullHere(chain: Chain, n: nat)
      requires Valid() && v.Wf() && v.chains != [] && chain == v.chains[0] && |v.datas[0]| < n <= |Contents()|
      requires 0 < lwd < |v.chains| && Deref(lwdPrev) == v.chains[lwd] && chain.buffer.Length - chain.misalign >= n
      modifies Repr()
      ensures Valid() && fresh(Repr() - old(Repr()))
      ensures freezeStart == old(freezeStart) && freezeEnd == old(freezeEnd)
      ensures Contents() == old(Contents())
      ensures v.chains != [] && v.Wf() && chain == v.chains[0] && v.datas[0] == Contents()[..n]
    {
      hide Nodes, Flatten, Chain.Holds;
      SegHead(first, v, null);
      SegAt(first, v, 0, null);
      chain.HoldsOff(v.datas[0]);
      FlattenWhole(v.datas);
      FlattenPiece(v.datas, 0);
      SegOpen(first, v, 0, null);
      assert chain.off == |v.datas[0]|;
      StartPulling(chain, chain.next, 1, v.datas[0], n);
      ghost var k := PullWith(chain, chain.next, n - chain.off, 1, n);
    }

    /** evbuffer_pullup into a new chain. */
    method PullNew(chain: Chain, n: nat) returns (r: Chain?)
      requires Valid() && v.Wf() && v.chains != [] && chain == v.chains[0] && 0 < n <= |Contents()|
      requires 0 < lwd < |v.chains| && Deref(lwdPrev) == v.chains[lwd]
      modifies Repr()
      ensures Valid() && fresh(Repr() - old(Repr()))
      ensures freezeStart == old(freezeStart) && freezeEnd == old(freezeEnd)
      ensures Contents() == old(Contents())
      ensures n <= MAX_ALLOC ==> r != null
      ensures r != null ==> v.chains != [] && v.Wf() && r == v.chains[0] && v.datas[0] == Contents()[..n]
    {
      hide Nodes, Flatten, Chain.Holds;
      SegHead(first, v, null);
      FlattenWhole(v.datas);
      r := ChainNew(n);
      if r != null {
        assert v.Drop(0) == v;
        StartPulling(r, chain, 0, [], n);
        ghost var k := PullWith(r, chain, n, 0, n);
      }
    }

    /** evbuffer_pullup into `tmp`, which holds the bytes of the first `j` chains. */
    method PullWith(tmp: Chain, chain: Chain?, need: nat, ghost j: nat, ghost n: nat) returns (ghost k: nat)
      requires Valid() && Pulling(tmp, chain, need, j, n) && v.Wf() && j <= lwd < |v.chains| && 0 < lwd && n > 0
      requires j < lwd || lwdPrev == tmp
      requires j == 0 || (j == 1 && tmp == v.chains[0])
      requires Deref(lwdPrev) == v.chains[lwd]
      modifies this`first, this`last, this`lwdPrev, this`v, this`lwd, tmp, tmp.buffer, v.chains`off, v.chains`misalign
      ensures Valid() && Contents() == old(Contents()) && k <= |old(v).chains| && v.chains == [tmp] + old(v).chains[k..]
      ensures v.chains != [] && v.Wf() && v.chains[0] == tmp && v.datas[0] == Contents()[..n]
    {
      hide Seg, Flatten, Chain.Holds, View.Bytes, Placed, Pulled, Pulling;
      assert Contents() == Flatten(v.datas) by { v.BytesOf(); }
      var chain', left, removedLwd, removedLwdp;
      chain', left, removedLwd, removedLwdp, k := PullLoop(tmp, chain, Deref(lwdPrev), need, j, n);
      PullingAt(tmp, chain', left, k, n);
      ghost var w := PullFinish(tmp, chain', left, k, n);
      PullLwd(tmp, removedLwd, removedLwdp, j, k, left, w);
    }

    /** No chain or data area is shared with `that`. */
    ghost predicate DisjointFrom(that: Evbuffer)
      reads this`v, that`v
    {
      && this != that
      && (forall i :: 0 <= i < |that.v.chains| ==> that.v.chains[i] !in v.chains)
      && Buffers(v) !! Buffers(that.v)
    }

    /** COPY_CHAIN. */
    method CopyChain(src: Evbuffer)
      requires src.Valid() && DisjointFrom(src)
      modifies this`first, this`last, this`lwdPrev, this`totalLen, this`v, this`lwd
      ensures Valid() && v == src.v && Contents() == src.Contents()
    {
      hide Nodes, Flatten, Chain.Holds;
      first, last, lwdPrev, totalLen := src.first, src.last, src.lwdPrev, src.totalLen;
      v, lwd := src.v, src.lwd;
    }

    /** `*chp = head` at the end of the list, for a list that is not part of any buffer any more. */
    method AttachList(chp: Chain?, head: Chain?, ghost w: View)
      requires Seg(first, v, null) && chp == v.Before(|v.chains|) && Seg(head, w, null)
      requires (forall i :: 0 <= i < |w.chains| ==> w.chains[i] !in v.chains) && Buffers(v) !! Buffers(w)
      modifies this`first, this`v, v.chains`next, w.chains`rank
      ensures v == old(v).Plus(w) && Seg(first, v, null)
    {
      hide Nodes, Flatten, Chain.Holds;
      DerefAt(|v.chains|);
      SetNext(chp, head, v);
      Rerank(head, w, null, v.base + |v.chains|);
      SegJoin(first, v, head, w.(base := v.base + |v.chains|), null);
      v := v.Plus(w);
    }

    /** APPEND_CHAIN. */
    method AppendChain(src: Evbuffer)
      requires Valid() && src.Valid() && DisjointFrom(src) && src.Contents() != []
      modifies this`first, this`last, this`lwdPrev, this`totalLen, this`v, this`lwd, v.chains`next, src.v.chains`rank
      ensures Valid() && Contents() == old(Contents()) + old(src.Contents())
      ensures exists k :: 0 <= k <= |old(v).chains| && v.chains == old(v).chains[..k] + src.v.chains
    {
      hide Seg, Flatten, Chain.Holds, Placed, Used;
      SegHead(src.first, src.v, null);
      SegHead(first, v, null);
      TrimPlaced(v.datas, lwd);
      var chp := FreeTrailingEmptyChains();
      JoinPlaced(v.datas, src.v.datas, src.lwd);
      ghost var n := |v.chains|;
      AttachList(chp, src.first, src.v);
      Settle(src.last, if src.lwdPrev == null then chp else src.lwdPrev, totalLen + src.totalLen, n + src.lwd);
    }

    /** Sets the fields that describe the list. */
    method Settle(l: Chain?, p: Chain?, total: nat, ghost k: nat)
      requires Seg(first, v, null) && v.Wf() && Placed(v.datas, k) && l == v.Before(|v.chains|) && total == |Contents()|
      requires p == (if k == 0 then null else if k <= |v.chains| then v.chains[k - 1] else null)
      modifies this`last, this`lwdPrev, this`totalLen, this`lwd
      ensures Valid() && last == l && lwdPrev == p && totalLen == total && lwd == k
    {
      hide Nodes, Flatten, Chain.Holds, Placed;
      last, lwdPrev, totalLen, lwd := l, p, total, k;
    }

    /** evbuffer_add_buffer. */
    method AddBuffer(inbuf: Evbuffer) returns (ok: bool)
      requires Valid() && inbuf.Valid() && (inbuf == this || DisjointFrom(inbuf))
      modifies Repr(), inbuf.Repr()
      ensures Valid() && inbuf.Valid() && (inbuf == this || DisjointFrom(inbuf))
      ensures Repr() + inbuf.Repr() <= old(Repr() + inbuf.Repr())
      ensures ok <==> old(inbuf.Contents()) == [] || inbuf == this || !(old(freezeEnd) || old(inbuf.freezeStart))
      ensures if ok && inbuf != this
              then Contents() == old(Contents()) + old(inbuf.Contents()) && inbuf.Contents() == []
              else Contents() == old(Contents()) && inbuf.Contents() == old(inbuf.Contents())
      ensures freezeStart == old(freezeStart) && freezeEnd == old(freezeEnd)
      ensures inbuf.freezeStart == old(inbuf.freezeStart) && inbuf.freezeEnd == old(inbuf.freezeEnd)
    {
      hide Nodes, Flatten, Chain.Holds, Seg, Lwd, View.Bytes;
      if inbuf.totalLen == 0 || this == inbuf {
        return true;
      }
      if freezeEnd || inbuf.freezeStart {
        return false;
      }
      if totalLen == 0 {
        CopyChain(inbuf);
      } else {
        AppendChain(inbuf);
      }
      inbuf.Zero();
      return true;
    }

    /** All of `Valid` except that a chain before the last one with data may be empty. */
    ghost predicate Weak()
      reads this, v.chains, set c: Chain | c in v.chains :: c.buffer
    {
      && Seg(first, v, null)
      && 0 <= lwd < |v.datas| && v.datas[lwd] != [] && (forall i :: lwd < i < |v.datas| ==> v.datas[i] == [])
      && lwdPrev == (if lwd == 0 then null else if lwd <= |v.chains| then v.chains[lwd - 1] else null)
      && last == v.Before(|v.chains|)
      && totalLen == |Contents()|
    }

    /** PREPEND_CHAIN. */
    method PrependChain(src: Evbuffer)
      requires Valid() && src.Valid() && DisjointFrom(src) && src.Contents() != [] && Contents() != []
      modifies this`first, this`lwdPrev, this`totalLen, this`v, this`lwd, src.v.chains`next, src.v.chains`rank
      ensures Weak() && Contents() == old(src.Contents()) + old(Contents())
      ensures v.chains == src.v.chains + old(v).chains && src.v == old(src.v)
      ensures Placed(v.datas, lwd) <==> old(src.last.off) > 0
    {
      hide Nodes, Flatten, Chain.Holds, Placed;
      SegHead(src.first, src.v, null);
      SegHead(first, v, null);
      FrontJoin(src.v.datas, src.lwd, v.datas, lwd);
      SegAt(src.first, src.v, |src.v.chains| - 1, null);
      ghost var w := src.v.(base := v.base - |src.v.chains|);
      assert src.last.off > 0 <==> src.v.datas[|src.v.datas| - 1] != [];
      assert w.Plus(v).datas == src.v.datas + v.datas;
      LinkInFront(src, w);
      PrependFields(src.first, src.last, src.totalLen, |src.v.chains|, w.Plus(v));
    }

    /** The last chain of `src` leads to the first one here. */
    method LinkInFront(src: Evbuffer, ghost w: View)
      requires
        && Valid()
        && src.Valid()
        && DisjointFrom(src)
        && src.v.chains != []
        && w == src.v.(base := v.base - |src.v.chains|)
      modifies src.v.chains`next, src.v.chains`rank
      ensures v.Wf() && w.Wf() && Seg(src.first, w.Plus(v), null)
    {
      hide Nodes, Flatten, Chain.Holds, Placed;
      SegHead(src.first, src.v, null);
      SegHead(first, v, null);
      SegAt(src.first, src.v, |src.v.chains| - 1, null);
      Redirect(src.last, first, src.first, src.v);
      Rerank(src.first, src.v, first, v.base - |src.v.chains|);
      SegJoin(src.first, w, first, v, null);
    }

    /** Sets the fields that describe a list with `n` chains in front of the old one. */
    method PrependFields(head: Chain?, l: Chain?, total: nat, ghost n: nat, ghost w: View)
      requires Seg(head, w, null) && w.Wf() && 0 < n <= |w.chains| && l == w.chains[n - 1] && w.chains[n..] == v.chains
      requires
        && Lwd()
        && lwd < |v.chains|
        && w.datas[n + lwd] != []
        && forall i :: n + lwd < i < |w.datas| ==> w.datas[i] == []
      requires last == v.Before(|v.chains|) && totalLen + total == |w.Bytes()|
      modifies this`first, this`lwdPrev, this`totalLen, this`v, this`lwd
      ensures Weak() && v == w && lwd == n + old(lwd)
    {
      hide Nodes, Flatten, Chain.Holds, Placed;
      first := head;
      totalLen := totalLen + total;
      if lwdPrev == null {
        lwdPrev := l;
      }
      lwd := n + lwd;
      v := w;
    }

    /** evbuffer_prepend_buffer. */
    method PrependBuffer(inbuf: Evbuffer) returns (ok: bool)
      requires Valid() && inbuf.Valid() && (inbuf == this || DisjointFrom(inbuf))
      modifies Repr(), inbuf.Repr()
      ensures inbuf.Valid() && (inbuf == this || DisjointFrom(inbuf))
      ensures ok <==> old(inbuf.Contents()) == [] || inbuf == this || !(old(freezeStart) || old(inbuf.freezeStart))
      ensures if ok && inbuf != this
              then Contents() == old(inbuf.Contents()) + old(Contents()) && inbuf.Contents() == []
              else Contents() == old(Contents()) && inbuf.Contents() == old(inbuf.Contents())
      ensures Valid() || Weak()
      ensures Valid() <==> !ok || inbuf == this || old(Contents()) == [] || old(inbuf.Contents()) == []
                           || (old(inbuf.last) != null && old(inbuf.last.off) > 0)
    {
      hide Nodes, Flatten, Chain.Holds, Placed;
      if inbuf.totalLen == 0 || this == inbuf {
        return true;
      }
      if freezeStart || inbuf.freezeStart {
        return false;
      }
      SegHead(inbuf.first, inbuf.v, null);
      PlacedLength(inbuf.v.datas, inbuf.lwd);
      if totalLen == 0 {
        CopyChain(inbuf);
      } else {
        PrependChain(inbuf);
      }
      inbuf.Zero();
      return true;
    }

    /** advance_last_with_data. */
    method AdvanceLastWithData()
      requires Seg(first, v, null) && v.Wf() && (v.chains == [] ==> lwd == 0) && (v.chains != [] ==> lwd < |v.chains|)
      requires lwdPrev == v.Before(lwd)
      modifies this`lwdPrev, this`lwd
      ensures old(lwd) <= lwd && (v.chains == [] ==> lwd == 0) && (v.chains != [] ==> lwd < |v.chains|)
      ensures lwdPrev == v.Before(lwd)
      ensures forall i :: old(lwd) < i <= lwd ==> v.datas[i] != []
      ensures lwd + 1 < |v.datas| ==> v.datas[lwd + 1] == []
    {
      hide Nodes, Flatten, Chain.Holds;
      SegHead(first, v, null);
      DerefAt(lwd);
      if Deref(lwdPrev) == null {
        return;
      }
      var p := lwdPrev;
      ghost var k := lwd;
      SegAt(first, v, k, null);
      if k + 1 < |v.chains| { SegAt(first, v, k + 1, null); }
      while Deref(p).next != null && Deref(p).next.off != 0
        invariant
          && Seg(first, v, null)
          && lwd == old(lwd) <= k < |v.chains|
          && p == v.Before(k)
          && Deref(p) == v.chains[k]
        invariant Deref(p).next == v.At(k + 1)
        invariant k + 1 < |v.chains| ==> v.chains[k + 1].off == |v.datas[k + 1]|
        invariant forall i :: lwd < i <= k ==> v.datas[i] != []
        decreases |v.chains| - k
      {
        p := Deref(p);
        k := k + 1;
        DerefAt(k);
        SegAt(first, v, k, null);
        if k + 1 < |v.chains| { SegAt(first, v, k + 1, null); }
      }
      lwdPrev := p;
      lwd := k;
    }

    /** Splits off the first `k` chains, which end in `previous`. */
    method Detach(chain: Chain, previous: Chain, lwdp: Chain?, nread: nat, ghost k: nat)
      requires Valid() && v.Wf() && 0 < k <= lwd < |v.chains| && chain == v.chains[k] && previous == v.chains[k - 1]
      requires nread == |Flatten(v.datas[..k])|
      requires lwdp == if k == lwd then null else lwdPrev
      modifies this`first, this`lwdPrev, this`totalLen, this`v, this`lwd, previous`next
      ensures Valid() && v == old(v).Drop(k) && lwd == old(lwd) - k
      ensures Seg(old(first), old(v).Take(k), null)
      ensures nread <= |old(Contents())| && Contents() == old(Contents())[nread..]
      ensures old(v).Take(k).Bytes() == old(Contents())[..nread]
      ensures forall i :: 0 <= i < k ==> old(v).datas[i] != []
    {
      hide Nodes, Flatten, Chain.Holds, Placed;
      SegHead(first, v, null);
      SegAt(first, v, k - 1, null);
      SegSplit(first, v, k, null);
      SegSplitDistinct(first, v, k, null);
      TakePlaced(v.datas, lwd, k);
      Redirect(previous, null, first, v.Take(k));
      first := chain;
      totalLen := totalLen - nread;
      lwdPrev := lwdp;
      lwd := lwd - k;
      v := v.Drop(k);
    }

    lemma HeadKnown()
      requires Seg(first, v, null)
      ensures first == v.At(0) && v.Wf()
    {
      hide Nodes;
      SegHead(first, v, null);
    }

    /** Puts a list of chains that all hold data at the end. */
    method Receive(head: Chain?, previous: Chain, nread: nat, ghost w: View)
      requires Valid() && Seg(head, w, null) && w.Wf() && w.chains != [] && previous == w.chains[|w.chains| - 1]
      requires (forall i :: 0 <= i < |w.chains| ==> w.chains[i] !in v.chains) && Buffers(v) !! Buffers(w)
      requires nread == |w.Bytes()| && forall i :: 0 <= i < |w.datas| ==> w.datas[i] != []
      modifies this`first, this`last, this`lwdPrev, this`totalLen, this`v, this`lwd, v.chains`next, w.chains`rank
      ensures Valid() && Contents() == old(Contents()) + w.Bytes()
      ensures exists k :: 0 <= k <= |old(v).chains| && v.chains == old(v).chains[..k] + w.chains
    {
      hide Seg, Flatten, Chain.Holds, Placed;
      ListBehind(head, w);
      AdvanceLastWithData();
      assert lwd == |v.chains| - 1;
      HeadKnown();
      Settle(previous, lwdPrev, totalLen + nread, lwd);
    }

    /** The list takes the place of the empty chains at the end. */
    method ListBehind(head: Chain?, ghost w: View)
      requires Valid() && Seg(head, w, null) && w.Wf() && w.chains != []
      requires (forall i :: 0 <= i < |w.chains| ==> w.chains[i] !in v.chains) && Buffers(v) !! Buffers(w)
      requires forall i :: 0 <= i < |w.datas| ==> w.datas[i] != []
      modifies this`first, this`v, v.chains`next, w.chains`rank
      ensures
        && Seg(first, v, null)
        && v.Wf()
        && Contents() == old(Contents()) + w.Bytes()
        && Placed(v.datas, |v.datas| - 1)
      ensures exists k :: 0 <= k <= |old(v).chains| && v.chains == old(v).chains[..k] + w.chains
      ensures (forall i :: 0 <= i < |v.datas| ==> v.datas[i] != []) && lwd < |v.chains| && lwdPrev == v.Before(lwd)
    {
      hide Nodes, Flatten, Chain.Holds, Placed, Used;
      SegHead(first, v, null);
      TrimPlaced(v.datas, lwd);
      var chp := FreeTrailingEmptyChains();
      ghost var ds := v.datas;
      AllData(ds, w.datas);
      AttachList(chp, head, w);
      assert v.datas == ds + w.datas;
    }

    /** Moves the first `k` chains, ending in `previous`, to the end of `dst`. */
    method MoveChains(dst: Evbuffer, chain: Chain, previous: Chain, lwdp: Chain?, nread: nat, ghost k: nat)
      requires Valid() && dst.Valid() && DisjointFrom(dst) && v.Wf()
      requires 0 < k <= lwd < |v.chains| && chain == v.chains[k] && previous == v.chains[k - 1]
      requires nread == |Flatten(v.datas[..k])|
      requires lwdp == if k == lwd then null else lwdPrev
      modifies this`first, this`lwdPrev, this`totalLen, this`v, this`lwd, v.chains`next, v.chains`rank
      modifies dst`first, dst`last, dst`lwdPrev, dst`totalLen, dst`v, dst`lwd, dst.v.chains`next
      ensures Valid() && dst.Valid() && DisjointFrom(dst) && v == old(v).Drop(k) && lwd == old(lwd) - k
      ensures nread <= |old(Contents())|
      ensures dst.Contents() == old(dst.Contents()) + old(Contents())[..nread]
      ensures Contents() == old(Contents())[nread..]
      ensures Repr() <= old(Repr()) && dst.Repr() <= old(Repr() + dst.Repr())
    {
      hide Seg, Lwd, Flatten, Chain.Holds, Used;
      ghost var w := v.Take(k);
      var head := first;
      ghost var was, dwas := v, dst.v;
      SegSplitDistinct(first, v, k, null);
      Detach(chain, previous, lwdp, nread, k);
      dst.Receive(head, previous, nread, w);
      MovedApart(was, k, dwas, dst.v);
    }

    /** evbuffer_remove_buffer. */
    method RemoveBuffer(dst: Evbuffer, datlen: nat) returns (n: int)
      requires Valid() && dst.Valid() && (dst == this || DisjointFrom(dst))
      modifies Repr(), dst.Repr()
      ensures Valid() && dst.Valid() && (dst == this || DisjointFrom(dst))
      ensures var c, k := old(Contents()), if dst == this then 0 else Min(datlen, |old(Contents())|);
        if datlen > 0 && dst != this && (old(dst.freezeEnd) || old(freezeStart))
        then n == -1 && Contents() == c && dst.Contents() == old(dst.Contents())
        else
          && n == ToInt(k) && Contents() == c[k..] && (k == 0 ==> dst.Contents() == old(dst.Contents()))
          && (|old(dst.Contents())| + k <= SIZE_MAX && dst != this ==> dst.Contents() == old(dst.Contents()) + c[..k])
      ensures fresh(Repr() + dst.Repr() - old(Repr() + dst.Repr()))
      ensures freezeStart == old(freezeStart) && freezeEnd == old(freezeEnd)
      ensures dst.freezeStart == old(dst.freezeStart) && dst.freezeEnd == old(dst.freezeEnd)
    {
      hide Nodes, Flatten, Chain.Holds, ToInt;
      if datlen == 0 || dst == this {
        return 0;
      }
      if dst.freezeEnd || freezeStart {
        return -1;
      }
      if datlen >= totalLen {
        n := ToInt(totalLen);
        var ok := dst.AddBuffer(this);
        return;
      }
      n := RemovePart(dst, datlen);
      n := ToInt(n);
    }

    /** evbuffer_remove_buffer when some bytes stay behind. */
    method RemovePart(dst: Evbuffer, datlen: nat) returns (n: int)
      requires Valid() && dst.Valid() && DisjointFrom(dst) && 0 < datlen < totalLen && !dst.freezeEnd
      modifies Repr(), dst.Repr()
      ensures Valid() && dst.Valid() && DisjointFrom(dst)
      ensures n == datlen && Contents() == old(Contents())[n..]
      ensures fresh(Repr() + dst.Repr() - old(Repr() + dst.Repr()))
      ensures freezeStart == old(freezeStart) && freezeEnd == old(freezeEnd)
      ensures dst.freezeStart == old(dst.freezeStart) && dst.freezeEnd == old(dst.freezeEnd)
      ensures |old(dst.Contents())| + n <= SIZE_MAX ==> dst.Contents() == old(dst.Contents()) + old(Contents())[..n]
    {
      hide Nodes, Flatten, Chain.Holds, Placed, View.Bytes, Repr, DisjointFrom;
      SegHead(first, v, null);
      var chain, previous, left, lwdp, k := FindKept(datlen);
      var nread := datlen - left;
      ghost var c, d := Contents(), dst.Contents();
      label Found:
      MoveHead(dst, chain, previous, lwdp, nread, k);
      ghost var rest := Repr() + dst.Repr();
      assert rest <= old(Repr() + dst.Repr());
      label Moved:
      CopyTail(dst, chain, left);
      forall o: object | o in Repr() + dst.Repr() && o !in rest ensures fresh(o) {
        assert fresh@Moved(o);
        assert fresh@Found(o);
      }
      SliceTwice(c, d, nread, left);
      n := nread + left;
    }

    method MoveHead(dst: Evbuffer, chain: Chain, previous: Chain?, lwdp: Chain?, nread: nat, ghost k: nat)
      requires Valid() && dst.Valid() && DisjointFrom(dst) && v.Wf() && Contents() != []
      requires k <= lwd && k < |v.chains| && chain == v.chains[k] && previous == v.Before(k)
      requires nread == |Flatten(v.datas[..k])|
      requires lwdp == if k == lwd then null else lwdPrev
      modifies Repr(), dst.Repr()
      ensures Valid() && dst.Valid() && DisjointFrom(dst) && v == old(v).Drop(k) && nread <= |old(Contents())|
      ensures dst.Contents() == old(dst.Contents()) + old(Contents())[..nread] && Contents() == old(Contents())[nread..]
      ensures Repr() + dst.Repr() <= old(Repr() + dst.Repr())
      ensures freezeStart == old(freezeStart) && freezeEnd == old(freezeEnd)
      ensures dst.freezeStart == old(dst.freezeStart) && dst.freezeEnd == old(dst.freezeEnd)
    {
      hide Nodes, Flatten, Chain.Holds, Placed, Used, Valid, DisjointFrom;
      MoveWhole(dst, chain, previous, lwdp, nread, k);
    }

    method CopyTail(dst: Evbuffer, chain: Chain, left: nat)
      requires Valid() && dst.Valid() && DisjointFrom(dst) && !dst.freezeEnd
      requires v.Wf() && v.chains != [] && chain == v.chains[0] && left < |v.datas[0]|
      modifies Repr(), dst.Repr()
      ensures Valid() && dst.Valid() && DisjointFrom(dst) && fresh(Repr() + dst.Repr() - old(Repr() + dst.Repr()))
      ensures left <= |old(Contents())| && Contents() == old(Contents())[left..]
      ensures freezeStart == old(freezeStart) && freezeEnd == old(freezeEnd)
      ensures dst.freezeStart == old(dst.freezeStart) && dst.freezeEnd == old(dst.freezeEnd)
      ensures |old(dst.Contents())| + left <= SIZE_MAX ==>
        dst.Contents() == old(dst.Contents()) + old(Contents())[..left]
    {
      hide Nodes, Flatten, Chain.Holds, Placed, Valid, DisjointFrom;
      RemoveTail(dst, chain, left);
    }

    /** Moves the first `k` chains, if any. */
    method MoveWhole(dst: Evbuffer, chain: Chain, previous: Chain?, lwdp: Chain?, nread: nat, ghost k: nat)
      requires Valid() && dst.Valid() && DisjointFrom(dst) && v.Wf() && Contents() != []
      requires k <= lwd && k < |v.chains| && chain == v.chains[k] && previous == v.Before(k)
      requires nread == |Flatten(v.datas[..k])|
      requires lwdp == if k == lwd then null else lwdPrev
      modifies this`first, this`lwdPrev, this`totalLen, this`v, this`lwd, v.chains`next, v.chains`rank
      modifies dst`first, dst`last, dst`lwdPrev, dst`totalLen, dst`v, dst`lwd, dst.v.chains`next
      ensures Valid() && dst.Valid() && DisjointFrom(dst) && v == old(v).Drop(k)
      ensures nread <= |old(Contents())|
      ensures dst.Contents() == old(dst.Contents()) + old(Contents())[..nread]
      ensures Contents() == old(Contents())[nread..]
      ensures Repr() <= old(Repr()) && dst.Repr() <= old(Repr() + dst.Repr())
    {
      hide Nodes, Flatten, Chain.Holds, Placed, Used;
      PlacedData(v.datas, lwd);
      if nread > 0 {
        FlattenWhole(v.datas);
        MoveChains(dst, chain, previous, lwdp, nread, k);
      } else {
        FlattenEmptyPrefix(v.datas, lwd, k);
      }
    }

    /** Copies the first `left` bytes to `dst`: the part of evbuffer_remove_buffer that copies. */
    method RemoveTail(dst: Evbuffer, chain: Chain, left: nat)
      requires Valid() && dst.Valid() && DisjointFrom(dst) && !dst.freezeEnd
      requires v.Wf() && v.chains != [] && chain == v.chains[0] && left < |v.datas[0]|
      modifies this`totalLen, this`v, chain`off, chain`misalign, dst.Repr()
      ensures Valid() && dst.Valid() && DisjointFrom(dst) && fresh(dst.Repr() - old(dst.Repr()))
      ensures left <= |old(Contents())| && Contents() == old(Contents())[left..]
      ensures Repr() == old(Repr()) && dst.freezeStart == old(dst.freezeStart) && dst.freezeEnd == old(dst.freezeEnd)
      ensures |old(dst.Contents())| + left <= SIZE_MAX ==>
        dst.Contents() == old(dst.Contents()) + old(Contents())[..left]
    {
      hide Nodes, Flatten, Chain.Holds, Placed, Buffers;
      SegAt(first, v, 0, null);
      chain.HoldsOff(v.datas[0]);
      FlattenWhole(v.datas);
      PieceSlice(v.datas, 0, 0, left);
      AddTo(dst, chain.Data()[..left]);
      ConsumeFirst(chain, left);
    }

    /** evbuffer_add to a buffer that shares nothing with this one. */
    method AddTo(dst: Evbuffer, data: seq<Byte>)
      requires Valid() && dst.Valid() && DisjointFrom(dst) && !dst.freezeEnd && |data| <= MAX_ALLOC
      modifies dst.Repr()
      ensures Valid() && dst.Valid() && DisjointFrom(dst) && fresh(dst.Repr() - old(dst.Repr()))
      ensures v == old(v) && Contents() == old(Contents()) && Repr() == old(Repr())
      ensures dst.freezeStart == old(dst.freezeStart) && dst.freezeEnd == old(dst.freezeEnd)
      ensures |old(dst.Contents())| + |data| <= SIZE_MAX ==> dst.Contents() == old(dst.Contents()) + data
    {
      hide Nodes, Flatten, Chain.Holds, Placed;
      var ok := dst.Add(data);
    }

    /** The first chain forgets its first `n` bytes. */
    method ConsumeFirst(chain: Chain, n: nat)
      requires Valid() && v.Wf() && v.chains != [] && chain == v.chains[0] && n < |v.datas[0]|
      modifies this`totalLen, this`v, chain`off, chain`misalign
      ensures Valid() && v.chains == old(v).chains && Repr() == old(Repr())
      ensures n <= |old(Contents())| && Contents() == old(Contents())[n..]
    {
      hide Nodes, Flatten, Chain.Holds, Placed;
      DropFirst(v.datas, lwd, n);
      SegHead(first, v, null);
      ConsumeAt(chain, n, first, v, 0, null);
      totalLen := totalLen - n;
      v := v.With(0, v.datas[0][n..]);
    }
  }

  /** Buffers that share no chain own disjoint sets of objects. */
  lemma ReprsApart(a: Evbuffer, b: Evbuffer)
    requires a.DisjointFrom(b)
    ensures a.Repr() !! b.Repr()
    ensures b in b.Repr() && (set c: Chain | c in b.v.chains) <= b.Repr() && Buffers(b.v) <= b.Repr()
    ensures a in a.Repr() && (set c: Chain | c in a.v.chains) <= a.Repr() && Buffers(a.v) <= a.Repr()
  {
  }

  lemma ApartReprs(a: Evbuffer, b: Evbuffer)
    requires a.Repr() !! b.Repr()
    ensures a.DisjointFrom(b)
  {
    assert a in a.Repr() && b in b.Repr();
    assert forall c :: c in a.v.chains ==> c in a.Repr();
    forall i | 0 <= i < |b.v.chains| ensures b.v.chains[i] !in a.v.chains {
      assert b.v.chains[i] in b.Repr();
    }
  }

  lemma ReprsStill(a: Evbuffer, b: Evbuffer)
    requires a.Repr() !! b.Repr()
    ensures a in a.Repr() && (set c: Chain | c in a.v.chains) <= a.Repr() && Buffers(a.v) <= a.Repr()
    ensures a.DisjointFrom(b)
  {
    ApartReprs(a, b);
  }

  /** What evbuffer_pullup makes of the list: one chain with the first bytes, then what is left. */
  ghost function Pulled(ds: seq<seq<Byte>>, k: nat, left: nat): seq<seq<Byte>>
    requires k <= |ds| && (if k < |ds| then left < |ds[k]| else left == 0)
    requires |Flatten(ds[..k])| + left <= |Flatten(ds)|
  {
    [Flatten(ds)[..|Flatten(ds[..k])| + left]] + if k < |ds| then ds[k..][0 := ds[k][left..]] else []
  }

  lemma PulledPlaced(ds: seq<seq<Byte>>, lwd: nat, k: nat, left: nat)
    requires Placed(ds, lwd) && 0 < lwd && k <= |ds| && (if k < |ds| then left < |ds[k]| else left == 0)
    requires 0 < |Flatten(ds[..k])| + left <= |Flatten(ds)|
    ensures Placed(Pulled(ds, k, left), if lwd < k then 0 else lwd - k + 1)
    ensures Flatten(Pulled(ds, k, left)) == Flatten(ds)
    ensures lwd < k ==> k == |ds|
  {
    hide Flatten;
    var n := |Flatten(ds[..k])| + left;
    var pre := Flatten(ds)[..n];
    var es := Pulled(ds, k, left);
    if k < |ds| {
      DropPlaced(ds, lwd, k, left);
      FlattenCons(pre, ds[k..][0 := ds[k][left..]]);
      assert Flatten(ds) == pre + Flatten(ds)[n..];
    } else {
      FlattenWhole(ds);
      assert es == [pre];
      FlattenOne(pre);
    }
  }

  /** If the last chain with data comes right behind the pulled one, it still holds data. */
  lemma PulledSecond(ds: seq<seq<Byte>>, lwd: nat, k: nat, left: nat)
    requires Placed(ds, lwd) && 0 < lwd < |ds| && k <= |ds| && (if k < |ds| then left < |ds[k]| else left == 0)
    requires |Flatten(ds[..k])| + left <= |Flatten(ds)|
    ensures var es := Pulled(ds, k, left);
            |es| == |ds| - k + 1 && (k < |ds| ==> es[1] != [])
  {
  }

  lemma JoinPlaced(ds: seq<seq<Byte>>, es: seq<seq<Byte>>, lwd: nat)
    requires (forall i :: 0 <= i < |ds| ==> ds[i] != []) && Placed(es, lwd) && Flatten(es) != []
    ensures Placed(ds + es, |ds| + lwd) && lwd < |es|
    ensures Flatten(ds + es) == Flatten(ds) + Flatten(es)
  {
    FlattenConcat(ds, es);
    PlacedLength(es, lwd);
    FlattenWhole(es);
  }

  /** Two lists that hold data, one in front of the other. */
  lemma FrontJoin(ds: seq<seq<Byte>>, lwdD: nat, es: seq<seq<Byte>>, lwdE: nat)
    requires Placed(ds, lwdD) && Placed(es, lwdE) && Flatten(ds) != [] && Flatten(es) != []
    ensures lwdD < |ds| && lwdE < |es|
    ensures Flatten(ds + es) == Flatten(ds) + Flatten(es)
    ensures (ds + es)[|ds| + lwdE] != [] && forall i :: |ds| + lwdE < i < |ds + es| ==> (ds + es)[i] == []
    ensures Placed(ds + es, |ds| + lwdE) <==> ds[|ds| - 1] != []
  {
    hide Flatten;
    FlattenConcat(ds, es);
    PlacedData(ds, lwdD);
    PlacedData(es, lwdE);
    if ds[|ds| - 1] == [] {
      assert (ds + es)[|ds| - 1] == [];
    } else {
      assert lwdD == |ds| - 1;
    }
  }

  /** Contents means data in the last chain with data. */
  lemma PlacedData(ds: seq<seq<Byte>>, lwd: nat)
    requires Placed(ds, lwd) && Flatten(ds) != []
    ensures lwd < |ds| && ds[lwd] != []
  {
    PlacedLength(ds, lwd);
    FlattenWhole(ds);
  }

  lemma DropFirst(ds: seq<seq<Byte>>, lwd: nat, n: nat)
    requires Placed(ds, lwd) && ds != [] && n < |ds[0]|
    ensures n <= |Flatten(ds)|
    ensures Placed(ds[0 := ds[0][n..]], lwd) && Flatten(ds[0 := ds[0][n..]]) == Flatten(ds)[n..]
  {
    DropPlaced(ds, lwd, 0, n);
    FlattenWhole(ds);
    assert ds[0..] == ds;
  }

  lemma FlattenEmptyPrefix(ds: seq<seq<Byte>>, lwd: nat, k: nat)
    requires Placed(ds, lwd) && k <= lwd && k <= |ds| && Flatten(ds[..k]) == []
    ensures k == 0
  {
    if k > 0 {
      FlattenPiece(ds[..k], 0);
    }
  }

  lemma TakePlaced(ds: seq<seq<Byte>>, lwd: nat, k: nat)
    requires Placed(ds, lwd) && 0 < k <= lwd < |ds|
    ensures forall i :: 0 <= i < k ==> ds[i] != []
    ensures Placed(ds[k..], lwd - k)
    ensures |Flatten(ds[..k])| <= |Flatten(ds)|
    ensures
      && Flatten(ds[..k]) == Flatten(ds)[..|Flatten(ds[..k])|]
      && Flatten(ds[k..]) == Flatten(ds)[|Flatten(ds[..k])|..]
  {
    FlattenPrefixLength(ds, k);
  }

  lemma MovedApart(v: View, k: nat, w: View, w': View)
    requires v.Wf() && k <= |v.chains| && Buffers(v.Take(k)) !! Buffers(v.Drop(k))
    requires forall i, j {:trigger v.chains[i], v.chains[j]} :: 0 <= i < k <= j < |v.chains| ==>
      v.chains[i] != v.chains[j]
    requires (forall i :: 0 <= i < |w.chains| ==> w.chains[i] !in v.chains) && Buffers(v) !! Buffers(w)
    requires exists m :: 0 <= m <= |w.chains| && w'.chains == w.chains[..m] + v.Take(k).chains
    ensures forall i :: 0 <= i < |w'.chains| ==> w'.chains[i] !in v.Drop(k).chains
    ensures Buffers(v.Drop(k)) !! Buffers(w')
    ensures forall c :: c in w'.chains ==> c in w.chains || c in v.chains
    ensures Buffers(w') <= Buffers(w) + Buffers(v)
  {
    var m :| 0 <= m <= |w.chains| && w'.chains == w.chains[..m] + v.Take(k).chains;
    forall i | 0 <= i < |w'.chains| ensures w'.chains[i] !in v.Drop(k).chains {
      if i < m {
        assert w'.chains[i] == w.chains[i];
      } else {
        assert w'.chains[i] == v.chains[i - m];
      }
    }
    forall b | b in Buffers(w') ensures b !in Buffers(v.Drop(k)) {
      var i :| 0 <= i < |w'.chains| && w'.chains[i].buffer == b;
      if i < m {
        assert w.chains[i].buffer in Buffers(w);
      } else {
        assert v.Take(k).chains[i - m].buffer in Buffers(v.Take(k));
      }
    }
  }

  /** Two lists of chains that all hold data. */
  lemma AllData(ds: seq<seq<Byte>>, es: seq<seq<Byte>>)
    requires (forall i :: 0 <= i < |ds| ==> ds[i] != []) && (forall i :: 0 <= i < |es| ==> es[i] != []) && es != []
    ensures forall i :: 0 <= i < |ds + es| ==> (ds + es)[i] != []
    ensures Placed(ds + es, |ds + es| - 1) && Flatten(ds + es) == Flatten(ds) + Flatten(es)
  {
    FlattenConcat(ds, es);
  }

  lemma PrependSplit(data: seq<Byte>, k: nat, c: seq<Byte>)
    requires k <= |data|
    ensures data[..k] + (data[k..] + c) == data + c
  {
    assert data == data[..k] + data[k..];
  }

  lemma PieceSlice(ds: seq<seq<Byte>>, k: nat, a: nat, b: nat)
    requires k < |ds| && a <= b <= |ds[k]|
    ensures var o := |Flatten(ds[..k])|;
            o + b <= |Flatten(ds)| && Flatten(ds)[o + a..o + b] == ds[k][a..b]
  {
    FlattenPiece(ds, k);
    var o := |Flatten(ds[..k])|;
    assert Flatten(ds)[o + a..o + b] == Flatten(ds)[o..o + |ds[k]|][a..b];
  }

  lemma PlacedLength(ds: seq<seq<Byte>>, lwd: nat)
    requires Placed(ds, lwd)
    ensures lwd < |ds| ==> |Flatten(ds)| == |Flatten(ds[..lwd])| + |ds[lwd]|
    ensures lwd >= |ds| ==> Flatten(ds) == []
  {
    if lwd < |ds| {
      FlattenPiece(ds, lwd);
      FlattenEmpties(ds[lwd + 1..]);
    }
  }
}
