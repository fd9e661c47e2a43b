/** Making room at the end of an evbuffer, handing the room out as vectors, and committing what was read into it. */
module EvbufferRead {
  import opened Bytes
  import opened Chains
  import opened EvbufferModel

  /** The free space behind the bytes of these chains. */
  ghost function SpaceSum(cs: seq<Chain>): int
    reads cs`misalign, cs`off
  {
    if cs == [] then 0 else SpaceSum(cs[..|cs| - 1]) + cs[|cs| - 1].SpaceLen()
  }

  /** The first chain that can take bytes behind the contents: the last one with data, or the one after it. */
  ghost function FirstRoom(b: Evbuffer): nat
    reads b`v, b`lwd, b.v.chains`misalign, b.v.chains`off
  {
    if b.lwd < |b.v.chains| && b.v.chains[b.lwd].SpaceLen() == 0 then b.lwd + 1 else b.lwd
  }

  /** The `m` chains from the first with room on have space for `d` bytes. */
  ghost predicate RoomIn(b: Evbuffer, d: nat, m: nat)
    reads b`v, b`lwd, b.v.chains`misalign, b.v.chains`off
  {
    && b.lwd < |b.v.chains|
    && (b.v.chains[b.lwd].off == 0 ==> b.v.chains[b.lwd].misalign == 0)
    && FirstRoom(b) + m <= |b.v.chains|
    && d <= SpaceSum(b.v.chains[FirstRoom(b)..FirstRoom(b) + m])
    && (forall i :: FirstRoom(b) <= i < FirstRoom(b) + m ==> b.v.chains[i].SpaceLen() > 0)
  }

  /** At most `n` chains have space for `d` bytes. */
  ghost predicate Room(b: Evbuffer, d: nat, n: nat)
    reads b`v, b`lwd, b.v.chains`misalign, b.v.chains`off
  {
    exists m: nat :: m <= n && RoomIn(b, d, m)
  }

  lemma SpaceSnoc(cs: seq<Chain>, f: nat, k: nat)
    requires f <= k < |cs|
    ensures SpaceSum(cs[f..k + 1]) == SpaceSum(cs[f..k]) + cs[k].SpaceLen()
  {
    assert cs[f..k + 1][..k - f] == cs[f..k];
  }

  /** The chains before `k` have been scanned: the `used` ones from `f` on have `avail` bytes of room. */
  ghost predicate Scanned(b: Evbuffer, avail: nat, used: nat, f: nat, k: nat)
    reads b`v, b`lwd, b.v.chains`misalign, b.v.chains`off
  {
    && b.lwd <= k <= |b.v.chains| && b.lwd < |b.v.chains| && f <= k
    && avail == SpaceSum(b.v.chains[f..k]) && used == k - f
    && (forall i :: f <= i < k ==> b.v.chains[i].SpaceLen() > 0)
    && (if k == b.lwd then f == k else f == FirstRoom(b))
    && (k > b.lwd && b.v.chains[b.lwd].off == 0 ==> b.v.chains[b.lwd].misalign == 0)
  }

  /** One turn of the scanning loop of evbuffer_expand_fast_: what chain `k` adds to the room. */
  method ScanChain(b: Evbuffer, chain: Chain, avail: nat, used: nat, ghost f: nat, ghost k: nat)
    returns (avail': nat, used': nat, ghost f': nat)
    requires b.Valid() && b.lwd <= k < |b.v.chains| && chain == b.v.chains[k] && Scanned(b, avail, used, f, k)
    modifies chain`misalign
    ensures b.Valid() && used' <= used + 1
    ensures Scanned(b, avail', used', f', k + 1)
    ensures chain.next == b.v.At(k + 1)
  {
    hide Nodes, Flatten, Chain.Holds, Scanned, SpaceSum;
    SegHead(b.first, b.v, null);
    SegAt(b.first, b.v, k, null);
    chain.HoldsOff(b.v.datas[k]);
    f' := f;
    if chain.off != 0 {
      DataAt(b, k);
      var space := chain.SpaceLen();
      ScanStep(b, avail, used, f, k);
      if space != 0 {
        avail', used' := avail + space, used + 1;
      } else {
        f' := k + 1;
        avail', used' := avail, used;
      }
    } else {
      ResetScanned(b, chain, avail, used, f, k);
      ScanStep(b, avail, used, f, k);
      avail', used' := avail + chain.buffer.Length, used + 1;
    }
  }

  /** Behind the last chain with data there is none. */
  lemma DataAt(b: Evbuffer, k: nat)
    requires b.Valid() && b.lwd <= k < |b.v.chains| && b.v.chains[k].off != 0
    ensures k == b.lwd
  {
    hide Nodes, Flatten, Chain.Holds;
    SegAt(b.first, b.v, k, null);
  }

  lemma ScanStep(b: Evbuffer, avail: nat, used: nat, f: nat, k: nat)
    requires k < |b.v.chains| && Scanned(b, avail, used, f, k) && b.v.chains[k].SpaceLen() >= 0
    requires k == b.lwd || b.v.chains[k].SpaceLen() > 0
    requires k == b.lwd && b.v.chains[k].off == 0 ==> b.v.chains[k].misalign == 0
    ensures b.v.chains[k].SpaceLen() > 0 ==> Scanned(b, avail + b.v.chains[k].SpaceLen(), used + 1, f, k + 1)
    ensures b.v.chains[k].SpaceLen() == 0 ==> Scanned(b, avail, used, k + 1, k + 1)
  {
    SpaceSnoc(b.v.chains, f, k);
    EmptySum(b.v.chains, k);
    EmptySum(b.v.chains, k + 1);
  }

  /** `chain->misalign = 0` for an empty chain. */
  method ResetScanned(b: Evbuffer, chain: Chain, ghost avail: nat, ghost used: nat, ghost f: nat, ghost k: nat)
    requires b.Valid() && k < |b.v.chains| && chain == b.v.chains[k] && Scanned(b, avail, used, f, k) && chain.off == 0
    modifies chain`misalign
    ensures b.Valid() && Scanned(b, avail, used, f, k)
    ensures chain.misalign == 0 && chain.SpaceLen() == chain.buffer.Length > 0 && chain.next == b.v.At(k + 1)
  {
    hide Nodes, Flatten, Chain.Holds, Placed, SpaceSum;
    SegHead(b.first, b.v, null);
    SegAt(b.first, b.v, k, null);
    chain.HoldsOff(b.v.datas[k]);
    PrefixApart(b, f, k);
    if k > b.lwd { SegDistinct(b.first, b.v, b.lwd, k, null); }
    ResetAt(chain, 0, b.first, b.v, k, null);
    SegAt(b.first, b.v, k, null);
    assert SpaceSum(b.v.chains[f..k]) == old(SpaceSum(b.v.chains[f..k]));
  }

  lemma PrefixApart(b: Evbuffer, f: nat, k: nat)
    requires b.Valid() && f <= k < |b.v.chains|
    ensures b.v.chains[k] !in b.v.chains[f..k]
    ensures forall i :: f <= i < k ==> b.v.chains[i] != b.v.chains[k]
  {
    hide Nodes, Chain.Holds;
    forall i | f <= i < k ensures b.v.chains[i] != b.v.chains[k] {
      SegDistinct(b.first, b.v, i, k, null);
    }
  }

  /** The scanning loop of evbuffer_expand_fast_. */
  method ScanRoom(b: Evbuffer, datlen: nat, n: nat) returns (enough: bool, avail: nat, used: nat, ghost k: nat)
    requires b.Valid() && b.v.chains != [] && 2 <= n
    modifies b.v.chains`misalign
    ensures b.Valid()
    ensures enough ==> Room(b, datlen, n)
    ensures !enough ==> avail < datlen && (used == n || (used < n && k == |b.v.chains|))
    ensures !enough ==> b.lwd < k <= |b.v.chains| && Scanned(b, avail, used, FirstRoom(b), k)
  {
    hide Nodes, Flatten, Chain.Holds, SpaceSum, Scanned;
    SegHead(b.first, b.v, null);
    b.DerefAt(b.lwd);
    var chain := b.Deref(b.lwdPrev);
    avail, used, k := 0, 0, b.lwd;
    ghost var f: nat := b.lwd;
    ScanStart(b);
    while chain != null
      invariant b.Valid() && b.lwd <= k <= |b.v.chains| && chain == b.v.At(k)
      invariant Scanned(b, avail, used, f, k) && used < n
      invariant k > b.lwd ==> avail < datlen && f == FirstRoom(b)
      decreases |b.v.chains| - k
    {
      avail, used, f := ScanChain(b, chain, avail, used, f, k);
      chain, k := chain.next, k + 1;
      ScanEnd(b, avail, used, f, k, datlen);
      if avail >= datlen {
        return true, avail, used, k;
      }
      if used == n {
        return false, avail, used, k;
      }
    }
    return false, avail, used, k;
  }

  lemma ScanStart(b: Evbuffer)
    requires b.Valid() && b.v.chains != []
    ensures Scanned(b, 0, 0, b.lwd, b.lwd)
  {
    hide Nodes, Flatten;
    SegHead(b.first, b.v, null);
    EmptySum(b.v.chains, b.lwd);
  }

  lemma ScanEnd(b: Evbuffer, avail: nat, used: nat, f: nat, k: nat, d: nat)
    requires Scanned(b, avail, used, f, k) && b.lwd < k
    ensures f == FirstRoom(b) && k <= |b.v.chains|
    ensures d <= avail ==> RoomIn(b, d, used)
  {
  }

  lemma EmptySum(cs: seq<Chain>, f: nat)
    requires f <= |cs|
    ensures SpaceSum(cs[f..f]) == 0
  {
  }

  /** evbuffer_expand_fast_ when it may use one more chain. */
  method AppendRoom(b: Evbuffer, datlen: nat, avail: nat, ghost used: nat) returns (ok: bool)
    requires b.Valid() && b.v.chains != [] && avail < datlen && RoomIn(b, avail, used)
    requires FirstRoom(b) + used == |b.v.chains| && avail == SpaceSum(b.v.chains[FirstRoom(b)..])
    modifies b.Repr()
    ensures b.Valid() && fresh(b.Repr() - old(b.Repr()))
    ensures b.freezeStart == old(b.freezeStart) && b.freezeEnd == old(b.freezeEnd)
    ensures b.Contents() == old(b.Contents())
    ensures datlen <= MAX_ALLOC ==> ok
    ensures ok ==> RoomIn(b, datlen, used + 1)
    ensures ok ==> old(b.v.chains) <= b.v.chains && |b.v.chains| == |old(b.v.chains)| + 1
  {
    hide Nodes, Flatten, Chain.Holds, SpaceSum, RoomIn;
    var tmp := ChainNew(datlen - avail);
    if tmp == null {
      return false;
    }
    ok := true;
    AppendChain(b, tmp, datlen, avail, used);
  }

  method AppendChain(b: Evbuffer, tmp: Chain, ghost datlen: nat, ghost avail: nat, ghost used: nat)
    requires b.Valid() && b.v.chains != [] && RoomIn(b, avail, used)
    requires FirstRoom(b) + used == |b.v.chains| && avail == SpaceSum(b.v.chains[FirstRoom(b)..])
    requires tmp.Holds([]) && tmp.next == null && tmp !in b.v.chains && tmp.buffer !in Buffers(b.v)
    requires datlen <= avail + tmp.SpaceLen() && tmp.SpaceLen() > 0
    modifies b`first, b`last, b`v, b.v.chains`next, tmp`rank
    ensures b.Valid() && b.Contents() == old(b.Contents())
    ensures b.Repr() <= old(b.Repr()) + {tmp, tmp.buffer} && b.v.chains == old(b.v.chains) + [tmp]
    ensures RoomIn(b, datlen, used + 1)
  {
    hide Nodes, Flatten, Chain.Holds, SpaceSum, Buffers;
    PutLast(b, tmp);
    RoomGrows(b, tmp, old(b.v).chains, avail, datlen, used);
  }

  lemma RoomGrows(b: Evbuffer, tmp: Chain, cs: seq<Chain>, avail: nat, datlen: nat, used: nat)
    requires b.v.chains == cs + [tmp] && b.lwd < |cs| && FirstRoom(b) + used == |cs|
    requires cs[b.lwd].off == 0 ==> cs[b.lwd].misalign == 0
    requires avail == SpaceSum(cs[FirstRoom(b)..]) && datlen <= avail + tmp.SpaceLen() && tmp.SpaceLen() > 0
    requires forall i :: FirstRoom(b) <= i < |cs| ==> cs[i].SpaceLen() > 0
    ensures RoomIn(b, datlen, used + 1)
  {
    var f := FirstRoom(b);
    SpaceSnoc(b.v.chains, f, |cs|);
    assert b.v.chains[f..|cs|] == cs[f..];
    assert b.v.chains[f..f + (used + 1)] == b.v.chains[f..|cs| + 1];
  }

  /** `buf->last->next = tmp; buf->last = tmp` for an empty chain. */
  method PutLast(b: Evbuffer, tmp: Chain)
    requires
      && b.Valid()
      && b.v.chains != []
      && tmp.Holds([])
      && tmp.next == null
      && tmp !in b.v.chains
      && tmp.buffer !in Buffers(b.v)
    modifies b`first, b`last, b`v, b.v.chains`next, tmp`rank
    ensures b.Valid() && b.Contents() == old(b.Contents())
    ensures b.v.chains == old(b.v).chains + [tmp] && b.Repr() <= old(b.Repr()) + {tmp, tmp.buffer}
  {
    hide Nodes, Flatten, Chain.Holds;
    SegHead(b.first, b.v, null);
    EmptyPlaced(b.v.datas, b.lwd);
    b.AttachLast(b.last, tmp, []);
    b.last := tmp;
  }

  lemma EmptyPlaced(ds: seq<seq<Byte>>, lwd: nat)
    requires Placed(ds, lwd) && ds != []
    ensures Placed(ds + [[]], lwd) && Flatten(ds + [[]]) == Flatten(ds)
  {
    FlattenSnoc(ds, []);
  }

  /** evbuffer_expand_fast_ when all empty chains make way for one that is big enough. */
  method ReplaceRoom(b: Evbuffer, datlen: nat) returns (ok: bool)
    requires b.Valid() && b.lwd < |b.v.chains| && b.v.chains[b.lwd].SpaceLen() < datlen
    modifies b.Repr()
    ensures b.Valid() && fresh(b.Repr() - old(b.Repr()))
    ensures b.freezeStart == old(b.freezeStart) && b.freezeEnd == old(b.freezeEnd)
    ensures b.Contents() == old(b.Contents())
    ensures datlen <= MAX_ALLOC ==> ok
    ensures ok ==> Room(b, datlen, 2)
  {
    hide Nodes, Flatten, Chain.Holds, SpaceSum, RoomIn;
    SegHead(b.first, b.v, null);
    SegAt(b.first, b.v, b.lwd, null);
    b.DerefAt(b.lwd);
    var chain := b.Deref(b.lwdPrev);
    if chain.off == 0 {
      ok := ReplaceAll(b, datlen);
    } else {
      ok := ReplaceRest(b, chain, datlen);
    }
  }

  /** The last chain with data stays; one new chain takes the place of those behind it. */
  method ReplaceRest(b: Evbuffer, chain: Chain, datlen: nat) returns (ok: bool)
    requires
      && b.Valid()
      && b.lwd < |b.v.chains|
      && chain == b.v.chains[b.lwd]
      && chain.off > 0
      && chain.SpaceLen() < datlen
    modifies b.Repr()
    ensures b.Valid() && fresh(b.Repr() - old(b.Repr()))
    ensures b.freezeStart == old(b.freezeStart) && b.freezeEnd == old(b.freezeEnd)
    ensures b.Contents() == old(b.Contents())
    ensures datlen <= MAX_ALLOC ==> ok
    ensures ok ==> Room(b, datlen, 2)
  {
    hide Nodes, Flatten, Chain.Holds, SpaceSum, RoomIn;
    var avail := KeepLast(b, chain);
    var tmp := ChainNew(datlen - avail);
    if tmp == null {
      return false;
    }
    ghost var cs := b.v.chains;
    PutLast(b, tmp);
    LastRoom(b, tmp, cs, avail, datlen);
    ok := true;
  }

  /** Frees the chains behind the last one with data; returns what space that one has. */
  method KeepLast(b: Evbuffer, chain: Chain) returns (avail: nat)
    requires b.Valid() && b.lwd < |b.v.chains| && chain == b.v.chains[b.lwd] && chain.off > 0
    modifies b`first, b`last, b`v, b.v.chains`next
    ensures b.Valid() && b.Contents() == old(b.Contents()) && b.Repr() <= old(b.Repr())
    ensures |b.v.chains| == b.lwd + 1 && chain == b.v.chains[b.lwd] && avail == chain.SpaceLen()
  {
    hide Nodes, Flatten, Chain.Holds;
    SegHead(b.first, b.v, null);
    SegAt(b.first, b.v, b.lwd, null);
    chain.HoldsOff(b.v.datas[b.lwd]);
    TrimPlaced(b.v.datas, b.lwd);
    avail := chain.SpaceLen();
    var chp := b.FreeTrailingEmptyChains();
    b.last := chain;
  }

  lemma LastRoom(b: Evbuffer, tmp: Chain, cs: seq<Chain>, avail: nat, datlen: nat)
    requires b.v.chains == cs + [tmp] && |cs| == b.lwd + 1 && cs[b.lwd].off > 0
    requires cs[b.lwd].SpaceLen() == avail && datlen <= avail + tmp.SpaceLen() && tmp.SpaceLen() > 0
    ensures Room(b, datlen, 2)
  {
    var f := FirstRoom(b);
    EmptySum(cs, |cs|);
    EmptySum(cs, b.lwd);
    SpaceSnoc(cs, b.lwd, b.lwd);
    assert cs[f..] == cs[f..|cs|];
    RoomGrows(b, tmp, cs, avail, datlen, |cs| - f);
  }

  /** The buffer holds nothing: all chains make way for one new chain. */
  method ReplaceAll(b: Evbuffer, datlen: nat) returns (ok: bool)
    requires b.Valid() && b.lwd < |b.v.chains| && b.v.chains[b.lwd].off == 0
    modifies b.Repr()
    ensures b.Valid() && fresh(b.Repr() - old(b.Repr()))
    ensures b.freezeStart == old(b.freezeStart) && b.freezeEnd == old(b.freezeEnd)
    ensures b.Contents() == old(b.Contents())
    ensures datlen <= MAX_ALLOC ==> ok
    ensures ok ==> Room(b, datlen, 2)
  {
    hide Nodes, Flatten, Chain.Holds, SpaceSum;
    SegAt(b.first, b.v, b.lwd, null);
    EmptyBuffer(b.v.datas, b.lwd);
    var tmp := ChainNew(datlen);
    b.Zero();
    if tmp == null {
      return false;
    }
    b.ChainInsert(tmp, []);
    SoleRoom(b, tmp, datlen);
    ok := true;
  }

  lemma EmptyBuffer(ds: seq<seq<Byte>>, lwd: nat)
    requires Placed(ds, lwd) && lwd < |ds| && ds[lwd] == []
    ensures Flatten(ds) == []
  {
    FlattenEmpties(ds);
  }

  lemma SoleRoom(b: Evbuffer, tmp: Chain, d: nat)
    requires b.v.chains == [tmp] && b.lwd == 0 && tmp.misalign == 0 && tmp.off == 0 && d <= tmp.SpaceLen()
    requires tmp.SpaceLen() > 0
    ensures Room(b, d, 2)
  {
    SpaceSnoc(b.v.chains, 0, 0);
    EmptySum(b.v.chains, 0);
    assert RoomIn(b, d, 1);
  }

  /** evbuffer_expand_fast_. When it may use more chains than there are, it keeps them all and adds one at most. */
  method ExpandFast(b: Evbuffer, datlen: nat, n: nat) returns (ok: bool)
    requires b.Valid() && 2 <= n
    modifies b.Repr()
    ensures b.Valid() && fresh(b.Repr() - old(b.Repr()))
    ensures b.freezeStart == old(b.freezeStart) && b.freezeEnd == old(b.freezeEnd)
    ensures b.Contents() == old(b.Contents())
    ensures datlen <= MAX_ALLOC ==> ok
    ensures ok ==> Room(b, datlen, n)
    ensures ok && n > |old(b.v.chains)| ==> old(b.v.chains) <= b.v.chains && |b.v.chains| <= |old(b.v.chains)| + 1
    ensures ok && old(b.v.chains) == [] ==> |b.v.chains| == 1 && b.v.chains[0].buffer.Length <= 2 * datlen + 1024
  {
    hide Nodes, Flatten, Chain.Holds, SpaceSum, RoomIn;
    SegHead(b.first, b.v, null);
    var chain := b.last;
    if chain == null {
      chain := ChainNew(datlen);
      if chain == null {
        return false;
      }
      b.ChainInsert(chain, []);
      SoleRoom(b, chain, datlen);
      return true;
    }
    ok := ExpandChains(b, datlen, n);
  }

  /** evbuffer_expand_fast_ for a buffer that has chains. */
  method ExpandChains(b: Evbuffer, datlen: nat, n: nat) returns (ok: bool)
    requires b.Valid() && 2 <= n && b.v.chains != []
    modifies b.Repr()
    ensures b.Valid() && fresh(b.Repr() - old(b.Repr()))
    ensures b.freezeStart == old(b.freezeStart) && b.freezeEnd == old(b.freezeEnd)
    ensures b.Contents() == old(b.Contents())
    ensures datlen <= MAX_ALLOC ==> ok
    ensures ok ==> Room(b, datlen, n)
    ensures ok && n > |old(b.v.chains)| ==> old(b.v.chains) <= b.v.chains && |b.v.chains| <= |old(b.v.chains)| + 1
  {
    hide Nodes, Flatten, Chain.Holds, SpaceSum, RoomIn, Scanned;
    var enough, avail, used, k := ScanRoom(b, datlen, n);
    if enough {
      return true;
    }
    ScanResult(b, avail, used, k);
    if used < n {
      ok := AppendRoom(b, datlen, avail, used);
    } else {
      ok := ReplaceRoom(b, datlen);
    }
  }

  lemma ScanResult(b: Evbuffer, avail: nat, used: nat, k: nat)
    requires b.Valid() && b.lwd < k <= |b.v.chains| && Scanned(b, avail, used, FirstRoom(b), k)
    ensures RoomIn(b, avail, used) && FirstRoom(b) + used == k
    ensures avail == SpaceSum(b.v.chains[FirstRoom(b)..k])
    ensures k == |b.v.chains| ==> avail == SpaceSum(b.v.chains[FirstRoom(b)..])
    ensures b.v.chains[b.lwd].SpaceLen() <= avail
  {
    hide Nodes, Flatten;
    assert b.v.chains[FirstRoom(b)..|b.v.chains|] == b.v.chains[FirstRoom(b)..];
    SumAtLeast(b, FirstRoom(b), k);
  }

  /** The first chain has no more space than all of them. */
  lemma {:induction false} SumAtLeast(b: Evbuffer, f: nat, k: nat)
    requires b.Valid() && f <= k <= |b.v.chains|
    ensures 0 <= SpaceSum(b.v.chains[f..k])
    ensures f < k ==> b.v.chains[f].SpaceLen() <= SpaceSum(b.v.chains[f..k])
    decreases k
  {
    hide Nodes, Flatten, Chain.Holds;
    SegHead(b.first, b.v, null);
    EmptySum(b.v.chains, f);
    if f < k {
      SumAtLeast(b, f, k - 1);
      SpaceSnoc(b.v.chains, f, k - 1);
      SegAt(b.first, b.v, k - 1, null);
      b.v.chains[k - 1].HoldsOff(b.v.datas[k - 1]);
    }
  }

  const NUM_READ_IOVEC := 4
  const EVBUFFER_MAX_READ := 4096

  /** struct evbuffer_iovec: `len` bytes at index `at` of the data area of a chain. */
  datatype IoVec = IoVec(chain: Chain?, at: nat, len: nat)

  ghost function Total(vs: seq<IoVec>): nat {
    if vs == [] then 0 else Total(vs[..|vs| - 1]) + vs[|vs| - 1].len
  }

  /** The vectors are non-empty stretches of the free space of the chains from `f` on, one each. */
  ghost predicate Vectors(b: Evbuffer, f: nat, vs: seq<IoVec>)
    reads b`v, b.v.chains`misalign, b.v.chains`off
  {
    && f + |vs| <= |b.v.chains|
    && (forall i :: 0 <= i < |vs| ==> FreeSpace(b.v.chains[f + i], vs[i]))
  }

  ghost predicate FreeSpace(c: Chain, vec: IoVec)
    reads c`misalign, c`off
  {
    vec.chain == c && vec.at == c.misalign + c.off && 0 < vec.len <= c.SpaceLen()
  }

  /** Every vector but the last takes all the free space of its chain. */
  ghost predicate Full(vs: seq<IoVec>)
    reads set i | 0 <= i < |vs| && vs[i].chain != null :: vs[i].chain
  {
    forall i :: 0 <= i < |vs| - 1 ==> vs[i].chain != null && vs[i].len == vs[i].chain.SpaceLen()
  }

  /** The vectors set up so far. */
  ghost predicate SetUp(b: Evbuffer, vs: seq<IoVec>, howmuch: nat, exact: bool)
    reads b`v, b`lwd, b.v.chains`misalign, b.v.chains`off
  {
    && b.lwd < |b.v.chains| && FirstRoom(b) + |vs| <= |b.v.chains|
    && Vectors(b, FirstRoom(b), vs)
    && (Total(vs) < howmuch ==> Total(vs) == SpaceSum(b.v.chains[FirstRoom(b)..FirstRoom(b) + |vs|]))
    && (forall i :: 0 <= i < |vs| && (i < |vs| - 1 || Total(vs) < howmuch || !exact) ==>
          vs[i].len == b.v.chains[FirstRoom(b) + i].SpaceLen())
    && (exact ==> Total(vs) <= howmuch)
  }

  lemma SetUpStart(b: Evbuffer, howmuch: nat, m: nat, exact: bool)
    requires RoomIn(b, howmuch, m)
    ensures SetUp(b, [], howmuch, exact) && Total([]) == 0
  {
    EmptySum(b.v.chains, FirstRoom(b));
  }

  lemma SetUpChain(b: Evbuffer, vs: seq<IoVec>, howmuch: nat, m: nat, exact: bool)
    requires b.Valid() && RoomIn(b, howmuch, m) && |vs| <= m
    requires SetUp(b, vs, howmuch, exact) && Total(vs) < howmuch
    ensures |vs| < m && FirstRoom(b) + |vs| < |b.v.chains|
    ensures var c := b.v.chains[FirstRoom(b) + |vs|]; c.SpaceLen() > 0 && c.next == b.v.At(FirstRoom(b) + |vs| + 1)
  {
    hide Nodes, Flatten, Chain.Holds, SpaceSum, Total;
    SpaceOf(b, FirstRoom(b) + |vs|);
  }

  lemma SetUpStep(b: Evbuffer, vs: seq<IoVec>, howmuch: nat, m: nat, exact: bool, vec: IoVec)
    requires RoomIn(b, howmuch, m) && SetUp(b, vs, howmuch, exact) && Total(vs) < howmuch
    requires FirstRoom(b) + |vs| < |b.v.chains|
    requires var c := b.v.chains[FirstRoom(b) + |vs|];
             && c.SpaceLen() > 0 && vec.chain == c && vec.at == c.misalign + c.off
             && vec.len == (if exact && c.SpaceLen() > howmuch - Total(vs) then howmuch - Total(vs) else c.SpaceLen())
    ensures SetUp(b, vs + [vec], howmuch, exact) && Total(vs + [vec]) == Total(vs) + vec.len
  {
    hide SpaceSum, Total, FreeSpace, RoomIn, FirstRoom;
    var f := FirstRoom(b);
    SpaceSnoc(b.v.chains, f, f + |vs|);
    TotalSnoc(vs, vec);
    assert FreeSpace(b.v.chains[f + |vs|], vec) by { IsFree(b.v.chains[f + |vs|], vec); }
  }

  lemma IsFree(c: Chain, vec: IoVec)
    requires vec.chain == c && vec.at == c.misalign + c.off && 0 < vec.len <= c.SpaceLen()
    ensures FreeSpace(c, vec)
  {
  }

  lemma SetUpFull(b: Evbuffer, vs: seq<IoVec>, howmuch: nat, exact: bool)
    requires SetUp(b, vs, howmuch, exact)
    ensures Vectors(b, FirstRoom(b), vs) && Full(vs) && (exact ==> Total(vs) <= howmuch)
    ensures !exact && vs != [] ==> vs[|vs| - 1].len == b.v.chains[FirstRoom(b) + |vs| - 1].SpaceLen()
  {
    hide SpaceSum, Total;
  }

  /** evbuffer_read_setup_vecs_. */
  method SetupVecs(b: Evbuffer, howmuch: int, vecs: array<IoVec>, nVecsAvail: nat, exact: bool)
    returns (n: int, chainp: Chain?)
    requires b.Valid() && (howmuch >= 0 ==> Room(b, howmuch, nVecsAvail)) && nVecsAvail <= vecs.Length
    modifies vecs
    ensures b.Valid() && -1 <= n <= nVecsAvail && (n == -1 <==> howmuch < 0)
    ensures n >= 0 ==>
      && b.lwd < |b.v.chains| && FirstRoom(b) <= |b.v.chains| && chainp == b.v.Before(FirstRoom(b))
      && (b.v.chains[b.lwd].off == 0 ==> b.v.chains[b.lwd].misalign == 0)
      && Vectors(b, FirstRoom(b), vecs[..n]) && Full(vecs[..n])
      && (if exact then Total(vecs[..n]) == howmuch else Total(vecs[..n]) >= howmuch)
      && (!exact && n > 0 ==> vecs[n - 1].len == b.v.chains[FirstRoom(b) + n - 1].SpaceLen())
  {
    hide Nodes, Flatten, Chain.Holds, SpaceSum, Total, Seg, Vectors, SetUp, RoomIn, Full, Evbuffer.Valid, FirstRoom;
    if howmuch < 0 {
      return -1, null;
    }
    ghost var m: nat :| m <= nVecsAvail && RoomIn(b, howmuch, m);
    SetUpStart(b, howmuch, m, exact);
    SetUpBound(b, [], howmuch, m, exact);
    var soFar := 0;
    chainp := FirstWithSpace(b);
    var chain := b.Deref(chainp);
    var i: nat := 0;
    ghost var f := FirstRoom(b);
    assert vecs[..0] == [];
    while i < nVecsAvail && soFar < howmuch
      invariant b.Valid() && RoomIn(b, howmuch, m) && i <= nVecsAvail && i <= m && f == FirstRoom(b)
      invariant SetUp(b, vecs[..i], howmuch, exact) && soFar == Total(vecs[..i])
      invariant f + i <= |b.v.chains| && chain == b.v.At(f + i)
    {
      SetUpChain(b, vecs[..i], howmuch, m, exact);
      soFar := FillVec(b, chain, howmuch, soFar, vecs, i, exact, m);
      chain, i := chain.next, i + 1;
    }
    n := i;
    SetUpBound(b, vecs[..n], howmuch, m, exact);
    SetUpFull(b, vecs[..n], howmuch, exact);
    SetUpEnough(b, vecs[..n], howmuch, m, nVecsAvail, exact);
  }

  /** One turn of the loop of evbuffer_read_setup_vecs_. */
  method FillVec(b: Evbuffer, chain: Chain, howmuch: nat, soFar: nat, vecs: array<IoVec>, i: nat, exact: bool,
      ghost m: nat)
    returns (soFar': nat)
    requires b.Valid() && RoomIn(b, howmuch, m) && i < m && i < vecs.Length && FirstRoom(b) + i < |b.v.chains|
    requires
      && SetUp(b, vecs[..i], howmuch, exact)
      && soFar == Total(vecs[..i]) < howmuch
      && chain == b.v.chains[FirstRoom(b) + i]
    modifies vecs
    ensures b.Valid() && SetUp(b, vecs[..i + 1], howmuch, exact) && soFar' == Total(vecs[..i + 1])
  {
    hide Nodes, Flatten, Chain.Holds, SpaceSum, Total, Seg, Vectors, SetUp, RoomIn, Full, Evbuffer.Valid, FirstRoom;
    SetUpChain(b, vecs[..i], howmuch, m, exact);
    var avail := chain.SpaceLen();
    if avail > howmuch - soFar && exact {
      avail := howmuch - soFar;
    }
    ghost var vs := vecs[..i];
    vecs[i] := IoVec(chain, chain.misalign + chain.off, avail);
    SetUpStep(b, vs, howmuch, m, exact, vecs[i]);
    assert vecs[..i + 1] == vs + [vecs[i]];
    soFar' := soFar + avail;
  }

  lemma SetUpBound(b: Evbuffer, vs: seq<IoVec>, howmuch: nat, m: nat, exact: bool)
    requires RoomIn(b, howmuch, m) && SetUp(b, vs, howmuch, exact)
    ensures b.lwd < |b.v.chains| && FirstRoom(b) + |vs| <= |b.v.chains|
    ensures b.v.chains[b.lwd].off == 0 ==> b.v.chains[b.lwd].misalign == 0
  {
  }

  lemma SetUpEnough(b: Evbuffer, vs: seq<IoVec>, howmuch: nat, m: nat, n: nat, exact: bool)
    requires RoomIn(b, howmuch, m) && SetUp(b, vs, howmuch, exact)
    requires |vs| <= m <= n && (|vs| == n || Total(vs) >= howmuch)
    ensures Total(vs) >= howmuch
  {
    hide SpaceSum, Total;
  }

  lemma TotalSnoc(vs: seq<IoVec>, vec: IoVec)
    ensures Total(vs + [vec]) == Total(vs) + vec.len
  {
    assert (vs + [vec])[..|vs|] == vs;
  }

  lemma SpaceOf(b: Evbuffer, k: nat)
    requires b.Valid() && k < |b.v.chains|
    ensures b.v.chains[k].SpaceLen() >= 0 && b.v.chains[k].next == b.v.At(k + 1)
  {
    hide Nodes, Flatten, Chain.Holds;
    SegHead(b.first, b.v, null);
    SegAt(b.first, b.v, k, null);
    b.v.chains[k].HoldsOff(b.v.datas[k]);
  }

  /** The pointer to the first chain with any space in it. */
  method FirstWithSpace(b: Evbuffer) returns (p: Chain?)
    requires b.Valid() && b.lwd < |b.v.chains|
    ensures FirstRoom(b) <= |b.v.chains| && p == b.v.Before(FirstRoom(b)) && b.Deref(p) == b.v.At(FirstRoom(b))
  {
    hide Nodes, Flatten, Chain.Holds;
    SegHead(b.first, b.v, null);
    p := b.lwdPrev;
    b.DerefAt(b.lwd);
    b.DerefAt(b.lwd + 1);
    if b.Deref(p).SpaceLen() == 0 {
      p := b.Deref(p);
    }
  }

  /** `p` lies behind the bytes the chain holds. */
  ghost predicate Lies(c: Chain, p: seq<Byte>)
    reads c`misalign, c`off, c.buffer
  {
    c.misalign + c.off + |p| <= c.buffer.Length && c.buffer[c.misalign + c.off..c.misalign + c.off + |p|] == p
  }

  /** The pieces lie in the free space of the chains from `f` on; all but the last fill it. */
  ghost predicate Scattered(b: Evbuffer, f: nat, ps: seq<seq<Byte>>, i: nat)
    reads b`v, b.v.chains`misalign, b.v.chains`off, set c: Chain | c in b.v.chains :: c.buffer
  {
    && f + |ps| <= |b.v.chains|
    && (forall j {:trigger ps[j]} :: i <= j < |ps| ==> ps[j] != [] && Lies(b.v.chains[f + j], ps[j]))
    && (forall j {:trigger ps[j]} :: i <= j < |ps| - 1 ==> |ps[j]| == b.v.chains[f + j].SpaceLen())
  }

  /** Adds to `off` the length of a piece that already lies there. */
  method CommitAt(c: Chain, n: nat, ghost p: seq<Byte>, ghost head: Chain?, ghost v: View, ghost k: nat)
    requires Seg(head, v, null) && k < |v.chains| && c == v.chains[k] && Lies(c, p) && n == |p|
    modifies c`off
    ensures v.Wf() && Seg(head, v.With(k, v.datas[k] + p), null)
  {
    hide Nodes;
    SegOpen(head, v, k, null);
    c.off := c.off + n;
    SegClose(head, v, k, c, v.datas[k] + p, null);
  }

  /** The chain at `k` gains bytes: the last one with data, or the one after it. */
  lemma CommitPlaced(ds: seq<seq<Byte>>, lwd: nat, k: nat, p: seq<Byte>)
    requires Placed(ds, lwd) && k < |ds| && p != [] && (k == lwd || (k == lwd + 1 && ds[lwd] != []))
    ensures Placed(ds[k := ds[k] + p], k)
    ensures Flatten(ds[k := ds[k] + p]) == Flatten(ds) + p
  {
    hide Flatten;
    var es := ds[k := ds[k] + p];
    FlattenAt(ds, k);
    FlattenAt(es, k);
    FlattenEmpties(ds[k + 1..]);
    assert es[..k] == ds[..k] && es[k + 1..] == ds[k + 1..];
  }

  /** One turn of the loop in evbuffer_read that commits what was read. */
  method CommitStep(b: Evbuffer, chain: Chain, n: nat, ghost f: nat, ghost ps: seq<seq<Byte>>, ghost i: nat,
      ghost q: nat)
    requires Seg(b.first, b.v, null) && Scattered(b, f, ps, i) && i < |ps| && n == |ps[i]| && chain == b.v.chains[f + i]
    requires Placed(b.v.datas, q) && b.v.Wf() && (f + i == q || (f + i == q + 1 && b.v.datas[q] != []))
    modifies b`v, chain`off
    ensures Seg(b.first, b.v, null) && b.v.chains == old(b.v).chains && b.v.Wf()
    ensures Scattered(b, f, ps, i + 1)
    ensures Placed(b.v.datas, f + i) && b.v.datas[f + i] != [] && Flatten(b.v.datas) == Flatten(old(b.v).datas) + ps[i]
  {
    hide Nodes, Flatten, Placed, Lies, Chain.Holds;
    ghost var k := f + i;
    forall j | f <= j < |b.v.chains| && j != k ensures b.v.chains[j] != chain {
      SegDistinct(b.first, b.v, j, k, null);
    }
    CommitPlaced(b.v.datas, q, k, ps[i]);
    CommitAt(chain, n, ps[i], b.first, b.v, k);
    b.v := b.v.With(k, b.v.datas[k] + ps[i]);
  }

  /** Commits a whole chain, or as much of the last one as was read. */
  method CommitTurn(b: Evbuffer, chain: Chain, remaining: nat, ghost f: nat, ghost ps: seq<seq<Byte>>, ghost i: nat,
      ghost q: nat)
    returns (more: bool, space: nat)
    requires Seg(b.first, b.v, null) && Scattered(b, f, ps, i) && i < |ps| && remaining == |Flatten(ps[i..])|
    requires f + i < |b.v.chains| && chain == b.v.chains[f + i]
    requires Placed(b.v.datas, q) && b.v.Wf() && (f + i == q || (f + i == q + 1 && b.v.datas[q] != []))
    modifies b`v, chain`off
    ensures Seg(b.first, b.v, null) && b.v.chains == old(b.v).chains && b.v.Wf()
    ensures Scattered(b, f, ps, i + 1)
    ensures Placed(b.v.datas, f + i) && b.v.datas[f + i] != []
    ensures forall c :: Flatten(old(b.v).datas) == c + Flatten(ps[..i]) ==>
      Flatten(b.v.datas) == c + Flatten(ps[..i + 1])
    ensures more <==> i < |ps| - 1
    ensures more ==> space <= remaining && remaining - space == |Flatten(ps[i + 1..])|
    ensures !more ==> ps[..i + 1] == ps
  {
    hide Nodes, Flatten, Placed, Lies, Chain.Holds, Scattered;
    RoomFor(b, f, ps, i);
    space := SpaceBehind(b, chain, f + i);
    more := space < remaining;
    CommitStep(b, chain, if more then space else remaining, f, ps, i, q);
  }

  method SpaceBehind(b: Evbuffer, chain: Chain, ghost k: nat) returns (space: nat)
    requires Seg(b.first, b.v, null) && k < |b.v.chains| && chain == b.v.chains[k]
    ensures space == chain.SpaceLen()
  {
    hide Nodes, Chain.Holds;
    SegAt(b.first, b.v, k, null);
    chain.HoldsOff(b.v.datas[k]);
    space := chain.SpaceLen();
  }

  /** The end of evbuffer_read: commits `n` bytes that were read into the vectors. */
  method CommitRead(b: Evbuffer, chainp0: Chain?, nvecs: nat, n: nat, ghost f: nat, ghost ps: seq<seq<Byte>>)
    requires b.Valid() && Scattered(b, f, ps, 0) && 0 < |ps| <= nvecs && n == |Flatten(ps)|
    requires chainp0 == b.v.Before(f) && b.v.Wf() && (f == b.lwd || (f == b.lwd + 1 && b.v.datas[b.lwd] != []))
    modifies b`lwdPrev, b`totalLen, b`v, b`lwd, b.v.chains`off
    ensures b.Valid() && b.Contents() == old(b.Contents()) + Flatten(ps) && b.v.chains == old(b.v).chains
  {
    hide Nodes, Flatten, Placed, Lies, Chain.Holds, Scattered, Evbuffer.Lwd, Evbuffer.Valid, Evbuffer.Contents, Seg;
    ValidParts(b);
    LwdPlaced(b);
    ScatteredBound(b, f, ps, 0);
    var chainp, remaining: nat, i: nat := chainp0, n, 0;
    ghost var q: nat := b.lwd;
    FlattenWhole(ps);
    b.DerefAt(f);
    assert ps[0..] == ps;
    while i < nvecs
      invariant Seg(b.first, b.v, null) && b.v.Wf() && b.v.chains == old(b.v).chains && Placed(b.v.datas, q)
      invariant i < |ps| && f + |ps| <= |b.v.chains| && Scattered(b, f, ps, i) && remaining == |Flatten(ps[i..])|
      invariant f + i == q || (f + i == q + 1 && b.v.datas[q] != [])
      invariant chainp == b.v.Before(f + i) && b.Deref(chainp) == b.v.chains[f + i]
      invariant Flatten(b.v.datas) == Flatten(old(b.v).datas) + Flatten(ps[..i])
      invariant b.first == old(b.first) && b.last == old(b.last) && b.totalLen == old(b.totalLen) && i <= nvecs
    {
      var more, space := CommitTurn(b, b.Deref(chainp), remaining, f, ps, i, q);
      if more {
        remaining := remaining - space;
      } else {
        SetLwd(b, chainp, f + i);
        break;
      }
      q := f + i;
      b.DerefAt(f + i + 1);
      chainp, i := b.Deref(chainp), i + 1;
    }
    b.totalLen := b.totalLen + n;
    ValidWhole(b);
  }

  lemma ValidParts(b: Evbuffer)
    requires b.Valid()
    ensures Seg(b.first, b.v, null) && b.Lwd() && b.last == b.v.Before(|b.v.chains|)
    ensures b.totalLen == |Flatten(b.v.datas)| && b.Contents() == Flatten(b.v.datas)
  {
    hide Nodes, Flatten;
  }

  lemma ValidWhole(b: Evbuffer)
    requires Seg(b.first, b.v, null) && b.Lwd() && b.last == b.v.Before(|b.v.chains|)
    requires b.totalLen == |Flatten(b.v.datas)|
    ensures b.Valid() && b.Contents() == Flatten(b.v.datas)
  {
    hide Nodes, Flatten;
  }

  lemma LwdPlaced(b: Evbuffer)
    requires b.Lwd()
    ensures Placed(b.v.datas, b.lwd)
  {
  }

  /** `buf->last_with_datap = chainp`. */
  method SetLwd(b: Evbuffer, chainp: Chain?, ghost k: nat)
    requires k < |b.v.chains| && chainp == b.v.Before(k) && Placed(b.v.datas, k)
    modifies b`lwdPrev, b`lwd
    ensures b.Lwd() && b.lwd == k
  {
    b.lwdPrev := chainp;
    b.lwd := k;
  }

  lemma ScatteredBound(b: Evbuffer, f: nat, ps: seq<seq<Byte>>, i: nat)
    requires Scattered(b, f, ps, i)
    ensures f + |ps| <= |b.v.chains|
  {
  }

  /** The free space of the chain tells whether its piece is the last one. */
  lemma RoomFor(b: Evbuffer, f: nat, ps: seq<seq<Byte>>, i: nat)
    requires Scattered(b, f, ps, i) && i < |ps|
    ensures f + i < |b.v.chains|
    ensures var space := b.v.chains[f + i].SpaceLen(); var remaining := |Flatten(ps[i..])|;
            && (space < remaining <==> i < |ps| - 1)
            && |ps[i]| == (if space < remaining then space else remaining)
            && (i < |ps| - 1 ==> remaining - space == |Flatten(ps[i + 1..])|)
            && (i == |ps| - 1 ==> ps[..i + 1] == ps)
    ensures Flatten(ps[..i + 1]) == Flatten(ps[..i]) + ps[i]
  {
    hide Flatten;
    FlattenSnoc(ps[..i], ps[i]);
    assert ps[..i + 1] == ps[..i] + [ps[i]];
    assert Lies(b.v.chains[f + i], ps[i]);
    assert ps[i..] == [ps[i]] + ps[i + 1..];
    FlattenCons(ps[i], ps[i + 1..]);
    if i < |ps| - 1 {
      assert ps[i + 1..] == [ps[i + 1]] + ps[i + 2..];
      FlattenCons(ps[i + 1], ps[i + 2..]);
    } else {
      FlattenWhole(ps);
      assert ps[i + 1..] == [] && Flatten([]) == [] by { FlattenWhole([]); }
    }
  }

  /** Writes behind the bytes a chain holds, without committing. */
  method Fill(b: Evbuffer, chain: Chain, at: nat, p: seq<Byte>, ghost k: nat)
    requires b.Valid() && k < |b.v.chains| && chain == b.v.chains[k]
    requires at == chain.misalign + chain.off && at + |p| <= chain.buffer.Length
    modifies chain.buffer
    ensures b.Valid() && Lies(chain, p)
  {
    hide Nodes, Flatten, Placed;
    SegOpen(b.first, b.v, k, null);
    Memcpy(chain.buffer, at, p);
    SegClose(b.first, b.v, k, chain, b.v.datas[k], null);
    assert b.v.With(k, b.v.datas[k]) == b.v;
  }

  /** One vector is filled with a piece. */
  method Scatter(b: Evbuffer, vec: IoVec, p: seq<Byte>, ghost f: nat, ghost ps: seq<seq<Byte>>)
    requires b.Valid() && Scattered(b, f, ps, 0) && f + |ps| < |b.v.chains| && FreeSpace(b.v.chains[f + |ps|], vec)
    requires 0 < |p| <= vec.len
    requires ps != [] ==> |ps[|ps| - 1]| == b.v.chains[f + |ps| - 1].SpaceLen()
    modifies vec.chain.buffer
    ensures b.Valid() && Scattered(b, f, ps + [p], 0)
  {
    hide Nodes, Flatten, Placed, Lies, Chain.Holds;
    forall j | f <= j < f + |ps| ensures b.v.chains[j].buffer != vec.chain.buffer {
      SegDistinct(b.first, b.v, j, f + |ps|, null);
    }
    Fill(b, vec.chain, vec.at, p, f + |ps|);
  }

  lemma TotalNext(vs: seq<IoVec>, i: nat)
    requires i < |vs|
    ensures Total(vs[..i + 1]) == Total(vs[..i]) + vs[i].len
  {
    TotalSnoc(vs[..i], vs[i]);
    assert vs[..i + 1] == vs[..i] + [vs[i]];
  }

  /** readv: the kernel puts `data` into the vectors, filling each before it goes on to the next. */
  method Readv(b: Evbuffer, vecs: array<IoVec>, nvecs: nat, data: seq<Byte>, ghost f: nat)
    returns (n: nat, ghost ps: seq<seq<Byte>>)
    requires b.Valid() && nvecs <= vecs.Length && Vectors(b, f, vecs[..nvecs]) && Full(vecs[..nvecs])
    requires 0 < |data| <= Total(vecs[..nvecs])
    modifies Buffers(b.v)
    ensures b.Valid() && n == |data| && Scattered(b, f, ps, 0) && 0 < |ps| <= nvecs && Flatten(ps) == data
  {
    hide Nodes, Flatten, Placed, Lies, Chain.Holds, Scattered, Total, Evbuffer.Valid;
    var i: nat := 0;
    n, ps := 0, [];
    ghost var vs := vecs[..nvecs];
    FlattenWhole(ps);
    assert Total(vs[..0]) == 0 by { assert vs[..0] == []; EmptyTotal(); }
    NoneScattered(b, f);
    while n < |data|
      invariant b.Valid() && i == |ps| <= nvecs && n <= |data| && Scattered(b, f, ps, 0) && Flatten(ps) == data[..n]
      invariant n < |data| ==> n == Total(vs[..i])
      invariant n > 0 ==> i > 0
      invariant n < |data| && i > 0 ==> |ps[i - 1]| == vs[i - 1].len
      decreases |data| - n
    {
      assert vs[..nvecs] == vs;
      TotalNext(vs, i);
      var take := if vecs[i].len < |data| - n then vecs[i].len else |data| - n;
      ghost var p := data[n..n + take];
      assert FreeSpace(b.v.chains[f + i], vs[i]);
      Scatter(b, vecs[i], data[n..n + take], f, ps);
      FlattenSnoc(ps, p);
      SliceJoin(data, 0, n, n + take);
      ps := ps + [p];
      n, i := n + take, i + 1;
    }
  }

  lemma EmptyTotal()
    ensures Total([]) == 0
  {
  }

  lemma NoneScattered(b: Evbuffer, f: nat)
    requires f <= |b.v.chains|
    ensures Scattered(b, f, [], 0)
  {
  }

  /** How much evbuffer_read asks for, given what FIONREAD reported. */
  function ReadLimit(readable: int, howmuch: int): (n: nat)
    ensures
      && n <= EVBUFFER_MAX_READ
      && (howmuch >= 0 ==> n <= howmuch)
      && (0 < readable ==> n <= readable || readable > EVBUFFER_MAX_READ)
    ensures howmuch < 0 ==> n == if 0 < readable <= EVBUFFER_MAX_READ then readable else EVBUFFER_MAX_READ
    ensures n < howmuch ==> n == EVBUFFER_MAX_READ || n == readable
  {
    var n := if readable <= 0 || readable > EVBUFFER_MAX_READ then EVBUFFER_MAX_READ else readable;
    if howmuch < 0 || howmuch > n then n else howmuch
  }

  /** evbuffer_read from a socket that holds the bytes `incoming`, or that fails. */
  method Read(b: Evbuffer, readable: int, howmuch: int, incoming: Option<seq<Byte>>) returns (result: int)
    requires b.Valid()
    modifies b.Repr()
    ensures b.Valid() && fresh(b.Repr() - old(b.Repr()))
    ensures b.freezeStart == old(b.freezeStart) && b.freezeEnd == old(b.freezeEnd)
    ensures result == -1 <==> b.freezeEnd || incoming.None?
    ensures result == -1 ==> b.Contents() == old(b.Contents())
    ensures result != -1 ==>
      var limit := ReadLimit(readable, howmuch);
      && result == (if |incoming.value| < limit then |incoming.value| else limit)
      && b.Contents() == old(b.Contents()) + incoming.value[..result]
  {
    hide Nodes, Flatten, Placed, Chain.Holds, Room, RoomIn, Full, Vectors, Total, ReadLimit, View.Bytes, Seg, FirstRoom,
      Evbuffer.Lwd;
    if b.freezeEnd {
      return -1;
    }
    var limit := ReadLimit(readable, howmuch);
    var ok := ExpandFast(b, limit, NUM_READ_IOVEC);
    var vecs := new IoVec[NUM_READ_IOVEC];
    var nvecs, chainp := SetupVecs(b, limit, vecs, NUM_READ_IOVEC, true);
    if incoming.None? {
      return -1;
    }
    var n := if |incoming.value| < limit then |incoming.value| else limit;
    if n == 0 {
      return 0;
    }
    ReadInto(b, vecs, nvecs, chainp, incoming.value[..n]);
    result := n;
  }

  /** The system call of evbuffer_read, and the commit. */
  method ReadInto(b: Evbuffer, vecs: array<IoVec>, nvecs: nat, chainp: Chain?, data: seq<Byte>)
    requires b.Valid() && nvecs <= vecs.Length && b.lwd < |b.v.chains| && FirstRoom(b) <= |b.v.chains|
    requires chainp == b.v.Before(FirstRoom(b)) && Vectors(b, FirstRoom(b), vecs[..nvecs]) && Full(vecs[..nvecs])
    requires 0 < |data| <= Total(vecs[..nvecs])
    requires b.v.chains[b.lwd].off == 0 ==> b.v.chains[b.lwd].misalign == 0
    modifies b`lwdPrev, b`totalLen, b`v, b`lwd, b.v.chains`off, Buffers(b.v)
    ensures b.Valid() && b.Contents() == old(b.Contents()) + data && b.v.chains == old(b.v).chains
  {
    hide Nodes, Flatten, Placed, Chain.Holds, Full, Vectors, Total;
    ghost var f := FirstRoom(b);
    SegAt(b.first, b.v, b.lwd, null);
    b.v.chains[b.lwd].HoldsOff(b.v.datas[b.lwd]);
    var n; ghost var ps;
    n, ps := Readv(b, vecs, nvecs, data, f);
    CommitRead(b, chainp, nvecs, n, f, ps);
  }
}
