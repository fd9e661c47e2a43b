/** How calls leave an evbuffer with an empty chain in front of one that holds data (buffer.c). */
module EvbufferGaps {
  import opened Bytes
  import opened Chains
  import opened EvbufferModel
  import opened EvbufferRead
  import opened EvbufferCommit

  /** Two empty chains, both with room. */
  ghost predicate TwoEmpty(b: Evbuffer)
    reads b`v, b`lwd, b.v.chains`misalign, b.v.chains`off
  {
    && b.v.Wf() && |b.v.chains| == 2 && b.lwd == 0 && b.v.datas == [[], []]
    && b.v.chains[0].SpaceLen() > 0 && b.v.chains[1].SpaceLen() > 0
  }

  lemma {:induction false} NothingFlat(ds: seq<seq<Byte>>)
    requires Flatten(ds) == []
    ensures forall i :: 0 <= i < |ds| ==> ds[i] == []
  {
    if ds != [] {
      NothingFlat(ds[1..]);
      assert ds[0] + Flatten(ds[1..]) == [];
    }
  }

  lemma AllEmpty(b: Evbuffer)
    requires b.Valid() && b.Contents() == []
    ensures b.v.Wf() && b.lwd == 0 && (forall i :: 0 <= i < |b.v.datas| ==> b.v.datas[i] == [])
    ensures forall i :: 0 <= i < |b.v.chains| ==> b.v.chains[i].off == 0 && b.v.chains[i].buffer.Length > 0
    ensures b.v.chains != [] ==> b.first == b.v.chains[0] && b.last == b.v.chains[|b.v.chains| - 1]
  {
    NothingFlat(b.v.datas);
  }

  lemma SecondChain(b: Evbuffer, first: Chain)
    requires Room(b, first.buffer.Length + 1, 2) && b.lwd == 0 && 1 <= |b.v.chains| <= 2
    requires b.v.chains[0] == first && first.off == 0 && first.buffer.Length > 0
    ensures |b.v.chains| == 2 && b.v.chains[0].SpaceLen() > 0 && b.v.chains[1].SpaceLen() > 0
  {
    var d := first.buffer.Length + 1;
    var m: nat :| m <= 2 && RoomIn(b, d, m);
    assert FirstRoom(b) == 0;
    EmptySum(b.v.chains, 0);
    if m >= 1 {
      SpaceSnoc(b.v.chains, 0, 0);
    }
  }

  /**
   * evbuffer_expand_fast_ for one byte, and then for more than fits, as evbuffer_reserve_space calls it for two
   * vectors.
   */
  method MakeTwoEmpty() returns (b: Evbuffer)
    ensures
      && b.Valid()
      && fresh(b.Repr())
      && fresh(b.v.chains)
      && b.Contents() == []
      && !b.freezeStart
      && !b.freezeEnd
      && TwoEmpty(b)
  {
    hide Nodes, Flatten, Chain.Holds, Placed, Seg, Room, Evbuffer.Valid, View.Bytes;
    b := new Evbuffer();
    var ok := ExpandFast(b, 1, 2);
    AllEmpty(b);
    var first := b.first;
    ok := ExpandFast(b, first.buffer.Length + 1, 2);
    AllEmpty(b);
    SecondChain(b, first);
    assert forall c: Chain :: c in b.v.chains ==> c in b.Repr();
  }

  /** The user leaves the first vector empty and puts a byte into the second one: the first chain stays empty. */
  method CommitLeavesGap() returns (b: Evbuffer)
    ensures !b.Valid() && Linked(b) && |b.Contents()| == 1
  {
    hide Nodes, Flatten, Chain.Holds, Placed, Seg, Evbuffer.Valid, View.Bytes, Written;
    b := MakeTwoEmpty();
    AllEmpty(b);
    var one, two := b.first, b.last;
    var vecs := [IoVec(one, one.misalign + one.off, 0), IoVec(two, two.misalign + two.off, 1)];
    assert Matches(one, vecs[0]) && Matches(two, vecs[1]);
    ghost var ps := Written(b, 0, vecs);
    assert |ps[0]| == 0 && |ps[1]| == 1;
    assert !Gapless(b.v.datas, 0, 0, ps);
    OneByte(ps);
    var ok := CommitSpace(b, vecs);
  }

  lemma OneByte(ps: seq<seq<Byte>>)
    requires |ps| == 2 && |ps[0]| == 0 && |ps[1]| == 1
    ensures |Flatten(ps)| == 1
  {
    assert ps == [ps[0]] + [ps[1]];
    FlattenConcat([ps[0]], [ps[1]]);
    FlattenOne(ps[0]);
    FlattenOne(ps[1]);
  }

  /** The user puts a byte into the first vector only: an empty chain follows the one with data. */
  method SpareChain() returns (b: Evbuffer)
    ensures b.Valid() && fresh(b.Repr()) && |b.Contents()| == 1 && !b.freezeStart && !b.freezeEnd
    ensures b.last != null && b.last.off == 0
  {
    hide Nodes, Flatten, Chain.Holds, Placed, Seg, Evbuffer.Valid, View.Bytes, Written;
    b := MakeTwoEmpty();
    AllEmpty(b);
    var one := b.first;
    var vecs := [IoVec(one, one.misalign + one.off, 1)];
    assert Matches(one, vecs[0]);
    ghost var ps := Written(b, 0, vecs);
    assert |ps[0]| == 1;
    TwoChains(b);
    assert Gapless(b.v.datas, 0, 0, ps);
    assert ps == [ps[0]];
    FlattenOne(ps[0]);
    var ok := CommitSpace(b, vecs);
    SecondEmpty(b);
  }

  lemma TwoChains(b: Evbuffer)
    requires b.Valid() && |b.v.chains| == 2
    ensures b.v.chains[0] != b.v.chains[1]
  {
    hide Nodes, Flatten;
    SegDistinct(b.first, b.v, 0, 1, null);
  }

  lemma SecondEmpty(b: Evbuffer)
    requires b.Valid() && |b.Contents()| == 1 && |b.v.chains| == 2
    ensures b.last == b.v.chains[1] && b.last.off == 0
  {
    hide Nodes, Flatten, Chain.Holds;
    SegHead(b.first, b.v, null);
    SegAt(b.first, b.v, 1, null);
    b.v.chains[1].HoldsOff(b.v.datas[1]);
    FlattenAt(b.v.datas, 0);
    FlattenAt(b.v.datas, 1);
    FlattenOne(b.v.datas[1]);
    assert b.v.datas[1..] == [b.v.datas[1]] && b.v.datas[..1] == [b.v.datas[0]];
    if b.lwd == 0 && b.v.datas[0] == [] {
      FlattenEmpties(b.v.datas);
    }
  }

  /** Prepended to a buffer with data, the empty chain comes to stand in front of that data. */
  method PrependLeavesGap() returns (b: Evbuffer)
    ensures !b.Valid() && b.Weak() && |b.Contents()| == 2
  {
    hide Nodes, Flatten, Chain.Holds, Placed, Seg, View.Bytes;
    var inbuf := SpareChain();
    b := new Evbuffer();
    var ok := b.Add([1]);
    ok := b.PrependBuffer(inbuf);
  }
}
