/** Positions, searching and line reading over the chains of an evbuffer. */
module EvbufferSearch {
  import opened Bytes
  import opened Chains
  import opened EvbufferModel

  const NOT_FOUND := Ptr(-1, null, 0)

  /** `what` occurs at position `k` of `c`. */
  predicate MatchAt(c: seq<Byte>, what: seq<Byte>, k: int) {
    0 <= k && k + |what| <= |c| && c[k..k + |what|] == what
  }

  /** `p` stands on a byte, or behind the last chain. */
  ghost predicate Proper(b: Evbuffer, p: Ptr)
    reads b`v
  {
    exists k: nat :: b.StandsIn(p, k) && (k < |b.v.chains| ==> p.posInChain < |b.v.datas[k]|)
  }

  /** memchr: the index of the first `x`, or the length. */
  method Memchr(s: seq<Byte>, x: Byte) returns (i: nat)
    ensures i <= |s| && x !in s[..i] && (i < |s| ==> s[i] == x)
  {
    i := 0;
    while i < |s| && s[i] != x
      invariant i <= |s| && x !in s[..i]
    {
      i := i + 1;
    }
  }

  datatype PtrHow = PTR_SET | PTR_ADD

  /** evbuffer_ptr_set. */
  method PtrSet(b: Evbuffer, p: Ptr, position: nat, how: PtrHow) returns (r: Ptr, ok: bool)
    requires b.Valid() && (how == PTR_ADD && p.pos >= 0 ==> b.Denotes(p))
    ensures var target := if how == PTR_SET then position else p.pos + position;
            && (ok <==> target <= |b.Contents()| && (how == PTR_ADD ==> p.pos >= 0 && position <= SIZE_MAX - p.pos))
            && (ok ==> r.pos == target && Proper(b, r))
            && (!ok ==> r == NOT_FOUND || r == p)
  {
    hide Nodes, Flatten, Chain.Holds;
    SegHead(b.first, b.v, null);
    FlattenWhole(b.v.datas);
    if how == PTR_ADD {
      if p.pos < 0 || SIZE_MAX - position < p.pos {
        return p, false;
      }
      ghost var k: nat :| b.StandsIn(p, k);
      r, ok := PtrWalk(b, p.chain, p.posInChain, position, p.pos + position, k);
    } else {
      r, ok := PtrWalk(b, b.first, 0, position, position, 0);
    }
  }

  /** The loop of evbuffer_ptr_set. */
  method PtrWalk(b: Evbuffer, chain0: Chain?, position0: nat, left0: nat, target: nat, ghost k0: nat)
    returns (r: Ptr, ok: bool)
    requires b.Valid() && b.StandsIn(Ptr(target - left0, chain0, position0), k0)
    ensures ok <==> target <= |b.Contents()|
    ensures if ok then r.pos == target && Proper(b, r) else r == NOT_FOUND
  {
    hide Nodes, Flatten, Chain.Holds, Placed;
    var chain := chain0;
    var position: nat, left: nat := position0, left0;
    ghost var k := k0;
    SegHead(b.first, b.v, null);
    FlattenWhole(b.v.datas);
    if k < |b.v.chains| { b.NextPiece(k); }
    while chain != null && position + left >= chain.off
      invariant b.Valid() && b.StandsIn(Ptr(target - left, chain, position), k)
      invariant k < |b.v.chains| ==> chain.off == |b.v.datas[k]|
      decreases |b.v.chains| - k
    {
      b.NextPiece(k);
      left := left - (chain.off - position);
      chain, position, k := chain.next, 0, k + 1;
    }
    if chain != null {
      b.NextPiece(k);
      r, ok := Ptr(target, chain, position + left), true;
      assert b.StandsIn(r, k);
    } else if left == 0 {
      r, ok := Ptr(target, null, 0), true;
      assert b.StandsIn(r, k);
    } else {
      r, ok := NOT_FOUND, false;
    }
  }

  /** evbuffer_ptr_subtract. */
  method PtrSubtract(b: Evbuffer, p: Ptr, howfar: nat) returns (r: Ptr, ok: bool)
    requires b.Valid() && (p.pos >= 0 ==> b.Denotes(p))
    ensures ok <==> 0 <= howfar <= p.pos
    ensures if ok then r.pos == p.pos - howfar && b.Denotes(r) else r == p
    ensures ok && howfar > 0 ==> Proper(b, r)
  {
    hide Nodes, Flatten, Chain.Holds;
    if p.pos < 0 || howfar > p.pos {
      return p, false;
    }
    ghost var k: nat :| b.StandsIn(p, k);
    if p.chain != null && howfar <= p.posInChain {
      r, ok := Ptr(p.pos - howfar, p.chain, p.posInChain - howfar), true;
      assert b.StandsIn(r, k);
    } else {
      b.StandsBound(p, k);
      r, ok := PtrSet(b, p, p.pos - howfar, PTR_SET);
    }
  }

  lemma MatchParts(c: seq<Byte>, mem: seq<Byte>, pos: nat, done: nat, n: nat)
    requires done + n <= |mem| && pos + |mem| <= |c| && c[pos..pos + done] == mem[..done]
    ensures c[pos..pos + done + n] == mem[..done + n] <==> c[pos + done..pos + done + n] == mem[done..done + n]
    ensures c[pos + done..pos + done + n] != mem[done..done + n] ==> c[pos..pos + |mem|] != mem
  {
    assert c[pos..pos + done + n] == c[pos..pos + done] + c[pos + done..pos + done + n];
    assert mem[..done + n] == mem[..done] + mem[done..done + n];
    SliceSlice(c, pos, pos + |mem|, done, done + n);
  }

  /** evbuffer_ptr_memcmp; whether it returns zero. */
  method PtrMemcmp(b: Evbuffer, p: Ptr, mem: seq<Byte>) returns (equal: bool)
    requires b.Valid() && b.totalLen <= SIZE_MAX && b.Denotes(p)
    ensures equal <==> MatchAt(b.Contents(), mem, p.pos)
  {
    hide Nodes, Flatten, Chain.Holds, Placed, Buffers;
    ghost var k: nat :| b.StandsIn(p, k);
    b.StandsBound(p, k);
    if p.pos < 0 || SIZE_MAX - |mem| < p.pos || p.pos + |mem| > b.totalLen {
      return false;
    }
    var chain := p.chain;
    var position: nat, done: nat := p.posInChain, 0;
    SegHead(b.first, b.v, null);
    FlattenWhole(b.v.datas);
    if k < |b.v.chains| { b.NextPiece(k); }
    while done < |mem| && chain != null
      invariant Seg(b.first, b.v, null) && b.v.Wf() && k <= |b.v.chains| && done <= |mem|
      invariant done < |mem| ==> chain == b.v.At(k) && p.pos + done == |Flatten(b.v.datas[..k])| + position
      invariant done < |mem| && k < |b.v.chains| ==> position <= |b.v.datas[k]| == chain.off
      invariant done < |mem| && k == |b.v.chains| ==> position == 0
      invariant b.Contents()[p.pos..p.pos + done] == mem[..done]
      decreases |b.v.chains| - k
    {
      var same, n := CmpChain(b, chain, k, position, p.pos, mem, done);
      if !same {
        return false;
      }
      done := done + n;
      chain, position, k := chain.next, 0, k + 1;
    }
    assert done == |mem|;
    return true;
  }

  /** memcmp of `mem`, from byte `done` on, with what chain `k` has of it. */
  method CmpChain(b: Evbuffer, chain: Chain, ghost k: nat, position: nat, pos: nat, mem: seq<Byte>, done: nat)
    returns (same: bool, n: nat)
    requires b.Valid() && b.v.Wf() && k < |b.v.chains| && chain == b.v.chains[k] && position <= |b.v.datas[k]|
    requires pos + done == |Flatten(b.v.datas[..k])| + position && done < |mem| && pos + |mem| <= |b.Contents()|
    requires b.Contents()[pos..pos + done] == mem[..done]
    ensures done + n <= |mem| && (done + n < |mem| ==> n == |b.v.datas[k]| - position)
    ensures same ==> b.Contents()[pos..pos + done + n] == mem[..done + n]
    ensures !same ==> b.Contents()[pos..pos + |mem|] != mem
    ensures chain.next == b.v.At(k + 1) && |Flatten(b.v.datas[..k + 1])| == |Flatten(b.v.datas[..k])| + |b.v.datas[k]|
    ensures k + 1 < |b.v.chains| ==> b.v.chains[k + 1].off == |b.v.datas[k + 1]|
  {
    hide Nodes, Flatten, Chain.Holds, Placed, Buffers;
    b.NextPiece(k);
    n := if |mem| - done + position > chain.off then chain.off - position else |mem| - done;
    var piece := b.PieceOf(chain, k, position, position + n);
    MatchParts(b.Contents(), mem, pos, done, n);
    same := piece == mem[done..done + n];
  }

  /** Where a search starts. */
  function StartOf(b: Evbuffer, start: Option<Ptr>): Ptr
    reads b`first
  {
    if start.Some? then start.value else Ptr(0, b.first, 0)
  }

  lemma StartStands(b: Evbuffer, start: Option<Ptr>)
    requires b.Valid() && (start.Some? ==> b.Denotes(start.value))
    ensures b.Denotes(StartOf(b, start))
  {
    hide Nodes, Flatten;
    SegHead(b.first, b.v, null);
    FlattenWhole(b.v.datas);
    if start.None? {
      assert b.StandsIn(StartOf(b, start), 0);
    }
  }

  /** No match of `what` begins in `from..to`. */
  ghost predicate NoMatch(c: seq<Byte>, what: seq<Byte>, from: int, to: int) {
    forall j :: from <= j < to ==> !MatchAt(c, what, j)
  }

  lemma NoFirstByte(c: seq<Byte>, what: seq<Byte>, a: nat, b: nat)
    requires what != [] && a <= b <= |c| && what[0] !in c[a..b]
    ensures NoMatch(c, what, a, b)
  {
    forall j | a <= j < b ensures !MatchAt(c, what, j) {
      assert c[a..b][j - a] == c[j];
      assert j + |what| <= |c| ==> c[j..j + |what|][0] == c[j];
    }
  }

  /** memchr in one chain: stops at the first byte of `what`, or goes to the next chain. */
  method Probe(b: Evbuffer, what: seq<Byte>, pos: Ptr, ghost k: nat) returns (hit: bool, next: Ptr)
    requires b.Valid() && b.StandsIn(pos, k) && k < |b.v.chains| && what != []
    ensures pos.pos <= next.pos && NoMatch(b.Contents(), what, pos.pos, next.pos)
    ensures if hit then b.StandsIn(next, k) && next.posInChain < |b.v.datas[k]| else b.StandsIn(next, k + 1)
  {
    hide Nodes, Flatten, Chain.Holds, Placed, Buffers, NoMatch;
    SegHead(b.first, b.v, null);
    b.NextPiece(k);
    var chain := pos.chain;
    var piece := b.PieceOf(chain, k, pos.posInChain, chain.off);
    var i := Memchr(piece, what[0]);
    ghost var c := b.Contents();
    assert c[pos.pos..pos.pos + |piece|] == piece;
    assert c[pos.pos..pos.pos + i] == c[pos.pos..pos.pos + |piece|][..i];
    NoFirstByte(b.Contents(), what, pos.pos, pos.pos + i);
    hit := i < |piece|;
    next := if hit then Ptr(pos.pos + i, chain, pos.posInChain + i) else Ptr(pos.pos + i, chain.next, 0);
  }

  /** A position in the last chain of a range lies before the chain after it. */
  lemma EndBound(b: Evbuffer, end: Ptr, k: nat)
    requires b.Valid() && b.Denotes(end) && k < |b.v.chains| && end.chain == b.v.chains[k]
    ensures b.v.Wf() && end.pos <= |Flatten(b.v.datas[..k + 1])|
  {
    hide Nodes, Flatten;
    ghost var e: nat :| b.StandsIn(end, e);
    SegHead(b.first, b.v, null);
    if e != k && e < |b.v.chains| {
      SegDistinct(b.first, b.v, e, k, null);
    }
    FlattenPiece(b.v.datas, k);
  }

  /** evbuffer_search_range. */
  method SearchRange(b: Evbuffer, what: seq<Byte>, start: Option<Ptr>, end: Option<Ptr>) returns (r: Ptr)
    requires b.Valid() && b.totalLen <= SIZE_MAX
    requires (start.Some? ==> b.Denotes(start.value)) && (end.Some? ==> b.Denotes(end.value))
    ensures what == [] || |what| > SSIZE_MAX ==> r == StartOf(b, start)
    ensures var from, to := StartOf(b, start).pos, if end.Some? then end.value.pos else |b.Contents()|;
            0 < |what| <= SSIZE_MAX ==>
              if r == NOT_FOUND
              then forall j :: from <= j && MatchAt(b.Contents(), what, j) ==> j + |what| > to
              else && b.Denotes(r) && from <= r.pos && r.pos + |what| <= to
                   && MatchAt(b.Contents(), what, r.pos) && NoMatch(b.Contents(), what, from, r.pos)
  {
    hide Nodes, Flatten, Chain.Holds, Placed, Buffers;
    StartStands(b, start);
    r := StartOf(b, start);
    var lastChain := if end.Some? then end.value.chain else null;
    if |what| == 0 || |what| > SSIZE_MAX {
      return;
    }
    r := SearchLoop(b, what, r, end, lastChain);
  }

  /** The loop of evbuffer_search_range. */
  method SearchLoop(b: Evbuffer, what: seq<Byte>, start: Ptr, end: Option<Ptr>, lastChain: Chain?) returns (r: Ptr)
    requires b.Valid() && b.totalLen <= SIZE_MAX && b.Denotes(start) && (end.Some? ==> b.Denotes(end.value))
    requires what != [] && lastChain == if end.Some? then end.value.chain else null
    ensures var to := if end.Some? then end.value.pos else |b.Contents()|;
            if r == NOT_FOUND
            then forall j :: start.pos <= j && MatchAt(b.Contents(), what, j) ==> j + |what| > to
            else && b.Denotes(r) && start.pos <= r.pos && r.pos + |what| <= to
                 && MatchAt(b.Contents(), what, r.pos) && NoMatch(b.Contents(), what, start.pos, r.pos)
  {
    hide Nodes, Flatten, Chain.Holds, Placed, Buffers;
    var pos := start;
    ghost var k: nat :| b.StandsIn(pos, k);
    ghost var c := b.Contents();
    SegHead(b.first, b.v, null);
    FlattenWhole(b.v.datas);
    b.StandsBound(pos, k);
    while pos.chain != null
      invariant b.Valid() && b.v.Wf() && b.StandsIn(pos, k)
      invariant start.pos <= pos.pos <= |c| && NoMatch(c, what, start.pos, pos.pos)
      decreases |b.v.chains| - k, |c| - pos.pos
    {
      var chain := pos.chain;
      var hit, next := Probe(b, what, pos, k);
      b.StandsBound(next, if hit then k else k + 1);
      NoMatchJoin(c, what, start.pos, pos.pos, next.pos);
      if hit {
        assert b.Denotes(next);
        var equal := PtrMemcmp(b, next, what);
        if equal {
          if end.Some? && next.pos + |what| > end.value.pos {
            return NOT_FOUND;
          }
          return next;
        }
        pos, k := Advance(b, next, k);
        b.StandsBound(pos, k);
        NoMatchJoin(c, what, start.pos, next.pos, pos.pos);
      } else {
        if chain == lastChain {
          EndBound(b, end.value, k);
          return NOT_FOUND;
        }
        pos, k := next, k + 1;
      }
    }
    r := NOT_FOUND;
  }

  lemma NoMatchJoin(c: seq<Byte>, what: seq<Byte>, a: int, m: int, z: int)
    requires NoMatch(c, what, a, m)
    ensures NoMatch(c, what, m, z) ==> NoMatch(c, what, a, z)
    ensures z == m + 1 && !MatchAt(c, what, m) ==> NoMatch(c, what, a, z)
  {
  }

  /** Steps over one byte. */
  method Advance(b: Evbuffer, p: Ptr, ghost k: nat) returns (r: Ptr, ghost k': nat)
    requires b.Valid() && b.StandsIn(p, k) && k < |b.v.chains| && p.posInChain < |b.v.datas[k]|
    ensures b.StandsIn(r, k') && r.pos == p.pos + 1 && k <= k' <= |b.v.chains|
  {
    hide Nodes, Flatten, Chain.Holds, Placed, Buffers;
    b.NextPiece(k);
    r, k' := Ptr(p.pos + 1, p.chain, p.posInChain + 1), k;
    if r.posInChain == r.chain.off {
      r, k' := Ptr(r.pos, r.chain.next, 0), k + 1;
    }
  }
}
