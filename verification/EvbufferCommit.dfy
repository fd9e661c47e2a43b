/** evbuffer_commit_space: bytes that a user wrote into reserved space become part of the buffer (buffer.c). */
module EvbufferCommit {
  import opened Bytes
  import opened Chains
  import opened EvbufferModel
  import opened EvbufferRead

  /** The vector begins where the free space of the chain begins, and stays inside. */
  predicate Matches(c: Chain, vec: IoVec)
    reads c`misalign, c`off
  {
    vec.chain == c && vec.at == c.misalign + c.off && vec.len <= c.SpaceLen()
  }

  /** The place of the chain that takes the first vector. */
  ghost function Target(b: Evbuffer, vecs: seq<IoVec>): nat
    reads b`v, b`lwd, b`last, b.v.chains`misalign, b.v.chains`off
  {
    if |vecs| == 1 && b.v.chains != [] && InLast(b, vecs[0]) then |b.v.chains| - 1 else FirstRoom(b)
  }

  ghost predicate InLast(b: Evbuffer, vec: IoVec)
    requires b.v.chains != []
    reads b`v, b.v.chains`misalign, b.v.chains`off
  {
    var c := b.v.chains[|b.v.chains| - 1];
    vec.chain == c && vec.at == c.misalign + c.off
  }

  /**
   * When evbuffer_commit_space succeeds: the vectors are the free space of successive chains, or parts of its fronts.
   */
  ghost predicate Accepts(b: Evbuffer, vecs: seq<IoVec>)
    reads b`v, b`lwd, b`last, b`freezeEnd, b.v.chains`misalign, b.v.chains`off
  {
    !b.freezeEnd && (vecs == [] || (b.v.chains != [] && Fitting(b, Target(b, vecs), vecs, |vecs|)))
  }

  ghost predicate Fitting(b: Evbuffer, f: nat, vecs: seq<IoVec>, n: nat)
    requires n <= |vecs|
    reads b`v, b.v.chains`misalign, b.v.chains`off
  {
    f + n <= |b.v.chains| && forall i {:trigger vecs[i]} :: 0 <= i < n ==> Matches(b.v.chains[f + i], vecs[i])
  }

  /** What the user left in the vectors. */
  ghost function Written(b: Evbuffer, f: nat, vecs: seq<IoVec>): (ps: seq<seq<Byte>>)
    requires Fitting(b, f, vecs, |vecs|)
    reads b`v, b.v.chains`misalign, b.v.chains`off, set c: Chain | c in b.v.chains :: c.buffer
    ensures |ps| == |vecs|
    ensures forall i {:trigger ps[i]} :: 0 <= i < |vecs| ==> ps[i] == Stretch(b.v.chains[f + i], vecs[i])
  {
    if vecs == [] then []
    else
      var n := |vecs| - 1;
      assert Matches(b.v.chains[f + n], vecs[n]);
      Written(b, f, vecs[..n]) + [Stretch(b.v.chains[f + n], vecs[n])]
  }

  ghost function Stretch(c: Chain, vec: IoVec): (p: seq<Byte>)
    requires Matches(c, vec)
    reads c`misalign, c`off, c.buffer
    ensures |p| == vec.len && Lies(c, p)
  {
    c.buffer[c.misalign + c.off..c.misalign + c.off + vec.len]
  }

  /** The bytes of the chains after the first `|ps|` chains from `f` on gained `ps`. */
  ghost function Committed(ds: seq<seq<Byte>>, f: nat, ps: seq<seq<Byte>>): (r: seq<seq<Byte>>)
    requires f + |ps| <= |ds|
    ensures |r| == |ds|
  {
    seq(|ds|, k requires 0 <= k < |ds| => if f <= k < f + |ps| then ds[k] + ps[k - f] else ds[k])
  }

  /** No chain stays empty in front of one that gains bytes. */
  ghost predicate Gapless(ds: seq<seq<Byte>>, lwd: nat, f: nat, ps: seq<seq<Byte>>)
    requires lwd <= f && f + |ps| <= |ds|
  {
    && (forall k, j :: lwd <= k < f && 0 <= j < |ps| && ps[j] != [] ==> ds[k] != [])
    && (forall i, j :: 0 <= i < j < |ps| && ps[j] != [] ==> ps[i] != [] || ds[f + i] != [])
  }

  /** Where evbuffer_commit_space leaves `last_with_datap`. */
  ghost function LastGain(lwd: nat, f: nat, ps: seq<seq<Byte>>): nat {
    if ps == [] then lwd else if ps[|ps| - 1] != [] then f + |ps| - 1 else LastGain(lwd, f, ps[..|ps| - 1])
  }

  lemma {:induction false} LastGainIs(lwd: nat, f: nat, ps: seq<seq<Byte>>)
    requires lwd <= f
    ensures var q := LastGain(lwd, f, ps);
      && lwd <= q && (q == lwd || (f <= q < f + |ps| && ps[q - f] != []))
      && (forall j :: 0 <= j < |ps| && f + j > q ==> ps[j] == [])
      && ((forall j :: 0 <= j < |ps| ==> ps[j] == []) ==> q == lwd)
      && ((exists j :: 0 <= j < |ps| && ps[j] != []) ==> f <= q < f + |ps| && ps[q - f] != [])
  {
    if ps != [] {
      var init := ps[..|ps| - 1];
      LastGainIs(lwd, f, init);
      assert forall j :: 0 <= j < |init| ==> init[j] == ps[j];
    }
  }

  /** The structure is kept exactly when no chain is left empty in front of one that gains bytes. */
  lemma CommittedPlaced(ds: seq<seq<Byte>>, lwd: nat, f: nat, ps: seq<seq<Byte>>)
    requires Placed(ds, lwd) && lwd <= f && f + |ps| <= |ds| && ds != []
    ensures Placed(Committed(ds, f, ps), LastGain(lwd, f, ps)) <==> Gapless(ds, lwd, f, ps)
  {
    hide Committed, LastGain, Gapless;
    if Gapless(ds, lwd, f, ps) {
      GaplessPlaced(ds, lwd, f, ps);
    }
    if Placed(Committed(ds, f, ps), LastGain(lwd, f, ps)) {
      CompactGain(ds, lwd, f, ps);
    }
  }

  lemma GaplessPlaced(ds: seq<seq<Byte>>, lwd: nat, f: nat, ps: seq<seq<Byte>>)
    requires Placed(ds, lwd) && lwd <= f && f + |ps| <= |ds| && ds != [] && Gapless(ds, lwd, f, ps)
    ensures Placed(Committed(ds, f, ps), LastGain(lwd, f, ps))
  {
    hide LastGain;
    LastGainIs(lwd, f, ps);
    var es, q := Committed(ds, f, ps), LastGain(lwd, f, ps);
    if q > lwd {
      forall i | 0 <= i < q ensures es[i] != [] {
        if i >= f {
          GainBefore(ds, lwd, f, ps, i - f, q - f);
        } else if i >= lwd {
          FullBefore(ds, lwd, f, ps, i, q - f);
        }
      }
    }
    forall i | q < i < |es| ensures es[i] == [] {
      assert f <= i < f + |ps| ==> ps[i - f] == [];
    }
  }

  lemma GainBefore(ds: seq<seq<Byte>>, lwd: nat, f: nat, ps: seq<seq<Byte>>, i: nat, j: nat)
    requires lwd <= f && f + |ps| <= |ds| && Gapless(ds, lwd, f, ps) && i < j < |ps| && ps[j] != []
    ensures ps[i] != [] || ds[f + i] != []
  {
  }

  lemma FullBefore(ds: seq<seq<Byte>>, lwd: nat, f: nat, ps: seq<seq<Byte>>, k: nat, j: nat)
    requires lwd <= k < f && f + |ps| <= |ds| && Gapless(ds, lwd, f, ps) && j < |ps| && ps[j] != []
    ensures ds[k] != []
  {
  }

  ghost predicate Compact(ds: seq<seq<Byte>>) {
    forall i, j :: 0 <= i < j < |ds| && ds[j] != [] ==> ds[i] != []
  }

  lemma CompactGain(ds: seq<seq<Byte>>, lwd: nat, f: nat, ps: seq<seq<Byte>>)
    requires lwd <= f && f + |ps| <= |ds| && Compact(Committed(ds, f, ps))
    ensures Gapless(ds, lwd, f, ps)
  {
    var es := Committed(ds, f, ps);
    forall k, j | lwd <= k < f && 0 <= j < |ps| && ps[j] != [] ensures ds[k] != [] {
      assert es[f + j] != [] && es[k] == ds[k];
    }
    forall i, j | 0 <= i < j < |ps| && ps[j] != [] ensures ps[i] != [] || ds[f + i] != [] {
      assert es[f + j] != [] && es[f + i] == ds[f + i] + ps[i];
    }
  }

  /** The last chain that holds bytes, or one behind it, gains some. */
  lemma GainOne(ds: seq<seq<Byte>>, k: nat, p: seq<Byte>)
    requires k < |ds| && forall i :: k < i < |ds| ==> ds[i] == []
    ensures Flatten(ds[k := ds[k] + p]) == Flatten(ds) + p
  {
    hide Flatten;
    var es := ds[k := ds[k] + p];
    FlattenAt(ds, k);
    FlattenAt(es, k);
    FlattenEmpties(ds[k + 1..]);
    assert es[..k] == ds[..k] && es[k + 1..] == ds[k + 1..];
  }

  lemma CommittedNone(ds: seq<seq<Byte>>, lwd: nat, f: nat, ps: seq<seq<Byte>>)
    requires Placed(ds, lwd) && lwd <= f && f + |ps| <= |ds|
    ensures Committed(ds, f, ps[..0]) == ds && Flatten(ps[..0]) == [] && Flatten(ds) + Flatten(ps[..0]) == Flatten(ds)
    ensures forall k :: f < k < |ds| ==> ds[k] == []
  {
  }

  lemma CommittedMore(ds: seq<seq<Byte>>, f: nat, ps: seq<seq<Byte>>, i: nat)
    requires f + |ps| <= |ds| && i < |ps| && forall k :: f < k < |ds| ==> ds[k] == []
    ensures var was := Committed(ds, f, ps[..i]);
      && was[f + i] == ds[f + i]
      && Committed(ds, f, ps[..i + 1]) == was[f + i := was[f + i] + ps[i]]
      && Flatten(Committed(ds, f, ps[..i + 1])) == Flatten(was) + ps[i]
    ensures Flatten(ps[..i + 1]) == Flatten(ps[..i]) + ps[i]
  {
    hide Flatten;
    FlattenSnoc(ps[..i], ps[i]);
    assert ps[..i + 1] == ps[..i] + [ps[i]];
    var was := Committed(ds, f, ps[..i]);
    assert ps[..i + 1][i] == ps[i];
    assert Committed(ds, f, ps[..i + 1]) == was[f + i := was[f + i] + ps[i]];
    GainOne(was, f + i, ps[i]);
  }

  /** The vectors fit at `f`, and `chain` is the first of them: pass 1 of evbuffer_commit_space. */
  method CheckVecs(b: Evbuffer, chain0: Chain?, vecs: seq<IoVec>, ghost f: nat) returns (ok: bool)
    requires b.Valid() && f <= |b.v.chains| && chain0 == b.v.At(f)
    ensures ok <==> Fitting(b, f, vecs, |vecs|)
  {
    hide Nodes, Flatten, Chain.Holds, Placed;
    var chain, i := chain0, 0;
    while i < |vecs|
      invariant 0 <= i <= |vecs| && f + i <= |b.v.chains| && chain == b.v.At(f + i) && Fitting(b, f, vecs, i)
    {
      if chain == null {
        return false;
      }
      SegAt(b.first, b.v, f + i, null);
      if vecs[i].chain != chain || vecs[i].at != chain.misalign + chain.off || vecs[i].len > chain.SpaceLen() {
        assert !Matches(b.v.chains[f + i], vecs[i]);
        return false;
      }
      assert Matches(b.v.chains[f + i], vecs[i]);
      chain, i := chain.next, i + 1;
    }
    return true;
  }

  /** The buffer apart from `last_with_datap`. */
  ghost predicate Linked(b: Evbuffer)
    reads b, b.v.chains, set c: Chain | c in b.v.chains :: c.buffer
  {
    && Seg(b.first, b.v, null) && b.v.Wf() && b.v.chains != []
    && b.last == b.v.Before(|b.v.chains|) && b.totalLen == |b.Contents()|
    && b.lwd < |b.v.chains| && b.lwdPrev == b.v.Before(b.lwd)
  }

  lemma LinkedValid(b: Evbuffer)
    requires Linked(b)
    ensures b.Valid() <==> Placed(b.v.datas, b.lwd)
  {
    hide Nodes, Flatten, Placed;
  }

  lemma ValidLinked(b: Evbuffer)
    requires b.Valid() && b.v.chains != []
    ensures Linked(b) && Placed(b.v.datas, b.lwd)
  {
    hide Nodes, Flatten;
    SegHead(b.first, b.v, null);
  }

  /** Pass 2 of evbuffer_commit_space. */
  method CommitVecs(b: Evbuffer, chainp0: Chain?, vecs: seq<IoVec>, ghost f: nat) returns (added: nat)
    requires
      && b.Valid()
      && b.v.chains != []
      && b.v.Wf()
      && b.lwd <= f
      && Fitting(b, f, vecs, |vecs|)
      && chainp0 == b.v.Before(f)
    modifies b`lwdPrev, b`lwd, b`v, b.v.chains`off
    ensures b.v.chains == old(b.v).chains && b.v.base == old(b.v).base && Seg(b.first, b.v, null) && b.v.Wf()
    ensures b.v.datas == Committed(old(b.v).datas, f, old(Written(b, f, vecs)))
    ensures
      && b.lwd == LastGain(old(b.lwd), f, old(Written(b, f, vecs)))
      && b.lwd < |b.v.chains|
      && b.lwdPrev == b.v.Before(b.lwd)
    ensures
      && Flatten(b.v.datas) == Flatten(old(b.v).datas) + Flatten(old(Written(b, f, vecs)))
      && added == |Flatten(old(Written(b, f, vecs)))|
  {
    hide Nodes, Flatten, Chain.Holds, Placed, Committed, LastGain, Lying, Written;
    ValidLinked(b);
    LyingStart(b, f, vecs);
    ghost var ds, ps, lwd := b.v.datas, Written(b, f, vecs), b.lwd;
    CommittedNone(ds, lwd, f, ps);
    var chainp, i := chainp0, 0;
    added := 0;
    while i < |vecs|
      invariant 0 <= i <= |vecs| && f + i <= |b.v.chains| && chainp == b.v.Before(f + i)
      invariant Seg(b.first, b.v, null) && b.v.Wf() && b.v.chains == old(b.v).chains && b.v.base == old(b.v).base
      invariant b.v.datas == Committed(ds, f, ps[..i])
      invariant b.lwd == LastGain(lwd, f, ps[..i]) && b.lwd < |b.v.chains| && b.lwdPrev == b.v.Before(b.lwd)
      invariant Flatten(b.v.datas) == Flatten(ds) + Flatten(ps[..i]) && added == |Flatten(ps[..i])|
      invariant Lying(b.v.chains, f, ps, i)
    {
      CommittedMore(ds, f, ps, i);
      LastGainMore(lwd, f, ps, i);
      b.DerefAt(f + i);
      var chain := b.Deref(chainp);
      CommitVec(b, chain, chainp, vecs[i].len, f, ps, i);
      added := added + vecs[i].len;
      chainp, i := chain, i + 1;
    }
    assert ps[..i] == ps;
  }

  lemma LyingStart(b: Evbuffer, f: nat, vecs: seq<IoVec>)
    requires Fitting(b, f, vecs, |vecs|)
    ensures Lying(b.v.chains, f, Written(b, f, vecs), 0) && |Written(b, f, vecs)| == |vecs|
    ensures forall i {:trigger vecs[i]} :: 0 <= i < |vecs| ==> |Written(b, f, vecs)[i]| == vecs[i].len
    ensures LastGain(b.lwd, f, Written(b, f, vecs)[..0]) == b.lwd
  {
  }

  lemma LastGainMore(lwd: nat, f: nat, ps: seq<seq<Byte>>, i: nat)
    requires i < |ps|
    ensures LastGain(lwd, f, ps[..i + 1]) == if ps[i] != [] then f + i else LastGain(lwd, f, ps[..i])
  {
    assert ps[..i + 1][..i] == ps[..i];
  }

  /** The pieces from `i` on lie behind the bytes of their chains. */
  ghost predicate Lying(cs: seq<Chain>, f: nat, ps: seq<seq<Byte>>, i: nat)
    requires f + |ps| <= |cs|
    reads cs`misalign, cs`off, set c: Chain | c in cs :: c.buffer
  {
    forall j {:trigger ps[j]} :: i <= j < |ps| ==> Lies(cs[f + j], ps[j])
  }

  /** One turn of pass 2. */
  method CommitVec(b: Evbuffer, chain: Chain, chainp: Chain?, len: nat, ghost f: nat, ghost ps: seq<seq<Byte>>,
      ghost i: nat)
    requires Seg(b.first, b.v, null) && b.v.Wf() && f + |ps| <= |b.v.chains| && i < |ps| && len == |ps[i]|
    requires chain == b.v.chains[f + i] && chainp == b.v.Before(f + i) && Lying(b.v.chains, f, ps, i)
    modifies b`lwdPrev, b`lwd, b`v, chain`off
    ensures Seg(b.first, b.v, null) && b.v == old(b.v).With(f + i, old(b.v).datas[f + i] + ps[i]) && b.v.Wf()
    ensures
      && b.v.chains == old(b.v).chains
      && b.v.base == old(b.v).base
      && b.v.datas == old(b.v).datas[f + i := old(b.v).datas[f + i] + ps[i]]
    ensures Lying(b.v.chains, f, ps, i + 1)
    ensures
      && b.lwd == (if ps[i] != [] then f + i else old(b.lwd))
      && b.lwdPrev == if ps[i] != [] then chainp else old(b.lwdPrev)
  {
    hide Nodes, Flatten, Chain.Holds;
    forall j {:trigger ps[j]} | i < j < |ps| ensures b.v.chains[f + j] != chain {
      SegDistinct(b.first, b.v, f + j, f + i, null);
    }
    assert Lies(chain, ps[i]);
    CommitAt(chain, len, ps[i], b.first, b.v, f + i);
    b.v := b.v.With(f + i, b.v.datas[f + i] + ps[i]);
    if len != 0 {
      b.lwdPrev := chainp;
      b.lwd := f + i;
    }
  }

  /** The case in which only the last chain gains bytes. */
  method CommitLast(b: Evbuffer, vec: IoVec, ghost f: nat)
    requires b.Valid() && b.v.chains != [] && b.v.Wf() && f == |b.v.chains| - 1 && b.lwd <= f && Fitting(b, f, [vec], 1)
    modifies b`lwdPrev, b`lwd, b`v, b.v.chains`off
    ensures b.v.chains == old(b.v).chains && Seg(b.first, b.v, null) && b.v.Wf()
    ensures b.v.datas == Committed(old(b.v).datas, f, old(Written(b, f, [vec])))
    ensures b.lwd < |b.v.chains| && b.lwdPrev == b.v.Before(b.lwd)
    ensures
      && Flatten(b.v.datas) == Flatten(old(b.v).datas) + Flatten(old(Written(b, f, [vec])))
      && vec.len == |Flatten(old(Written(b, f, [vec])))|
    ensures Placed(b.v.datas, b.lwd) <==> Gapless(old(b.v).datas, old(b.lwd), f, old(Written(b, f, [vec])))
  {
    hide Nodes, Flatten, Chain.Holds, Placed, Committed, LastGain, Lying, Written, Gapless;
    ValidLinked(b);
    LyingStart(b, f, [vec]);
    ghost var ds, ps, lwd := b.v.datas, Written(b, f, [vec]), b.lwd;
    assert [vec][0] == vec;
    CommittedNone(ds, lwd, f, ps);
    CommittedMore(ds, f, ps, 0);
    CommitOne(b, b.last, vec.len, f, ps);
    assert ps[..1] == ps;
    if vec.len != 0 {
      b.AdvanceLastWithData();
    }
    assert [ps[0]] == ps;
    AdvancedPlaced(ds, lwd, f, ps[0], b.v.datas, b.lwd);
  }

  method CommitOne(b: Evbuffer, chain: Chain?, len: nat, ghost f: nat, ghost ps: seq<seq<Byte>>)
    requires
      && Seg(b.first, b.v, null)
      && b.v.Wf()
      && f + 1 == |b.v.chains|
      && |ps| == 1
      && len == |ps[0]|
      && chain == b.v.chains[f]
    requires Lying(b.v.chains, f, ps, 0)
    modifies b`v, b.v.chains`off
    ensures Seg(b.first, b.v, null) && b.v.Wf()
    ensures b.v.chains == old(b.v).chains && b.v.datas == old(b.v).datas[f := old(b.v).datas[f] + ps[0]]
  {
    hide Nodes, Flatten, Chain.Holds;
    assert Lies(chain, ps[0]);
    CommitAt(chain, len, ps[0], b.first, b.v, f);
    b.v := b.v.With(f, b.v.datas[f] + ps[0]);
  }

  /** Going on over chains with data does not reach the last chain across an empty one. */
  lemma AdvancedPlaced(ds: seq<seq<Byte>>, lwd: nat, f: nat, p: seq<Byte>, es: seq<seq<Byte>>, q: nat)
    requires Placed(ds, lwd) && lwd <= f && f + 1 == |ds| && es == Committed(ds, f, [p])
    requires if p == [] then q == lwd
             else lwd <= q < |ds| && (forall i :: lwd < i <= q ==> es[i] != []) && (q + 1 < |ds| ==> es[q + 1] == [])
    ensures Placed(es, q) <==> Gapless(ds, lwd, f, [p])
  {
    assert forall i :: 0 <= i < f ==> es[i] == ds[i];
    assert es[f] == ds[f] + p;
    if p == [] {
      assert ds[f] + p == ds[f];
      assert es == ds;
    }
    if Placed(es, q) {
      CompactGain(ds, lwd, f, [p]);
    }
  }

  /**
   * evbuffer_commit_space. It succeeds exactly for vectors that are the beginnings of free space, one chain after the
   * other, or of the free space of the last chain. Then what the user wrote there is appended. The structure is kept
   * exactly when no chain stays empty in front of one that gains bytes.
   */
  method CommitSpace(b: Evbuffer, vecs: seq<IoVec>) returns (ok: bool)
    requires b.Valid()
    modifies b`lwdPrev, b`lwd, b`v, b`totalLen, b.v.chains`off
    ensures ok <==> old(Accepts(b, vecs))
    ensures !ok || vecs == [] ==>
      b.Valid() && b.v == old(b.v) && b.lwd == old(b.lwd) && b.Contents() == old(b.Contents())
    ensures ok && vecs != [] ==> Linked(b) && b.v.chains == old(b.v).chains
    ensures ok && vecs != [] ==> b.Contents() == old(b.Contents()) + Flatten(old(Written(b, Target(b, vecs), vecs)))
    ensures ok && vecs != [] ==> old(b.v.Wf() && b.lwd <= Target(b, vecs) && Target(b, vecs) + |vecs| <= |b.v.datas|)
    ensures ok && vecs != [] ==>
      (b.Valid() <==> Gapless(old(b.v.datas), old(b.lwd), old(Target(b, vecs)), old(Written(b, Target(b, vecs), vecs))))
  {
    hide Nodes, Flatten, Chain.Holds, Placed, Committed, LastGain, Written, Gapless;
    if b.freezeEnd {
      return false;
    }
    if vecs == [] {
      return true;
    }
    if b.last == null {
      SegHead(b.first, b.v, null);
      return false;
    }
    ValidLinked(b);
    ghost var f := Target(b, vecs);
    TargetBound(b, vecs);
    if |vecs| == 1 && vecs[0].chain == b.last && vecs[0].at == b.last.misalign + b.last.off {
      if vecs[0].len > b.last.SpaceLen() {
        assert !Matches(b.last, vecs[0]);
        return false;
      }
      assert vecs == [vecs[0]] && Matches(b.last, vecs[0]);
      CommitLast(b, vecs[0], f);
      b.totalLen := b.totalLen + vecs[0].len;
      LinkedValid(b);
      return true;
    }
    ok := CommitMany(b, vecs);
  }

  lemma TargetBound(b: Evbuffer, vecs: seq<IoVec>)
    requires b.Valid() && b.v.chains != []
    ensures b.v.Wf() && b.lwd <= Target(b, vecs) <= |b.v.chains| && b.last == b.v.chains[|b.v.chains| - 1]
  {
    hide Nodes, Flatten;
    ValidLinked(b);
  }

  /** evbuffer_commit_space for vectors from the first chain with space on. */
  method CommitMany(b: Evbuffer, vecs: seq<IoVec>) returns (ok: bool)
    requires
      && b.Valid()
      && b.v.chains != []
      && vecs != []
      && Target(b, vecs) == FirstRoom(b)
      && b.v.Wf()
      && b.lwd < |b.v.chains|
    modifies b`lwdPrev, b`lwd, b`v, b`totalLen, b.v.chains`off
    ensures ok <==> old(Fitting(b, FirstRoom(b), vecs, |vecs|))
    ensures !ok ==> b.Valid() && b.v == old(b.v) && b.lwd == old(b.lwd) && b.Contents() == old(b.Contents())
    ensures ok ==> Linked(b) && b.v.chains == old(b.v).chains
    ensures ok ==> b.Contents() == old(b.Contents()) + Flatten(old(Written(b, FirstRoom(b), vecs)))
    ensures ok ==> old(b.lwd <= FirstRoom(b) && FirstRoom(b) + |vecs| <= |b.v.datas|)
    ensures ok ==>
      (b.Valid() <==> Gapless(old(b.v.datas), old(b.lwd), old(FirstRoom(b)), old(Written(b, FirstRoom(b), vecs))))
  {
    hide Nodes, Flatten, Chain.Holds, Placed, Committed, LastGain, Written, Gapless;
    ghost var f := FirstRoom(b);
    var chainp := FirstWithSpace(b);
    ok := CheckVecs(b, b.Deref(chainp), vecs, f);
    if ok {
      ValidLinked(b);
      CommittedPlaced(b.v.datas, b.lwd, f, Written(b, f, vecs));
      var added := CommitVecs(b, chainp, vecs, f);
      b.totalLen := b.totalLen + added;
      LinkedValid(b);
    }
  }
}
