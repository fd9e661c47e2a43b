/** Line terminators: evbuffer_search_eol, evbuffer_readln, and what repeated reading of lines yields. */
module EvbufferLines {
  import opened Bytes
  import opened Chains
  import opened EvbufferModel
  import opened EvbufferSearch

  const CR: Byte := 13
  const LF: Byte := 10
  const NUL: Byte := 0
  const CHUNK_SZ := 128

  datatype EolStyle = EOL_ANY | EOL_CRLF | EOL_CRLF_STRICT | EOL_LF | EOL_NUL

  predicate IsCrLf(x: Byte) { x == CR || x == LF }

  /** How many CR and LF bytes follow each other from `k` on. */
  function Run(c: seq<Byte>, k: nat): (n: nat)
    ensures k <= |c| ==>
      k + n <= |c| && (forall j :: k <= j < k + n ==> IsCrLf(c[j])) && (k + n < |c| ==> !IsCrLf(c[k + n]))
    decreases |c| - k
  {
    if k < |c| && IsCrLf(c[k]) then 1 + Run(c, k + 1) else 0
  }

  /** A line terminator begins at `k`. */
  predicate EolAt(style: EolStyle, c: seq<Byte>, k: int) {
    0 <= k < |c| &&
    match style
    case EOL_ANY => IsCrLf(c[k])
    case EOL_CRLF => c[k] == LF || MatchAt(c, [CR, LF], k)
    case EOL_CRLF_STRICT => MatchAt(c, [CR, LF], k)
    case EOL_LF => c[k] == LF
    case EOL_NUL => c[k] == NUL
  }

  /** The length of the terminator at `k`. */
  function EolLen(style: EolStyle, c: seq<Byte>, k: nat): nat
    requires EolAt(style, c, k)
  {
    match style
    case EOL_ANY => Run(c, k)
    case EOL_CRLF => if c[k] == LF then 1 else 2
    case EOL_CRLF_STRICT => 2
    case EOL_LF => 1
    case EOL_NUL => 1
  }

  lemma NotIn(s: seq<Byte>, x: Byte, n: nat)
    requires n <= |s| && x !in s[..n]
    ensures forall j :: 0 <= j < n ==> s[j] != x
  {
    assert forall j :: 0 <= j < n ==> s[..n][j] == s[j];
  }

  /** find_eol_char: looks for both characters 128 bytes at a time. */
  method FindEolChar(s: seq<Byte>) returns (i: nat)
    ensures i <= |s| && (forall j :: 0 <= j < i ==> !IsCrLf(s[j])) && (i < |s| ==> IsCrLf(s[i]))
  {
    var at := 0;
    while at < |s|
      invariant forall j :: 0 <= j < at && j < |s| ==> !IsCrLf(s[j])
    {
      var chunk := if at + CHUNK_SZ < |s| then CHUNK_SZ else |s| - at;
      var piece := s[at..at + chunk];
      var cr := Memchr(piece, CR);
      var lf := Memchr(piece, LF);
      NotIn(piece, CR, cr);
      NotIn(piece, LF, lf);
      assert forall j {:trigger s[j]} :: at <= j < at + chunk ==> s[j] == piece[j - at];
      if cr < chunk {
        if lf < chunk && lf < cr {
          return at + lf;
        }
        return at + cr;
      } else if lf < chunk {
        return at + lf;
      }
      at := at + CHUNK_SZ;
    }
    return |s|;
  }

  /** `Some(x)` asks for the byte x, `None` for a CR or LF. */
  predicate Wanted(x: Option<Byte>, y: Byte) {
    if x.Some? then y == x.value else IsCrLf(y)
  }

  /** memchr or find_eol_char in one piece. */
  method FindIn(s: seq<Byte>, x: Option<Byte>) returns (i: nat)
    ensures i <= |s| && (forall j :: 0 <= j < i ==> !Wanted(x, s[j])) && (i < |s| ==> Wanted(x, s[i]))
  {
    if x.Some? {
      i := Memchr(s, x.value);
      NotIn(s, x.value, i);
    } else {
      i := FindEolChar(s);
    }
  }

  /** Nothing that is wanted lies from `lo` up to `hi`. */
  ghost predicate Missed(x: Option<Byte>, c: seq<Byte>, lo: int, hi: int) {
    forall j :: lo <= j < hi && 0 <= j < |c| ==> !Wanted(x, c[j])
  }

  lemma MissedNone(x: Option<Byte>, c: seq<Byte>, lo: int)
    ensures Missed(x, c, lo, lo)
  {
  }

  lemma MissedMore(x: Option<Byte>, c: seq<Byte>, lo: int, pos: int, piece: seq<Byte>, n: nat)
    requires Missed(x, c, lo, pos) && 0 <= pos && n <= |piece| && pos + |piece| <= |c| && piece == c[pos..pos + |piece|]
    requires forall j :: 0 <= j < n ==> !Wanted(x, piece[j])
    ensures Missed(x, c, lo, pos + n) && (n < |piece| ==> c[pos + n] == piece[n])
  {
    assert forall j {:trigger c[j]} :: pos <= j < pos + |piece| ==> c[j] == piece[j - pos];
  }

  /** The first wanted byte of one chain. */
  method ScanPiece(b: Evbuffer, chain: Chain, i: nat, pos: nat, x: Option<Byte>, ghost k: nat, ghost from: int)
    returns (n: nat)
    requires b.Valid() && b.StandsIn(Ptr(pos, chain, i), k) && k < |b.v.chains| && Missed(x, b.Contents(), from, pos)
    ensures b.v.Wf() && chain.off == |b.v.datas[k]| && i + n <= chain.off && pos + (chain.off - i) <= |b.Contents()|
    ensures Missed(x, b.Contents(), from, pos + n) && (n < chain.off - i ==> Wanted(x, b.Contents()[pos + n]))
  {
    hide Nodes, Flatten, Chain.Holds, Placed, Buffers, Missed, Wanted;
    b.NextPiece(k);
    var piece := b.PieceOf(chain, k, i, chain.off);
    n := FindIn(piece, x);
    MissedMore(x, b.Contents(), from, pos, piece, n);
  }

  /** The loop that evbuffer_strchr and evbuffer_find_eol_char share. */
  method Scan(b: Evbuffer, it: Ptr, x: Option<Byte>) returns (r: Ptr)
    requires b.Valid() && b.Denotes(it)
    ensures if r == NOT_FOUND
            then Missed(x, b.Contents(), it.pos, |b.Contents()|)
            else && Proper(b, r) && it.pos <= r.pos < |b.Contents()| && Wanted(x, b.Contents()[r.pos])
                 && Missed(x, b.Contents(), it.pos, r.pos)
  {
    hide Evbuffer.Lwd, Seg, Flatten, Chain.Holds, Placed, Buffers, Missed, Wanted;
    var chain := it.chain;
    var i: nat, pos := it.posInChain, it.pos;
    ghost var k: nat :| b.StandsIn(it, k);
    ghost var c := b.Contents();
    b.StandsBound(it, k);
    SegHead(b.first, b.v, null);
    FlattenWhole(b.v.datas);
    MissedNone(x, c, it.pos);
    if k < |b.v.chains| { b.NextPiece(k); }
    while chain != null
      invariant b.Valid() && b.StandsIn(Ptr(pos, chain, i), k) && it.pos <= pos <= |c|
      invariant k < |b.v.chains| ==> chain.off == |b.v.datas[k]|
      invariant Missed(x, c, it.pos, pos)
      decreases |b.v.chains| - k
    {
      b.NextPiece(k);
      var n := ScanPiece(b, chain, i, pos, x, k, it.pos);
      if n < chain.off - i {
        r := Ptr(pos + n, chain, i + n);
        assert b.StandsIn(r, k);
        return;
      }
      pos := pos + n;
      chain, i, k := chain.next, 0, k + 1;
    }
    r := NOT_FOUND;
  }

  /** evbuffer_strspn for the set CR, LF. */
  method Strspn(b: Evbuffer, it: Ptr) returns (count: nat)
    requires b.Valid() && b.Denotes(it)
    ensures count == Run(b.Contents(), it.pos)
  {
    hide Nodes, Flatten, Chain.Holds, Placed, Buffers;
    var chain := it.chain;
    var i: nat := it.posInChain;
    ghost var k: nat :| b.StandsIn(it, k);
    ghost var c := b.Contents();
    b.StandsBound(it, k);
    SegHead(b.first, b.v, null);
    FlattenWhole(b.v.datas);
    count := 0;
    while chain != null
      invariant b.Valid() && b.StandsIn(Ptr(it.pos + count, chain, i), k) && it.pos + count <= |c|
      invariant forall j :: it.pos <= j < it.pos + count ==> IsCrLf(c[j])
      decreases |b.v.chains| - k
    {
      b.NextPiece(k);
      var piece := b.PieceOf(chain, k, i, chain.off);
      assert forall j {:trigger c[j]} :: it.pos + count <= j < it.pos + count + |piece| ==>
        c[j] == piece[j - it.pos - count];
      ghost var before := count;
      var n := 0;
      while n < |piece| && IsCrLf(piece[n])
        invariant n <= |piece| && count == before + n
        invariant forall j :: it.pos <= j < it.pos + count ==> IsCrLf(c[j])
      {
        n, count := n + 1, count + 1;
      }
      if n < |piece| {
        RunIs(c, it.pos, count);
        return;
      }
      chain, i, k := chain.next, 0, k + 1;
    }
    RunIs(c, it.pos, count);
  }

  lemma {:induction false} RunIs(c: seq<Byte>, k: nat, n: nat)
    requires k + n <= |c| && (forall j :: k <= j < k + n ==> IsCrLf(c[j])) && (k + n < |c| ==> !IsCrLf(c[k + n]))
    ensures Run(c, k) == n
    decreases n
  {
    if n > 0 { RunIs(c, k + 1, n - 1); }
  }

  /** evbuffer_search_eol. */
  method SearchEol(b: Evbuffer, start: Option<Ptr>, style: EolStyle) returns (r: Ptr, len: nat)
    requires b.Valid() && b.totalLen <= SIZE_MAX && (start.Some? ==> b.Denotes(start.value))
    ensures var from := StartOf(b, start).pos;
            if r == NOT_FOUND
            then len == 0 && forall j :: from <= j ==> !EolAt(style, b.Contents(), j)
            else
              && b.Denotes(r)
              && from <= r.pos
              && EolAt(style, b.Contents(), r.pos)
              && len == EolLen(style, b.Contents(), r.pos)
                 && forall j :: from <= j < r.pos ==> !EolAt(style, b.Contents(), j)
  {
    hide Nodes, Flatten, Chain.Holds, Placed, Buffers;
    StartStands(b, start);
    var it := StartOf(b, start);
    ghost var c := b.Contents();
    ghost var k0: nat :| b.StandsIn(it, k0);
    b.StandsBound(it, k0);
    if start.Some? && start.value.chain == null {
      AtEnd(b, it);
      return NOT_FOUND, 0;
    }
    match style
    case EOL_ANY =>
      r := Scan(b, it, None);
      len := 0;
      if r != NOT_FOUND {
        len := Strspn(b, r);
      }
    case EOL_CRLF_STRICT =>
      r := SearchRange(b, [CR, LF], Some(it), None);
      len := if r == NOT_FOUND then 0 else 2;
    case EOL_CRLF =>
      r, len := SearchCrLf(b, it);
    case EOL_LF =>
      r := Scan(b, it, Some(LF));
      len := if r == NOT_FOUND then 0 else 1;
    case EOL_NUL =>
      r := Scan(b, it, Some(NUL));
      len := if r == NOT_FOUND then 0 else 1;
  }

  lemma AtEnd(b: Evbuffer, it: Ptr)
    requires b.Valid() && b.Denotes(it) && it.chain == null
    ensures it.pos == |b.Contents()|
  {
    hide Nodes, Flatten;
    SegHead(b.first, b.v, null);
    FlattenWhole(b.v.datas);
  }

  /** The EVBUFFER_EOL_CRLF case: an LF, optionally preceded by a CR. */
  method SearchCrLf(b: Evbuffer, it: Ptr) returns (r: Ptr, len: nat)
    requires b.Valid() && b.Denotes(it) && 0 <= it.pos
    ensures if r == NOT_FOUND
            then len == 0 && forall j :: it.pos <= j ==> !EolAt(EOL_CRLF, b.Contents(), j)
            else && b.Denotes(r) && it.pos <= r.pos && EolAt(EOL_CRLF, b.Contents(), r.pos)
                 && len == EolLen(EOL_CRLF, b.Contents(), r.pos)
                 && forall j :: it.pos <= j < r.pos ==> !EolAt(EOL_CRLF, b.Contents(), j)
  {
    hide Seg, Flatten, Chain.Holds, Placed, Buffers, View.Bytes, Evbuffer.Lwd;
    ghost var c := b.Contents();
    ghost var k0: nat :| b.StandsIn(it, k0);
    b.StandsBound(it, k0);
    r := Scan(b, it, Some(LF));
    if r == NOT_FOUND {
      assert c == b.Contents();
      CrLfNeedsLf(c, it.pos, |c|);
      return r, 0;
    }
    CrLfNeedsLf(c, it.pos, r.pos);
    len := 1;
    if r.pos == it.pos {
      return;
    }
    var it2, ok := PtrSubtract(b, r, 1);
    var x := GetChr(b, it2);
    if it2.chain == null {
      AtEnd(b, it2);
    }
    if x == CR as int {
      assert c[it2.pos..it2.pos + 2] == [CR, LF];
      r, len := it2, 2;
    }
  }

  /** Before the first LF only the byte in front of it can begin a terminator. */
  lemma CrLfNeedsLf(c: seq<Byte>, from: int, to: int)
    requires 0 <= from <= to <= |c| && forall j :: from <= j < to ==> c[j] != LF
    ensures forall j :: from <= j < to - 1 ==> !EolAt(EOL_CRLF, c, j)
    ensures from < to && (to == |c| || c[to - 1] != CR) ==> !EolAt(EOL_CRLF, c, to - 1)
  {
    forall j | from <= j < to && EolAt(EOL_CRLF, c, j)
      ensures j == to - 1 && to < |c| && c[to - 1] == CR
    {
      assert c[j..j + 2][0] == c[j] && c[j..j + 2][1] == c[j + 1];
    }
  }

  /** evbuffer_getchr. */
  method GetChr(b: Evbuffer, it: Ptr) returns (x: int)
    requires b.Valid() && Proper(b, it)
    ensures if it.chain == null then x == -1 else 0 <= it.pos < |b.Contents()| && x == b.Contents()[it.pos]
  {
    hide Nodes, Flatten, Chain.Holds, Placed, Buffers;
    if it.chain == null {
      return -1;
    }
    ghost var k: nat :| b.StandsIn(it, k) && (k < |b.v.chains| ==> it.posInChain < |b.v.datas[k]|);
    var piece := b.PieceOf(it.chain, k, it.posInChain, it.posInChain + 1);
    x := piece[0];
  }

  /** evbuffer_readln. */
  method Readln(b: Evbuffer, style: EolStyle) returns (line: Option<seq<Byte>>, nRead: nat)
    requires b.Valid() && b.totalLen <= SIZE_MAX
    modifies b.Repr()
    ensures b.Valid() && b.Repr() <= old(b.Repr())
    ensures b.freezeStart == old(b.freezeStart) && b.freezeEnd == old(b.freezeEnd)
    ensures line == (if b.freezeStart then None else NextLine(style, old(b.Contents())).0)
    ensures b.Contents() == if b.freezeStart then old(b.Contents()) else NextLine(style, old(b.Contents())).1
    ensures nRead == if line.Some? then |line.value| else 0
  {
    hide Nodes, Flatten, Chain.Holds, Placed, Buffers, NextLine, EolAt, EolLen, FirstEol, MatchAt;
    if b.freezeStart {
      return None, 0;
    }
    var it, extra := SearchEol(b, None, style);
    ghost var c := b.Contents();
    NextLineIs(style, c, it.pos);
    if it.pos < 0 {
      return None, 0;
    }
    ghost var k0: nat :| b.StandsIn(it, k0);
    b.StandsBound(it, k0);
    EolBound(style, c, it.pos);
    SliceTwice(c, [], it.pos, extra);
    var n, data := b.Remove(it.pos);
    var ok := b.Drain(extra);
    line, nRead := Some(data), it.pos;
  }

  /** The first terminator at or after `from`, or -1. */
  function FirstEol(style: EolStyle, c: seq<Byte>, from: nat): (k: int)
    ensures k == -1 || (from <= k < |c| && EolAt(style, c, k))
    ensures forall j :: from <= j < (if k == -1 then |c| else k) ==> !EolAt(style, c, j)
    decreases |c| - from
  {
    if from >= |c| then -1 else if EolAt(style, c, from) then from else FirstEol(style, c, from + 1)
  }

  /** The line evbuffer_readln takes off `c`, and what it leaves. */
  function NextLine(style: EolStyle, c: seq<Byte>): (Option<seq<Byte>>, seq<Byte>) {
    var k := FirstEol(style, c, 0);
    if k == -1 then (None, c) else (Some(c[..k]), c[k + EolLen(style, c, k)..])
  }

  lemma NextLineIs(style: EolStyle, c: seq<Byte>, k: int)
    requires if k == -1 then forall j :: 0 <= j ==> !EolAt(style, c, j)
             else EolAt(style, c, k) && forall j :: 0 <= j < k ==> !EolAt(style, c, j)
    ensures NextLine(style, c) == if k == -1 then (None, c) else (Some(c[..k]), c[k + EolLen(style, c, k)..])
  {
  }

  /** The lines and terminators that reading takes off `c` until no line is left, and the rest. */
  function AllLines(style: EolStyle, c: seq<Byte>): (r: (seq<(seq<Byte>, seq<Byte>)>, seq<Byte>))
    decreases |c|
  {
    var k := FirstEol(style, c, 0);
    if k == -1 then ([], c)
    else
      var n := EolLen(style, c, k);
      var (ls, rest) := AllLines(style, c[k + n..]);
      ([(c[..k], c[k..k + n])] + ls, rest)
  }

  function JoinLines(ls: seq<(seq<Byte>, seq<Byte>)>): seq<Byte> {
    if ls == [] then [] else ls[0].0 + ls[0].1 + JoinLines(ls[1..])
  }

  lemma EolPrefix(style: EolStyle, c: seq<Byte>, k: nat, j: int)
    requires k <= |c| && EolAt(style, c[..k], j)
    ensures EolAt(style, c, j)
  {
    assert c[..k][j] == c[j];
    if j + 2 <= k {
      SliceSlice(c, 0, k, j, j + 2);
    }
  }

  lemma EolBound(style: EolStyle, c: seq<Byte>, k: nat)
    requires EolAt(style, c, k)
    ensures 0 < EolLen(style, c, k) && k + EolLen(style, c, k) <= |c|
  {
  }

  /** No terminator begins inside `s`. */
  ghost predicate NoEol(style: EolStyle, s: seq<Byte>) {
    forall j :: !EolAt(style, s, j)
  }

  lemma FirstEolLine(style: EolStyle, c: seq<Byte>)
    ensures var k := FirstEol(style, c, 0);
            NoEol(style, if k == -1 then c else c[..k])
  {
    var k := FirstEol(style, c, 0);
    var line := if k == -1 then c else c[..k];
    forall j ensures !EolAt(style, line, j) {
      if k != -1 && EolAt(style, c[..k], j) { EolPrefix(style, c, k, j); }
    }
  }

  /** Nothing is lost, every terminator is non-empty, and no terminator begins inside a line or in the rest. */
  lemma {:induction false} LinesLossless(style: EolStyle, c: seq<Byte>)
    ensures var (ls, rest) := AllLines(style, c);
            && JoinLines(ls) + rest == c
            && NoEol(style, rest)
            && (forall i :: 0 <= i < |ls| ==> ls[i].1 != [] && NoEol(style, ls[i].0))
    decreases |c|
  {
    hide EolAt, EolLen, FirstEol, NoEol, JoinLines, AllLines;
    var k := FirstEol(style, c, 0);
    FirstEolLine(style, c);
    if k == -1 {
      NoneLeft(style, c);
      JoinNone();
    } else {
      EolBound(style, c, k);
      var n := EolLen(style, c, k);
      var (ls, rest) := AllLines(style, c[k + n..]);
      LinesLossless(style, c[k + n..]);
      var head := (c[..k], c[k..k + n]);
      AllLinesMore(style, c, k, n);
      JoinMore(head, ls);
      CutThree(c, k, k + n, JoinLines(ls), rest);
    }
  }

  lemma AllLinesMore(style: EolStyle, c: seq<Byte>, k: nat, n: nat)
    requires k == FirstEol(style, c, 0) && n == EolLen(style, c, k) && k + n <= |c|
    ensures AllLines(style, c) ==
      ([(c[..k], c[k..k + n])] + AllLines(style, c[k + n..]).0, AllLines(style, c[k + n..]).1)
  {
  }

  lemma NoneLeft(style: EolStyle, c: seq<Byte>)
    requires FirstEol(style, c, 0) == -1
    ensures AllLines(style, c) == ([], c)
  {
  }

  lemma JoinNone()
    ensures JoinLines([]) == []
  {
  }

  lemma JoinMore(head: (seq<Byte>, seq<Byte>), ls: seq<(seq<Byte>, seq<Byte>)>)
    ensures JoinLines([head] + ls) == head.0 + head.1 + JoinLines(ls)
  {
    assert ([head] + ls)[1..] == ls;
  }

  lemma CutThree(c: seq<Byte>, k: nat, m: nat, a: seq<Byte>, b: seq<Byte>)
    requires k <= m <= |c| && a + b == c[m..]
    ensures c[..k] + c[k..m] + a + b == c
  {
    assert c[..k] + c[k..m] + a + b == c[..k] + c[k..m] + (a + b);
    assert c[..k] + c[k..m] == c[..m];
  }

  /** What a terminator of each style looks like, and what it ends. */
  ghost predicate Terminates(style: EolStyle, line: seq<Byte>, eol: seq<Byte>) {
    match style
    case EOL_ANY => eol != [] && (forall x :: x in eol ==> IsCrLf(x)) && forall x :: x in line ==> !IsCrLf(x)
    case EOL_CRLF =>
      && (eol == [CR, LF] || (eol == [LF] && (line == [] || line[|line| - 1] != CR)))
      && LF !in line
    case EOL_CRLF_STRICT => eol == [CR, LF] && forall k :: 0 <= k < |line| - 1 && line[k] == CR ==> line[k + 1] != LF
    case EOL_LF => eol == [LF] && LF !in line
    case EOL_NUL => eol == [NUL] && NUL !in line
  }

  lemma CrLfAt(c: seq<Byte>, j: nat)
    ensures j + 1 < |c| && c[j] == CR && c[j + 1] == LF ==> MatchAt(c, [CR, LF], j)
  {
    if j + 1 < |c| { assert c[j..j + 2] == [c[j], c[j + 1]]; }
  }

  lemma LineTerminated(style: EolStyle, c: seq<Byte>, k: nat)
    requires EolAt(style, c, k) && forall j :: 0 <= j < k ==> !EolAt(style, c, j)
    ensures k + EolLen(style, c, k) <= |c| && Terminates(style, c[..k], c[k..k + EolLen(style, c, k)])
    ensures style == EOL_ANY && k + EolLen(style, c, k) < |c| ==> !IsCrLf(c[k + EolLen(style, c, k)])
  {
    EolBound(style, c, k);
    var line, eol := c[..k], c[k..k + EolLen(style, c, k)];
    forall j | 0 <= j < k ensures line[j] == c[j] && !EolAt(style, c, j) {
    }
    match style
    case EOL_ANY =>
      forall x | x in eol ensures IsCrLf(x) {
        var j :| 0 <= j < |eol| && eol[j] == x;
        assert x == c[k + j];
      }
    case EOL_CRLF =>
      if c[k] == LF {
        assert eol == [LF];
        if k > 0 { CrLfAt(c, k - 1); }
      } else {
        assert eol == [CR, LF];
      }
    case EOL_CRLF_STRICT =>
      forall j | 0 <= j < k - 1 && line[j] == CR ensures line[j + 1] != LF {
        CrLfAt(c, j);
      }
    case EOL_LF => assert eol == [LF];
    case EOL_NUL => assert eol == [NUL];
  }

  /**
   * Every line that reading takes off ends as its style says and holds no terminator itself. With EOL_ANY all line ends
   * in a row are one terminator, so no line but the first is empty.
   */
  lemma {:induction false} LinesTerminated(style: EolStyle, c: seq<Byte>)
    ensures var ls := AllLines(style, c).0;
      && (forall i :: 0 <= i < |ls| ==> Terminates(style, ls[i].0, ls[i].1))
      && (style == EOL_ANY ==> forall i :: 0 < i < |ls| ==> ls[i].0 != [])
      && (style == EOL_ANY && c != [] && !IsCrLf(c[0]) ==> forall i :: 0 <= i < |ls| ==> ls[i].0 != [])
    decreases |c|
  {
    hide EolAt, EolLen, FirstEol, Terminates, NoEol;
    var k := FirstEol(style, c, 0);
    if k != -1 {
      LineTerminated(style, c, k);
      EolBound(style, c, k);
      var n := EolLen(style, c, k);
      var rest := c[k + n..];
      LinesTerminated(style, rest);
      AllLinesMore(style, c, k, n);
      var ls, more := AllLines(style, c).0, AllLines(style, rest).0;
      assert forall i :: 0 < i < |ls| ==> ls[i] == more[i - 1];
      if style == EOL_ANY {
        AnyStarts(c, k);
        if rest == [] { NoLines(style); }
      }
    }
  }

  lemma AnyStarts(c: seq<Byte>, k: nat)
    requires EolAt(EOL_ANY, c, k)
    ensures k == 0 ==> IsCrLf(c[0])
  {
  }

  lemma NoLines(style: EolStyle)
    ensures AllLines(style, []) == ([], [])
  {
  }
}
