/** Domain names in DNS messages (RFC 1035, sections 3.1 and 4.1.4), as evdns.c writes and reads them. */
module DnsNames {
  import opened Bytes

  const DOT: Byte := 46
  const MAX_LABELS := 128
  const OFFSET_RANGE := 0x4000

  /** Where the first label of a name ends: `strchr(name, '.')`. */
  function DotAt(name: seq<Byte>): (k: nat)
    ensures k <= |name| && (k < |name| ==> name[k] == DOT) && DOT !in name[..k]
  {
    if name == [] || name[0] == DOT then 0 else 1 + DotAt(name[1..])
  }

  /** The labels are at most 63 bytes long. */
  ghost predicate ShortLabels(name: seq<Byte>) {
    DotAt(name) <= 63 && (DotAt(name) < |name| ==> ShortLabels(name[DotAt(name) + 1..]))
  }

  /** The number in the 14 low bits of a compression pointer. */
  function Target(m: seq<Byte>, pos: nat): nat
    requires pos + 1 < |m|
  {
    (m[pos] as int % 64) * 256 + m[pos + 1]
  }

  /**
   * Reading from `pos` on yields the labels of `name`; every byte read lies below `hi` and every pointer goes backward.
   */
  ghost predicate Spells(m: seq<Byte>, pos: nat, hi: nat, name: seq<Byte>)
    decreases hi, |name|
  {
    && pos < hi <= |m|
    && if m[pos] >= 192 then
         pos + 2 <= hi && Target(m, pos) < pos && Spells(m, Target(m, pos), pos, name)
       else
         var l := DotAt(name);
         && m[pos] == l <= 63
         && (l != 0 ==>
              && pos + 1 + l < hi && m[pos + 1..pos + 1 + l] == name[..l]
              && if l < |name| then Spells(m, pos + 1 + l, hi, name[l + 1..]) else m[pos + 1 + l] == 0)
  }

  /** The position behind a name. */
  ghost function NameEnd(m: seq<Byte>, pos: nat, hi: nat, name: seq<Byte>): (e: nat)
    requires Spells(m, pos, hi, name)
    ensures pos < e <= hi
    decreases hi, |name|
  {
    var l := DotAt(name);
    if m[pos] >= 192 then pos + 2
    else if l == 0 then pos + 1
    else if l < |name| then NameEnd(m, pos + 1 + l, hi, name[l + 1..])
    else pos + l + 2
  }

  /** A label is added to a name that is being read. */
  function Joined(out: seq<Byte>, more: seq<Byte>): seq<Byte> {
    if more == [] then out else if out == [] then more else out + [DOT] + more
  }

  /** The labels in front of the first empty one. */
  function Trunc(name: seq<Byte>): (t: seq<Byte>)
    ensures |t| <= |name|
  {
    var l := DotAt(name);
    if l == 0 then [] else if l == |name| then name else Joined(name[..l], Trunc(name[l + 1..]))
  }

  /** No label is empty. */
  ghost predicate FullLabels(name: seq<Byte>) {
    DotAt(name) > 0 && (DotAt(name) < |name| ==> FullLabels(name[DotAt(name) + 1..]))
  }

  /** A name is read back in full exactly when it has no empty label, or nothing else. */
  lemma {:induction false} TruncIffFull(name: seq<Byte>)
    ensures Trunc(name) == name <==> name == [] || FullLabels(name)
  {
    var l := DotAt(name);
    if 0 < l < |name| {
      var tail := name[l + 1..];
      TruncIffFull(tail);
      assert name == name[..l] + [DOT] + tail;
      if Trunc(name) == name {
        assert Trunc(tail) == name[l + 1..];
      }
    }
  }

  function EndOr(end: Option<nat>, j: nat): nat {
    if end.Some? then end.value else j
  }

  /** What name_parse makes of the bytes from `j` on, with `out` read and `jumps` pointers followed so far. */
  function Walk(m: seq<Byte>, j: nat, out: seq<Byte>, jumps: nat, end: Option<nat>,
      cap: nat): (r: Option<(seq<Byte>, nat)>)
    requires jumps <= |m| && (end.Some? ==> end.value <= |m|)
    ensures r.Some? ==> |r.value.0| < cap && r.value.1 <= |m|
    decreases |m| - jumps, |m| - j
  {
    if j >= |m| then None
    else if m[j] == 0 then
      if |out| >= cap then None else Some((out, EndOr(end, j + 1)))
    else if m[j] >= 64 then
      if j + 1 >= |m| || Target(m, j) >= |m| || jumps + 1 > |m| then None
      else Walk(m, Target(m, j), out, jumps + 1, if end.Some? then end else Some(j + 2), cap)
    else
      var o := if out == [] then [] else out + [DOT];
      if (out != [] && |out| + 1 >= cap) || |o| + m[j] >= cap || j + 1 + m[j] > |m| then None
      else Walk(m, j + 1 + m[j], o + m[j + 1..j + 1 + m[j]], jumps, end, cap)
  }

  lemma WalkLabel(m: seq<Byte>, j: nat, l: nat, out: seq<Byte>, jumps: nat, end: Option<nat>, cap: nat)
    requires j + 1 + l < |m| && m[j] == l && 0 < l <= 63 && jumps <= |m| && (end.Some? ==> end.value <= |m|)
    requires |out| + 1 + l < cap || (out == [] && l < cap)
    ensures Walk(m, j, out, jumps, end, cap) == Walk(m, j + 1 + l, Joined(out, m[j + 1..j + 1 + l]), jumps, end, cap)
  {
    var o := if out == [] then [] else out + [DOT];
    assert o + m[j + 1..j + 1 + l] == Joined(out, m[j + 1..j + 1 + l]);
  }

  lemma JoinedTwice(out: seq<Byte>, a: seq<Byte>, b: seq<Byte>)
    requires a != []
    ensures Joined(Joined(out, a), b) == Joined(out, Joined(a, b))
    ensures |Joined(out, a)| <= |Joined(out, Joined(a, b))|
    ensures |Joined(out, a)| == if out == [] then |a| else |out| + 1 + |a|
  {
  }

  /** What is spelled is what is read. */
  lemma {:induction false} WalkSpells(m: seq<Byte>, pos: nat, hi: nat, name: seq<Byte>, out: seq<Byte>, jumps: nat,
      end: Option<nat>, cap: nat)
    requires Spells(m, pos, hi, name) && jumps + hi <= |m| && (end.Some? ==> end.value <= |m|)
    requires |Joined(out, Trunc(name))| < cap
    ensures Walk(m, pos, out, jumps, end, cap)
         == Some((Joined(out, Trunc(name)), EndOr(end, NameEnd(m, pos, hi, name))))
    decreases hi, |name|
  {
    hide Target, Walk, Joined, Trunc, DotAt;
    var l := DotAt(name);
    TruncStep(name);
    if m[pos] >= 192 {
      WalkPointer(m, pos, out, jumps, end, cap);
      WalkSpells(m, Target(m, pos), pos, name, out, jumps + 1, if end.Some? then end else Some(pos + 2), cap);
    } else if l == 0 {
      JoinedNone(out);
      WalkLast(m, pos, out, jumps, end, cap);
    } else {
      var part := name[..l];
      var more := if l < |name| then Trunc(name[l + 1..]) else [];
      assert Trunc(name) == Joined(part, more);
      JoinedTwice(out, part, more);
      WalkLabel(m, pos, l, out, jumps, end, cap);
      if l < |name| {
        WalkSpells(m, pos + 1 + l, hi, name[l + 1..], Joined(out, part), jumps, end, cap);
      } else {
        JoinedNone(Joined(out, part));
        WalkLast(m, pos + 1 + l, Joined(out, part), jumps, end, cap);
      }
    }
  }

  lemma TruncStep(name: seq<Byte>)
    ensures var l := DotAt(name);
      Trunc(name) == if l == 0 then [] else Joined(name[..l], if l < |name| then Trunc(name[l + 1..]) else [])
  {
  }

  lemma JoinedNone(out: seq<Byte>)
    ensures Joined(out, []) == out
  {
  }

  lemma WalkPointer(m: seq<Byte>, j: nat, out: seq<Byte>, jumps: nat, end: Option<nat>, cap: nat)
    requires j + 1 < |m| && m[j] >= 64 && Target(m, j) < |m| && jumps < |m| && (end.Some? ==> end.value <= |m|)
    ensures Walk(m, j, out, jumps, end, cap)
         == Walk(m, Target(m, j), out, jumps + 1, if end.Some? then end else Some(j + 2), cap)
  {
  }

  lemma WalkLast(m: seq<Byte>, j: nat, out: seq<Byte>, jumps: nat, end: Option<nat>, cap: nat)
    requires j < |m| && jumps <= |m| && (end.Some? ==> end.value <= |m|)
    ensures m[j] == 0 && |out| < cap ==> Walk(m, j, out, jumps, end, cap) == Some((out, EndOr(end, j + 1)))
  {
  }

  /** name_parse. It returns for every packet: each turn follows one of finitely many pointers or moves on.
      A length byte above 63 is taken for the first byte of a pointer. */
  method NameParse(packet: array<Byte>, length: nat, idx: nat, nameOut: array<Byte>, nameOutLen: nat)
    returns (r: int, idx': nat, ghost n: nat)
    requires length <= packet.Length && nameOutLen <= nameOut.Length && packet != nameOut
    modifies nameOut
    ensures match Walk(packet[..length], idx, [], 0, None, nameOutLen)
      case None => r == -1
      case Some((name, end)) =>
        && r == 0
        && idx' == end
        && n == |name| < nameOutLen
        && nameOut[..n] == name
        && nameOut[n] == 0
  {
    hide Target, Walk, Joined, PointerTarget;
    ghost var m := packet[..length];
    var nameEnd: Option<nat>, j: nat, ptrCount: nat, cp: nat := None, idx, 0, 0;
    assert nameOut[..0] == [];
    while true
      invariant cp <= nameOutLen && ptrCount <= length && (nameEnd.Some? ==> nameEnd.value <= length)
      invariant packet[..length] == m
      invariant Walk(m, j, nameOut[..cp], ptrCount, nameEnd, nameOutLen) == Walk(m, idx, [], 0, None, nameOutLen)
      decreases length - ptrCount, length - j
    {
      WalkStep(m, j, nameOut[..cp], ptrCount, nameEnd, nameOutLen);
      if j >= length {
        return -1, idx, 0;
      }
      var labelLen := packet[j];
      if labelLen == 0 {
        j := j + 1;
        break;
      }
      if labelLen >= 64 {
        if j + 1 >= length {
          return -1, idx, 0;
        }
        var ptrLow := packet[j + 1];
        if nameEnd.None? {
          nameEnd := Some(j + 2);
        }
        j := PointerTarget(labelLen, ptrLow);
        if j >= length {
          return -1, idx, 0;
        }
        if ptrCount + 1 > length {
          return -1, idx, 0;
        }
        ptrCount := ptrCount + 1;
        continue;
      }
      ghost var out := nameOut[..cp];
      if cp != 0 {
        if cp + 1 >= nameOutLen {
          return -1, idx, 0;
        }
        nameOut[cp] := DOT;
        cp := cp + 1;
      }
      if cp + labelLen >= nameOutLen {
        return -1, idx, 0;
      }
      if j + 1 + labelLen > length {
        return -1, idx, 0;
      }
      Memcpy(nameOut, cp, packet[j + 1..j + 1 + labelLen]);
      SliceOfPacket(packet, length, j + 1, j + 1 + labelLen);
      cp := cp + labelLen;
      assert nameOut[..cp] == (if out == [] then [] else out + [DOT]) + m[j + 1..j + 1 + labelLen];
      j := j + 1 + labelLen;
    }
    if cp >= nameOutLen {
      return -1, idx, 0;
    }
    nameOut[cp] := 0;
    n := cp;
    r, idx' := 0, if nameEnd.None? then j else nameEnd.value;
  }

  lemma SliceOfPacket(packet: array<Byte>, length: nat, a: nat, b: nat)
    requires a <= b <= length <= packet.Length
    ensures packet[a..b] == packet[..length][a..b]
  {
    assert forall k :: 0 <= k < b - a ==> packet[a..b][k] == packet[..length][a..b][k];
  }

  function PointerTarget(hi: Byte, lo: Byte): nat {
    (hi as int % 64) * 256 + lo
  }

  lemma WalkStep(m: seq<Byte>, j: nat, out: seq<Byte>, jumps: nat, end: Option<nat>, cap: nat)
    requires jumps <= |m| && (end.Some? ==> end.value <= |m|)
    ensures j >= |m| ==> Walk(m, j, out, jumps, end, cap) == None
    ensures j < |m| && m[j] == 0 ==>
      Walk(m, j, out, jumps, end, cap) == if |out| >= cap then None else Some((out, EndOr(end, j + 1)))
    ensures j < |m| && m[j] >= 64 ==>
      Walk(m, j, out, jumps, end, cap) ==
        if j + 1 >= |m| || PointerTarget(m[j], m[j + 1]) >= |m| || jumps + 1 > |m| then None
        else Walk(m, PointerTarget(m[j], m[j + 1]), out, jumps + 1, if end.Some? then end else Some(j + 2), cap)
    ensures j < |m| && 0 < m[j] < 64 ==>
      var o := if out == [] then [] else out + [DOT];
      Walk(m, j, out, jumps, end, cap) ==
        if (out != [] && |out| + 1 >= cap) || |o| + m[j] >= cap || j + 1 + m[j] > |m| then None
        else Walk(m, j + 1 + m[j], o + m[j + 1..j + 1 + m[j]], jumps, end, cap)
  {
  }

  /** struct dnslabel_entry. */
  datatype LabelEntry = LabelEntry(v: seq<Byte>, pos: nat)

  /** Every entry tells where its name stands, among the first `hi` bytes. */
  ghost predicate Sound(es: seq<LabelEntry>, m: seq<Byte>, hi: nat) {
    forall e :: e in es ==> e.pos < OFFSET_RANGE && Spells(m, e.pos, hi, e.v)
  }

  /** struct dnslabel_table. */
  class LabelTable {
    var nLabels: nat
    const labels: array<LabelEntry>

    ghost predicate Valid()
      reads this
    {
      labels.Length == MAX_LABELS && nLabels <= MAX_LABELS
    }

    ghost function Entries(): seq<LabelEntry>
      requires Valid()
      reads this, labels
    {
      labels[..nLabels]
    }

    /** dnslabel_table_init. */
    constructor ()
      ensures Valid() && Entries() == [] && fresh(labels)
    {
      nLabels := 0;
      labels := new LabelEntry[MAX_LABELS](_ => LabelEntry([], 0));
    }

    /** dnslabel_table_get_pos. */
    method GetPos(name: seq<Byte>) returns (pos: int)
      requires Valid()
      ensures pos >= -1 && (pos >= 0 ==> exists i :: 0 <= i < |Entries()| && Entries()[i] == LabelEntry(name, pos))
      ensures pos == -1 <==> forall i :: 0 <= i < |Entries()| ==> Entries()[i].v != name
    {
      var i: nat := 0;
      while i < nLabels
        invariant i <= nLabels && forall k :: 0 <= k < i ==> Entries()[k].v != name
      {
        if name == labels[i].v {
          assert Entries()[i] == LabelEntry(name, labels[i].pos);
          return labels[i].pos;
        }
        i := i + 1;
      }
      return -1;
    }

    /** dnslabel_table_add; a full table stays as it is. */
    method Add(name: seq<Byte>, pos: nat) returns (ok: bool)
      requires Valid()
      modifies this, labels
      ensures Valid() && ok == (old(nLabels) < MAX_LABELS)
      ensures Entries() == if ok then old(Entries()) + [LabelEntry(name, pos)] else old(Entries())
    {
      if nLabels == MAX_LABELS {
        return false;
      }
      labels[nLabels] := LabelEntry(name, pos);
      nLabels := nLabels + 1;
      return true;
    }
  }

  lemma SamePart(m: seq<Byte>, m': seq<Byte>, hi: nat, a: nat, b: nat)
    requires hi <= |m| && hi <= |m'| && m[..hi] == m'[..hi] && a <= b <= hi
    ensures m[a..b] == m'[a..b] && m[..a] == m'[..a]
    ensures forall i :: 0 <= i < hi ==> m[i] == m'[i]
  {
    assert forall i :: 0 <= i < hi ==> m[i] == m[..hi][i] && m'[i] == m'[..hi][i];
  }

  /** More bytes do not disturb what is spelled. */
  lemma {:induction false} SpellsStill(m: seq<Byte>, pos: nat, hi: nat, name: seq<Byte>, m': seq<Byte>, hi': nat)
    requires Spells(m, pos, hi, name) && hi <= hi' <= |m'| && m[..hi] == m'[..hi]
    ensures Spells(m', pos, hi', name) && NameEnd(m', pos, hi', name) == NameEnd(m, pos, hi, name)
    decreases hi, |name|
  {
    hide DotAt;
    var l := DotAt(name);
    SamePart(m, m', hi, pos, pos);
    if m[pos] >= 192 {
      SpellsStill(m, Target(m, pos), pos, name, m', pos);
    } else if l != 0 {
      SamePart(m, m', hi, pos + 1, pos + 1 + l);
      if l < |name| {
        SpellsStill(m, pos + 1 + l, hi, name[l + 1..], m', hi');
      } else {
        assert m[pos + 1 + l] == m'[pos + 1 + l];
      }
    }
  }

  lemma SoundStill(es: seq<LabelEntry>, m: seq<Byte>, hi: nat, m': seq<Byte>, hi': nat)
    requires Sound(es, m, hi) && hi <= hi' <= |m'| && hi <= |m| && m[..hi] == m'[..hi]
    ensures Sound(es, m', hi')
  {
    forall e | e in es ensures Spells(m', e.pos, hi', e.v) {
      SpellsStill(m, e.pos, hi, e.v, m', hi');
    }
  }

  /** The first label of `name` stands at `pos`, with its length in front. */
  ghost predicate LabelAt(m: seq<Byte>, pos: nat, name: seq<Byte>) {
    var l := DotAt(name);
    pos + 1 + l <= |m| && m[pos] == l <= 63 && m[pos + 1..pos + 1 + l] == name[..l]
  }

  /** The labels of `ps` have been written one behind the other; the rest of the name, `rest`, goes to `j`. */
  ghost predicate Pending(m: seq<Byte>, ps: seq<LabelEntry>, rest: seq<Byte>, j: nat)
    decreases |ps|
  {
    ps != [] ==>
      var e := ps[|ps| - 1];
      var l := DotAt(e.v);
      && LabelAt(m, e.pos, e.v) && l < |e.v| && e.v[l + 1..] == rest && j == e.pos + 1 + l
      && Pending(m, ps[..|ps| - 1], e.v, e.pos)
  }

  /** The whole name that is being written, and where it starts. */
  ghost function Whole(ps: seq<LabelEntry>, rest: seq<Byte>, j: nat): LabelEntry {
    if ps == [] then LabelEntry(rest, j) else ps[0]
  }

  /** All labels but the last are non-empty. */
  ghost predicate InnerFull(name: seq<Byte>) {
    DotAt(name) < |name| ==> DotAt(name) > 0 && InnerFull(name[DotAt(name) + 1..])
  }

  lemma {:induction false} PendingStill(m: seq<Byte>, ps: seq<LabelEntry>, rest: seq<Byte>, j: nat, m': seq<Byte>)
    requires Pending(m, ps, rest, j) && j <= |m| && j <= |m'| && m[..j] == m'[..j]
    ensures Pending(m', ps, rest, j)
    ensures forall e :: e in ps ==> |e.v| > |rest| && e.pos < j
    decreases |ps|
  {
    hide DotAt, LabelAt;
    if ps != [] {
      var init, e := ps[..|ps| - 1], ps[|ps| - 1];
      LabelStill(m, m', j, e.pos, e.v);
      PendingStill(m, init, e.v, e.pos, m');
      forall f | f in ps ensures |f.v| > |rest| && f.pos < j {
        assert f == e || f in init;
      }
    }
  }

  lemma LabelStill(m: seq<Byte>, m': seq<Byte>, j: nat, pos: nat, name: seq<Byte>)
    requires LabelAt(m, pos, name) && pos + 1 + DotAt(name) == j && j <= |m'| && m[..j] == m'[..j]
    ensures LabelAt(m', pos, name) && m[..pos] == m'[..pos]
  {
    hide DotAt;
    SamePart(m, m', j, pos, pos);
    SamePart(m, m', j, pos + 1, j);
  }

  /** When the rest of the name is there, all of it is. */
  lemma {:induction false} PendingSpells(m: seq<Byte>, ps: seq<LabelEntry>, rest: seq<Byte>, j: nat, hi: nat)
    requires Pending(m, ps, rest, j) && Spells(m, j, hi, rest)
    ensures forall e :: e in ps ==> Spells(m, e.pos, hi, e.v)
    ensures var w := Whole(ps, rest, j);
      && Spells(m, w.pos, hi, w.v)
      && (InnerFull(w.v) ==> InnerFull(rest) && NameEnd(m, w.pos, hi, w.v) == NameEnd(m, j, hi, rest))
    decreases |ps|
  {
    hide DotAt, Spells, NameEnd, InnerFull, LabelAt;
    if ps != [] {
      var e := ps[|ps| - 1];
      LabelSpells(m, e.pos, e.v, rest, j, hi);
      PendingSpells(m, ps[..|ps| - 1], e.v, e.pos, hi);
      assert ps == ps[..|ps| - 1] + [e];
    }
  }

  lemma LabelSpells(m: seq<Byte>, pos: nat, name: seq<Byte>, rest: seq<Byte>, j: nat, hi: nat)
    requires LabelAt(m, pos, name) && DotAt(name) < |name| && name[DotAt(name) + 1..] == rest
    requires j == pos + 1 + DotAt(name) && Spells(m, j, hi, rest)
    ensures Spells(m, pos, hi, name)
    ensures InnerFull(name) ==> InnerFull(rest) && NameEnd(m, pos, hi, name) == NameEnd(m, j, hi, rest)
  {
    hide DotAt;
  }

  /** APPEND16 within bounds. */
  method Append16(buf: array<Byte>, j: nat, x: nat)
    requires j + 2 <= buf.Length && x < 0x1_0000
    modifies buf
    ensures buf[..] == old(buf[..j]) + [x / 256, x % 256] + old(buf[j + 2..])
  {
    buf[j], buf[j + 1] := x / 256, x % 256;
  }

  /** `buf[j++] = label_len; memcpy(buf + j, start, label_len)`. */
  method PutLabel(buf: array<Byte>, j: nat, name: seq<Byte>)
    requires DotAt(name) <= 63 && j + DotAt(name) + 1 <= buf.Length
    modifies buf
    ensures buf[..j] == old(buf[..j]) && LabelAt(buf[..j + DotAt(name) + 1], j, name)
    ensures DotAt(name) > 0 ==> buf[j + DotAt(name)] == name[DotAt(name) - 1]
  {
    hide DotAt;
    var l := DotAt(name);
    buf[j] := l;
    Memcpy(buf, j + 1, name[..l]);
    ghost var m := buf[..j + l + 1];
    assert forall k :: 0 <= k < l ==> m[j + 1..j + 1 + l][k] == m[j + 1 + k] == name[k];
    assert m[j + 1..j + 1 + l] == name[..l];
  }

  /** A pointer to an earlier position spells what stands there. */
  lemma PointerSpells(m: seq<Byte>, j: nat, ref: nat, name: seq<Byte>, m': seq<Byte>)
    requires j <= |m| && Spells(m, ref, j, name) && ref < OFFSET_RANGE
    requires |m'| == j + 2 && m'[..j] == m[..j] && m'[j] == (0xC000 + ref) / 256 && m'[j + 1] == (0xC000 + ref) % 256
    ensures Spells(m', j, j + 2, name) && NameEnd(m', j, j + 2, name) == j + 2
  {
    SpellsStill(m, ref, j, name, m', j);
    assert Target(m', j) == ref;
  }

  /** The last label, and the zero behind it unless it is empty. */
  lemma LastSpells(m: seq<Byte>, j: nat, name: seq<Byte>)
    requires LabelAt(m, j, name) && DotAt(name) == |name|
    requires |m| == (if name == [] then j + 1 else j + |name| + 2) && m[|m| - 1] == 0
    ensures Spells(m, j, |m|, name) && NameEnd(m, j, |m|, name) == |m|
  {
  }

  /** What dnsname_to_labels leaves when it succeeds. */
  ghost predicate Written(m: seq<Byte>, j0: nat, j: nat, name: seq<Byte>) {
    && j == |m| && Spells(m, j0, j, name)
    && (InnerFull(name) ==> NameEnd(m, j0, j, name) == j)
  }

  /** The table holds `all`, or as much of it as there is space for. */
  ghost predicate TableHas(entries: seq<LabelEntry>, all: seq<LabelEntry>) {
    entries == all || (|entries| == MAX_LABELS && entries <= all)
  }

  lemma TableAdds(entries: seq<LabelEntry>, es: seq<LabelEntry>, ps: seq<LabelEntry>, e: LabelEntry,
      entries': seq<LabelEntry>)
    requires TableHas(entries, es + ps) && |entries| <= MAX_LABELS
    requires entries' == if |entries| < MAX_LABELS then entries + [e] else entries
    ensures TableHas(entries', es + (ps + [e]))
  {
    assert es + (ps + [e]) == (es + ps) + [e];
    assert entries <= (es + ps) + [e];
  }

  /** A name that is found in the table was there before the name that is being written. */
  lemma RefFound(entries: seq<LabelEntry>, es: seq<LabelEntry>, ps: seq<LabelEntry>, m0: seq<Byte>, m: seq<Byte>,
      cur: seq<Byte>, ref: nat, j0: nat, j: nat)
    requires TableHas(entries, es + ps) && LabelEntry(cur, ref) in entries && Sound(es, m0, j0)
    requires Pending(m, ps, cur, j) && j0 <= j == |m| && |m0| == j0 && m[..j0] == m0
    ensures ref < OFFSET_RANGE && Spells(m, ref, j, cur)
  {
    hide Pending, Spells;
    PendingStill(m, ps, cur, j, m);
    assert LabelEntry(cur, ref) in es + ps;
    assert m0[..j0] == m0;
    SpellsStill(m0, ref, j0, cur, m, j);
  }

  /** The rest of the name has been written. */
  lemma Finish(m: seq<Byte>, m': seq<Byte>, ps: seq<LabelEntry>, cur: seq<Byte>, j: nat, name: seq<Byte>, j0: nat)
    requires Pending(m, ps, cur, j) && j == |m| <= |m'| && m'[..j] == m && Whole(ps, cur, j) == LabelEntry(name, j0)
    requires Spells(m', j, |m'|, cur) && NameEnd(m', j, |m'|, cur) == |m'|
    ensures Written(m', j0, |m'|, name)
    ensures forall e :: e in ps ==> Spells(m', e.pos, |m'|, e.v) && e.pos < j
  {
    hide Pending, Spells, NameEnd, InnerFull;
    assert m[..j] == m;
    PendingStill(m, ps, cur, j, m');
    PendingSpells(m', ps, cur, j, |m'|);
  }

  lemma TableFinish(entries: seq<LabelEntry>, es: seq<LabelEntry>, ps: seq<LabelEntry>, m0: seq<Byte>, m': seq<Byte>)
    requires TableHas(entries, es + ps) && Sound(es, m0, |m0|) && |m0| <= |m'| && m'[..|m0|] == m0
    requires forall e :: e in ps ==> e.pos < OFFSET_RANGE && Spells(m', e.pos, |m'|, e.v)
    ensures Sound(entries, m', |m'|)
  {
    hide Spells;
    assert m0[..|m0|] == m0;
    SoundStill(es, m0, |m0|, m', |m'|);
    assert forall e :: e in entries ==> e in es + ps;
  }

  lemma PendingMore(m: seq<Byte>, m': seq<Byte>, ps: seq<LabelEntry>, cur: seq<Byte>, j: nat)
    requires Pending(m, ps, cur, j) && j == |m| <= |m'| && m'[..j] == m
    requires DotAt(cur) < |cur| && LabelAt(m', j, cur) && |m'| == j + 1 + DotAt(cur)
    ensures Pending(m', ps + [LabelEntry(cur, j)], cur[DotAt(cur) + 1..], |m'|)
    ensures Whole(ps + [LabelEntry(cur, j)], cur[DotAt(cur) + 1..], |m'|) == Whole(ps, cur, j)
  {
    hide LabelAt;
    assert m[..j] == m;
    PendingStill(m, ps, cur, j, m');
    assert (ps + [LabelEntry(cur, j)])[..|ps|] == ps;
  }

  /** The first `from` bytes of `name` have been written as labels, from `j0` on. */
  ghost predicate Progress(m: seq<Byte>, ps: seq<LabelEntry>, name: seq<Byte>, from: nat, j0: nat) {
    && from <= |name| && |m| == j0 + from
    && Pending(m, ps, name[from..], |m|) && Whole(ps, name[from..], |m|) == LabelEntry(name, j0)
  }

  lemma ProgressStart(m: seq<Byte>, name: seq<Byte>, es: seq<LabelEntry>)
    ensures Progress(m, [], name, 0, |m|) && TableHas(es, es + [])
  {
    assert es + [] == es && name[0..] == name;
  }

  ghost predicate Known(es: seq<LabelEntry>, name: seq<Byte>) {
    exists i :: 0 <= i < |es| && es[i].v == name
  }

  /** None of the ends of `name` that begin with a label is in the table. */
  ghost predicate NoneKnown(es: seq<LabelEntry>, name: seq<Byte>) {
    !Known(es, name) && (DotAt(name) < |name| ==> NoneKnown(es, name[DotAt(name) + 1..]))
  }

  /**
   * How many bytes dnsname_to_labels compares with the length of the buffer: a pointer, or labels with their lengths.
   */
  ghost function Checked(es: seq<LabelEntry>, name: seq<Byte>): (n: nat)
    ensures n > 0
  {
    if Known(es, name) then 2
    else DotAt(name) + 1 + if DotAt(name) == |name| then 0 else Checked(es, name[DotAt(name) + 1..])
  }

  /** The labels in front of a pointer are at most 63 bytes long. */
  ghost predicate ShortBefore(es: seq<LabelEntry>, name: seq<Byte>) {
    Known(es, name) || (DotAt(name) <= 63 && (DotAt(name) < |name| ==> ShortBefore(es, name[DotAt(name) + 1..])))
  }

  /** The final zero is a byte of its own: there is no pointer, and the last label is not empty. */
  ghost predicate ZeroAdded(es: seq<LabelEntry>, name: seq<Byte>) {
    NoneKnown(es, name) && name != [] && name[|name| - 1] != DOT
  }

  lemma {:induction false} NoneKnownChecked(es: seq<LabelEntry>, name: seq<Byte>)
    requires NoneKnown(es, name)
    ensures Checked(es, name) == |name| + 1 && (ShortBefore(es, name) <==> ShortLabels(name))
  {
    if DotAt(name) < |name| {
      NoneKnownChecked(es, name[DotAt(name) + 1..]);
    }
  }

  lemma {:induction false} NothingKnown(name: seq<Byte>)
    ensures NoneKnown([], name)
  {
    if DotAt(name) < |name| {
      NothingKnown(name[DotAt(name) + 1..]);
    }
  }

  /** What is left of the name once `from` bytes of it have been written. */
  ghost predicate LeftOf(es: seq<LabelEntry>, name: seq<Byte>, from: nat) {
    && from <= |name| && Checked(es, name) == from + Checked(es, name[from..])
    && (ShortBefore(es, name) <==> ShortBefore(es, name[from..]))
    && (ZeroAdded(es, name) <==> ZeroAdded(es, name[from..]))
  }

  lemma LeftStart(es: seq<LabelEntry>, name: seq<Byte>)
    ensures LeftOf(es, name, 0)
  {
    assert name[0..] == name;
  }

  lemma LeftStep(es: seq<LabelEntry>, name: seq<Byte>, from: nat)
    requires LeftOf(es, name, from) && !Known(es, name[from..])
    ensures var l := DotAt(name[from..]);
      && Checked(es, name) >= from + l + 1 && (ShortBefore(es, name) ==> l <= 63)
      && (from + l < |name| && l <= 63 ==> LeftOf(es, name, from + l + 1))
      && (from + l == |name| ==>
           && Checked(es, name) == from + l + 1
           && (ShortBefore(es, name) <==> l <= 63)
           && (ZeroAdded(es, name) <==> l > 0))
  {
    hide DotAt, Known, NoneKnown, Checked, ShortBefore, ZeroAdded;
    var cur := name[from..];
    var l := DotAt(cur);
    CutLabel(es, cur);
    if l < |cur| {
      assert cur[l + 1..] == name[from + l + 1..];
    }
  }

  lemma CutLabel(es: seq<LabelEntry>, name: seq<Byte>)
    requires !Known(es, name)
    ensures var l := DotAt(name);
      && (l < |name| ==>
           && Checked(es, name) == l + 1 + Checked(es, name[l + 1..])
           && (ShortBefore(es, name) <==> l <= 63 && ShortBefore(es, name[l + 1..]))
           && (ZeroAdded(es, name) <==> ZeroAdded(es, name[l + 1..])))
      && (l == |name| ==>
          && Checked(es, name) == l + 1
          && (ShortBefore(es, name) <==> l <= 63)
          && (ZeroAdded(es, name) <==> l > 0))
  {
    hide Known, DotAt;
    var l := DotAt(name);
    if l < |name| {
      assert name[l] == DOT;
    } else {
      assert l > 0 ==> name[..l][l - 1] == name[l - 1];
    }
  }

  lemma LeftKnown(es: seq<LabelEntry>, name: seq<Byte>, from: nat)
    requires LeftOf(es, name, from) && Known(es, name[from..])
    ensures Checked(es, name) == from + 2 && ShortBefore(es, name) && !ZeroAdded(es, name)
  {
  }

  /** The labels that were just written are longer than what is left, so only older ones can be found. */
  lemma KnownBefore(entries: seq<LabelEntry>, es: seq<LabelEntry>, ps: seq<LabelEntry>, m: seq<Byte>, cur: seq<Byte>,
      j: nat)
    requires TableHas(entries, es + ps) && |es| <= MAX_LABELS && Pending(m, ps, cur, j) && j == |m|
    ensures Known(entries, cur) <==> Known(es, cur)
  {
    hide Pending;
    PendingStill(m, ps, cur, j, m);
    if Known(es, cur) {
      var i :| 0 <= i < |es| && es[i].v == cur;
      assert (es + ps)[i] == es[i] && entries[i] == (es + ps)[i];
    }
    if Known(entries, cur) {
      var i :| 0 <= i < |entries| && entries[i].v == cur;
      assert entries[i] == (es + ps)[i];
      if i >= |es| {
        assert ps[i - |es|] in ps;
      }
    }
  }

  lemma KnownNow(entries: seq<LabelEntry>, es: seq<LabelEntry>, ps: seq<LabelEntry>, m: seq<Byte>, name: seq<Byte>,
      from: nat, j0: nat, ref: int)
    requires
      && TableHas(entries, es + ps)
      && |es| <= MAX_LABELS
      && Progress(m, ps, name, from, j0)
      && LeftOf(es, name, from)
    requires ref >= 0 ==> exists i :: 0 <= i < |entries| && entries[i] == LabelEntry(name[from..], ref)
    requires ref < 0 ==> forall i :: 0 <= i < |entries| ==> entries[i].v != name[from..]
    ensures ref >= 0 <==> Known(es, name[from..])
    ensures ref >= 0 ==> Checked(es, name) == from + 2 && ShortBefore(es, name) && !ZeroAdded(es, name)
  {
    hide Pending, LeftOf, Checked, ShortBefore, ZeroAdded, TableHas;
    KnownBefore(entries, es, ps, m, name[from..], |m|);
    if ref >= 0 {
      LeftKnown(es, name, from);
    }
  }

  ghost function Held(table: LabelTable?): seq<LabelEntry>
    requires table != null ==> table.Valid()
    reads table, if table == null then {} else {table.labels}
  {
    if table == null then [] else table.Entries()
  }

  /**
   * dnsname_to_labels. The final zero is stored without looking at `bufLen`, so it may land just behind: exactly if
   * nothing of the name is in the table, its last label is not empty, and the labels fill the buffer.
   */
  method DnsnameToLabels(buf: array<Byte>, bufLen: nat, j0: nat, name: seq<Byte>, table: LabelTable?) returns (r: int)
    requires j0 <= buf.Length && 0 !in name
    requires bufLen < buf.Length || j0 + |name| + 2 <= bufLen == buf.Length
    requires table != null ==> bufLen <= OFFSET_RANGE
    requires table != null ==> table.Valid() && Sound(table.Entries(), buf[..j0], j0)
    modifies buf
    modifies if table == null then {} else {table, table.labels}
    ensures r == -1 || r == -2 || (j0 < r <= bufLen + 1 && r <= buf.Length)
    ensures buf[..j0] == old(buf[..j0])
    ensures r >= 0 ==> Written(buf[..r], j0, r, name) && r <= j0 + |name| + 2 && |name| <= 255
    ensures r >= 0 && table != null ==> table.Valid() && Sound(table.Entries(), buf[..r], r)
    ensures r >= 0 <==>
      |name| <= 255 && ShortBefore(old(Held(table)), name) && j0 + Checked(old(Held(table)), name) <= bufLen
    ensures r >= 0 ==> r == j0 + Checked(old(Held(table)), name) + if ZeroAdded(old(Held(table)), name) then 1 else 0
    ensures r >= 0 ==>
      (r == bufLen + 1 <==>
       NoneKnown(old(Held(table)), name) && j0 + |name| + 1 == bufLen && name != [] && name[|name| - 1] != DOT)
    ensures table == null ==> (r >= 0 <==> |name| <= 255 && ShortLabels(name) && j0 + |name| + 1 <= bufLen)
    ensures table == null && r >= 0 ==>
      (r == bufLen + 1 <==> j0 + |name| + 1 == bufLen && name != [] && name[|name| - 1] != DOT)
  {
    hide Checked, ShortBefore, NoneKnown, ShortLabels, Sound, Written;
    r := PutName(buf, bufLen, j0, name, table);
    ghost var es := old(Held(table));
    if table == null {
      NothingKnown(name);
    }
    if NoneKnown(es, name) {
      NoneKnownChecked(es, name);
    }
  }

  /** The loop of dnsname_to_labels. */
  method PutName(buf: array<Byte>, bufLen: nat, j0: nat, name: seq<Byte>, table: LabelTable?) returns (r: int)
    requires j0 <= buf.Length && 0 !in name
    requires bufLen < buf.Length || j0 + |name| + 2 <= bufLen == buf.Length
    requires table != null ==> bufLen <= OFFSET_RANGE
    requires table != null ==> table.Valid() && Sound(table.Entries(), buf[..j0], j0)
    modifies buf
    modifies if table == null then {} else {table, table.labels}
    ensures r == -1 || r == -2 || (j0 < r <= bufLen + 1 && r <= buf.Length)
    ensures buf[..j0] == old(buf[..j0])
    ensures r >= 0 ==> Written(buf[..r], j0, r, name) && r <= j0 + |name| + 2
    ensures r >= 0 && table != null ==> table.Valid() && Sound(table.Entries(), buf[..r], r)
    ensures r >= 0 <==>
      |name| <= 255 && ShortBefore(old(Held(table)), name) && j0 + Checked(old(Held(table)), name) <= bufLen
    ensures r >= 0 ==> r == j0 + Checked(old(Held(table)), name) + if ZeroAdded(old(Held(table)), name) then 1 else 0
  {
    hide DotAt, Progress, Sound, TableHas, Written, Known, Checked, ShortBefore, ZeroAdded, LeftOf;
    if |name| > 255 {
      return -2;
    }
    var j: nat, from: nat := j0, 0;
    ghost var m0 := buf[..j0];
    ghost var ps: seq<LabelEntry>, es: seq<LabelEntry> := [], Held(table);
    ProgressStart(m0, name, es);
    LeftStart(es, name);
    while true
      invariant from <= |name| && j - j0 == from && j <= buf.Length && (from > 0 ==> j <= bufLen)
      invariant buf[..j0] == m0
      invariant Progress(buf[..j], ps, name, from, j0) && LeftOf(es, name, from)
      invariant table != null ==> table.Valid() && TableHas(table.Entries(), es + ps)
      decreases |name| - from
    {
      var cur := name[from..];
      var ref := FindLabel(table, name, from, buf[..j], es, ps, j0);
      if ref >= 0 {
        if j + 2 > bufLen {
          return -2;
        }
        PutPointer(buf, j, ref, table.Entries(), es, ps, name, from, m0);
        return j + 2;
      }
      var l := DotAt(cur);
      LeftStep(es, name, from);
      if l > 63 {
        return -1;
      }
      if j + l + 1 > bufLen {
        return -2;
      }
      if table != null {
        AddLabel(table, cur, j, es, ps);
      }
      if l == |cur| {
        r := PutLast(buf, j, ps, name, from, j0);
        if table != null {
          TableFinish(table.Entries(), es, ps + [LabelEntry(cur, j)], m0, buf[..r]);
        }
        return;
      }
      PutInner(buf, j, ps, name, from, j0);
      ps := ps + [LabelEntry(cur, j)];
      j := j + 1 + l;
      from := from + l + 1;
    }
  }

  method FindLabel(table: LabelTable?, name: seq<Byte>, from: nat, ghost m: seq<Byte>, ghost es: seq<LabelEntry>,
      ghost ps: seq<LabelEntry>, ghost j0: nat)
    returns (ref: int)
    requires |es| <= MAX_LABELS && Progress(m, ps, name, from, j0) && LeftOf(es, name, from)
    requires if table == null then es == [] else table.Valid() && TableHas(table.Entries(), es + ps)
    ensures ref >= 0 <==> Known(es, name[from..])
    ensures ref >= 0 ==> table != null && LabelEntry(name[from..], ref) in table.Entries()
    ensures ref >= 0 ==> Checked(es, name) == from + 2 && ShortBefore(es, name) && !ZeroAdded(es, name)
  {
    hide Pending, LeftOf, Checked, ShortBefore, ZeroAdded, TableHas;
    ref := -1;
    if table != null {
      ref := table.GetPos(name[from..]);
      KnownNow(table.Entries(), es, ps, m, name, from, j0, ref);
    }
  }

  /** The name "aa" in a buffer of three bytes: the zero is stored in the byte behind them. */
  method ZeroBehind() returns (buf: array<Byte>, r: int)
    ensures fresh(buf) && buf[..] == [2, 97, 97, 0] && r == 4
  {
    hide Checked, ShortBefore, NoneKnown, NameEnd, InnerFull;
    buf := new Byte[4](_ => 1);
    var name: seq<Byte> := [97, 97];
    TwoLetters(name);
    r := DnsnameToLabels(buf, 3, 0, name, null);
    assert buf[1..3] == name && buf[3] == 0 by {
      assert Spells(buf[..4], 0, 4, name);
      assert buf[..4][1..3] == buf[1..3];
    }
    assert buf[1] == buf[1..3][0] && buf[2] == buf[1..3][1];
  }

  lemma TwoLetters(name: seq<Byte>)
    requires name == [97, 97]
    ensures DotAt(name) == 2 && ShortLabels(name)
  {
    assert name[1..][1..] == [] && DotAt(name[1..][1..]) == 0;
  }

  method AddLabel(table: LabelTable, cur: seq<Byte>, j: nat, ghost es: seq<LabelEntry>, ghost ps: seq<LabelEntry>)
    requires table.Valid() && TableHas(table.Entries(), es + ps)
    modifies table, table.labels
    ensures table.Valid() && TableHas(table.Entries(), es + (ps + [LabelEntry(cur, j)]))
  {
    hide TableHas;
    ghost var was := table.Entries();
    var ok := table.Add(cur, j);
    TableAdds(was, es, ps, LabelEntry(cur, j), table.Entries());
  }

  /** APPEND16 of a pointer. */
  method PutPointer(buf: array<Byte>, j: nat, ref: nat, ghost entries: seq<LabelEntry>, ghost es: seq<LabelEntry>,
      ghost ps: seq<LabelEntry>,
                    ghost name: seq<Byte>, ghost from: nat, ghost m0: seq<Byte>)
    requires j + 2 <= buf.Length && j <= OFFSET_RANGE && |m0| <= j && buf[..|m0|] == m0
    requires Progress(buf[..j], ps, name, from, |m0|)
    requires TableHas(entries, es + ps) && LabelEntry(name[from..], ref) in entries && Sound(es, m0, |m0|)
    modifies buf
    ensures buf[..|m0|] == m0 && Written(buf[..j + 2], |m0|, j + 2, name) && Sound(entries, buf[..j + 2], j + 2)
  {
    hide DotAt, Spells, NameEnd, Pending, InnerFull, Sound, TableHas, Written;
    ghost var m, cur := buf[..j], name[from..];
    assert m[..|m0|] == m0;
    RefFound(entries, es, ps, m0, m, cur, ref, |m0|, j);
    Append16(buf, j, 0xC000 + ref % OFFSET_RANGE);
    ghost var m' := buf[..j + 2];
    assert m'[..j] == m && m[..j] == m && m'[..|m0|] == m0;
    PointerSpells(m, j, ref, cur, m');
    Finish(m, m', ps, cur, j, name, |m0|);
    TableFinish(entries, es, ps, m0, m');
  }

  /** A label that is not the last one. */
  method PutInner(buf: array<Byte>, j: nat, ghost ps: seq<LabelEntry>, name: seq<Byte>, from: nat, ghost j0: nat)
    requires j <= buf.Length && from <= |name| && Progress(buf[..j], ps, name, from, j0)
    requires var l := DotAt(name[from..]); from + l < |name| && l <= 63 && j + l + 1 <= buf.Length
    modifies buf
    ensures buf[..j0] == old(buf[..j0])
    ensures var l := DotAt(name[from..]);
      Progress(buf[..j + 1 + l], ps + [LabelEntry(name[from..], j)], name, from + l + 1, j0)
  {
    hide DotAt, Pending, LabelAt;
    var cur := name[from..];
    ghost var m, l := buf[..j], DotAt(cur);
    PutLabel(buf, j, cur);
    ghost var m' := buf[..j + 1 + l];
    assert m'[..j] == m && m'[..j0] == m[..j0] && buf[..j0] == m'[..j0];
    assert cur[l + 1..] == name[from + l + 1..];
    PendingMore(m, m', ps, cur, j);
  }

  /** The last label and the terminating zero. */
  method PutLast(buf: array<Byte>, j: nat, ghost ps: seq<LabelEntry>, name: seq<Byte>, from: nat, ghost j0: nat)
    returns (r: nat)
    requires
      && j <= buf.Length
      && from <= |name|
      && Progress(buf[..j], ps, name, from, j0)
      && DotAt(name[from..]) == |name| - from <= 63
    requires 0 !in name && (if from == |name| then j + 1 <= buf.Length else j + |name| - from + 2 <= buf.Length)
    modifies buf
    ensures
      && r == j + |name| - from + (if from == |name| then 1 else 2) <= buf.Length
      && buf[..j0] == old(buf[..j0])
      && j0 <= j
    ensures Written(buf[..r], j0, r, name)
    ensures forall e :: e in ps + [LabelEntry(name[from..], j)] ==> e.pos <= j && Spells(buf[..r], e.pos, r, e.v)
  {
    hide DotAt, Spells, NameEnd, Pending, InnerFull, Written;
    var cur := name[from..];
    ghost var m := buf[..j];
    PutLabel(buf, j, cur);
    r := j + 1 + |cur|;
    if buf[r - 1] != 0 {
      buf[r] := 0;
      r := r + 1;
    }
    ghost var m' := buf[..r];
    assert m'[..j] == m && cur[..|cur|] == cur && m'[..j0] == m[..j0] && buf[..j0] == m'[..j0];
    LastSpells(m', j, cur);
    Finish(m, m', ps, cur, j, name, j0);
  }

  /** What stands in a message: a name, or other bytes. */
  datatype Item = Name(name: seq<Byte>) | Raw(bytes: seq<Byte>)

  /** The items stand one behind the other, item `i` at `at[i]`. */
  ghost predicate Laid(m: seq<Byte>, items: seq<Item>, at: seq<nat>) {
    && |at| == |items| + 1
    && forall i :: 0 <= i < |items| ==> ItemAt(m, items[i], at[i], at[i + 1])
  }

  ghost predicate ItemAt(m: seq<Byte>, item: Item, pos: nat, end: nat) {
    match item
    case Raw(bytes) => pos <= end <= |m| && m[pos..end] == bytes
    case Name(name) =>
      && |name| <= 255
      && pos <= |m|
      && end <= |m|
      && Spells(m, pos, end, name)
      && (InnerFull(name) ==> NameEnd(m, pos, end, name) == end)
  }

  lemma ItemStill(m: seq<Byte>, item: Item, pos: nat, end: nat, m': seq<Byte>)
    requires ItemAt(m, item, pos, end) && |m| <= |m'| && m'[..|m|] == m
    ensures ItemAt(m', item, pos, end)
  {
    hide Spells, NameEnd, InnerFull;
    assert m[..|m|] == m;
    SamePart(m, m', |m|, if pos <= end then pos else end, end);
    if item.Name? {
      SamePart(m, m', |m|, end, end);
      SpellsStill(m, pos, end, item.name, m', end);
    }
  }

  lemma LaidMore(m: seq<Byte>, items: seq<Item>, at: seq<nat>, item: Item, end: nat, m': seq<Byte>)
    requires Laid(m, items, at) && |m| <= |m'| && m'[..|m|] == m && ItemAt(m', item, at[|items|], end)
    ensures Laid(m', items + [item], at + [end])
  {
    hide ItemAt;
    forall i | 0 <= i <= |items| ensures ItemAt(m', (items + [item])[i], (at + [end])[i], (at + [end])[i + 1]) {
      if i < |items| {
        ItemStill(m, items[i], at[i], at[i + 1], m');
      }
    }
  }

  /** Names and other bytes written with one table, as evdns_server_request_format_response does. */
  method WriteItems(buf: array<Byte>, bufLen: nat, items: seq<Item>) returns (r: int, ghost at: seq<nat>)
    requires bufLen < buf.Length && bufLen <= OFFSET_RANGE
    requires forall i :: 0 <= i < |items| && items[i].Name? ==> 0 !in items[i].name
    modifies buf
    ensures r == -2 || r == -1 || 0 <= r <= bufLen + 1
    ensures r >= 0 ==> Laid(buf[..r], items, at) && at[0] == 0 && at[|items|] == r
  {
    hide ItemAt, Laid, Spells, NameEnd, Sound, InnerFull, ShortLabels;
    var table := new LabelTable();
    var j: nat, i: nat := 0, 0;
    at := [0];
    LaidNone(buf[..0], table.Entries());
    while i < |items|
      invariant i <= |items| && j <= bufLen + 1 && |at| == i + 1 && at[i] == j && at[0] == 0
      invariant table.Valid() && fresh(table) && fresh(table.labels) && Sound(table.Entries(), buf[..j], j)
      invariant Laid(buf[..j], items[..i], at)
    {
      var n := WriteItem(buf, bufLen, j, items[i], table);
      if n < 0 {
        return n, at;
      }
      ghost var m' := buf[..n];
      assert m'[..j] == buf[..j];
      LaidMore(m'[..j], items[..i], at, items[i], n, m');
      assert items[..i + 1] == items[..i] + [items[i]];
      at := at + [n];
      j, i := n, i + 1;
    }
    assert items[..i] == items;
    r := j;
  }

  lemma LaidNone(m: seq<Byte>, es: seq<LabelEntry>)
    ensures Laid(m, [], [0])
    ensures es == [] ==> Sound(es, m, 0)
  {
  }

  method WriteItem(buf: array<Byte>, bufLen: nat, j: nat, item: Item, table: LabelTable) returns (r: int)
    requires bufLen < buf.Length && bufLen <= OFFSET_RANGE && j <= bufLen + 1 && (item.Name? ==> 0 !in item.name)
    requires table.Valid() && Sound(table.Entries(), buf[..j], j)
    modifies buf, table, table.labels
    ensures r == -1 || r == -2 || j <= r <= bufLen + 1
    ensures buf[..j] == old(buf[..j])
    ensures r >= 0 ==> table.Valid() && Sound(table.Entries(), buf[..r], r) && ItemAt(buf[..r], item, j, r)
  {
    hide Spells, NameEnd, Sound, InnerFull, ShortLabels;
    match item {
      case Name(name) =>
        r := DnsnameToLabels(buf, bufLen, j, name, table);
      case Raw(bytes) =>
        if j + |bytes| > bufLen {
          return -2;
        }
        ghost var m := buf[..j];
        Memcpy(buf, j, bytes);
        r := j + |bytes|;
        assert buf[..r][..j] == m && m[..j] == m;
        SoundStill(table.Entries(), m, j, buf[..r], r);
    }
  }

  /**
   * Every name without empty labels in a message is read back, wherever the labels it shares with other names stand.
   */
  lemma NamesRoundTrip(m: seq<Byte>, items: seq<Item>, at: seq<nat>, i: nat)
    requires Laid(m, items, at) && i < |items| && items[i].Name?
    ensures var name := items[i].name;
      && Walk(m, at[i], [], 0, None, 256).Some? && Walk(m, at[i], [], 0, None, 256).value.0 == Trunc(name)
      && (name == [] || FullLabels(name) ==> Walk(m, at[i], [], 0, None, 256) == Some((name, at[i + 1])))
  {
    hide Walk, Spells, NameEnd, Trunc, FullLabels, InnerFull;
    var name := items[i].name;
    assert ItemAt(m, items[i], at[i], at[i + 1]);
    JoinedNothing(Trunc(name));
    WalkSpells(m, at[i], at[i + 1], name, [], 0, None, 256);
    TruncIffFull(name);
    FullIsInner(name);
  }

  lemma JoinedNothing(t: seq<Byte>)
    ensures Joined([], t) == t
  {
  }

  lemma {:induction false} FullIsInner(name: seq<Byte>)
    ensures name == [] || FullLabels(name) ==> InnerFull(name)
  {
    var l := DotAt(name);
    if 0 < l < |name| { FullIsInner(name[l + 1..]); }
  }
}
