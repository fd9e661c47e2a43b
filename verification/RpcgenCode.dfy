/** The code event_rpcgen.py generates for a schema, run over evbuffers. */
module RpcgenCode {
  import opened Bytes
  import opened Chains
  import opened EvbufferModel
  import TagCodec
  import Tagging
  import opened Rpcgen

  /** `n` more bytes can be added, item by item. */
  ghost predicate HasRoom(b: Evbuffer, n: nat)
    reads b
  {
    !b.freezeEnd && b.totalLen + n + 20 <= SIZE_MAX
  }

  /** What a marshalling method leaves: a valid buffer, in which the bytes were added if there was room. */
  twostate predicate Sent(b: Evbuffer, s: seq<Byte>)
    reads b, b.v.chains, set c: Chain | c in b.v.chains :: c.buffer
  {
    && b.Valid()
    && fresh(b.Repr() - old(b.Repr()))
    && b.freezeEnd == old(b.freezeEnd)
    && b.freezeStart == old(b.freezeStart)
    && b.totalLen == |b.Contents()|
    && (old(HasRoom(b, |s|)) ==> b.Contents() == old(b.Contents()) + s)
  }

  /** The loop of the generated marshal function. */
  method MarshalTo(sch: Schema, es: seq<Entry>, m: Message, evbuf: Evbuffer)
    requires evbuf.Valid() && Typed(sch, es, m) && WfSchema(sch) && forall e :: e in es ==> e.tag < TagCodec.UINT32
    modifies evbuf.Repr()
    ensures Sent(evbuf, Marshal(sch, es, m))
    decreases m, 2
  {
    hide Seg, View.Bytes, Evbuffer.Lwd, Evbuffer.Valid, MarshalEntry, WfSchema;
    var i: nat := 0;
    Tagging.LengthOf(evbuf);
    ghost var c := evbuf.Contents();
    ghost var all := MarshalFrom(sch, es, m, 0);
    while i < |es|
      invariant evbuf.Valid() && i <= |es| && fresh(evbuf.Repr() - old(evbuf.Repr()))
      invariant
        && evbuf.freezeEnd == old(evbuf.freezeEnd)
        && evbuf.freezeStart == old(evbuf.freezeStart)
        && evbuf.totalLen == |evbuf.Contents()|
      invariant old(HasRoom(evbuf, |all|)) ==> evbuf.Contents() + MarshalFrom(sch, es, m, i) == c + all
    {
      ghost var rest := MarshalFrom(sch, es, m, i + 1);
      MarshalEntryTo(sch, es[i], m.slots[i], evbuf);
      i := i + 1;
    }
  }

  method MarshalEntryTo(sch: Schema, e: Entry, s: Slot, evbuf: Evbuffer)
    requires evbuf.Valid() && SlotTyped(sch, e, s) && WfSchema(sch) && e.tag < TagCodec.UINT32
    modifies evbuf.Repr()
    ensures Sent(evbuf, MarshalEntry(sch, e, s))
    decreases s, 2
  {
    hide Seg, View.Bytes, Evbuffer.Lwd, Evbuffer.Valid, MarshalSlot, MarshalUnset, WfSchema, Sent;
    if e.mode == Required && s.vals == [] {
      MarshalUnsetTo(e, evbuf);
    } else {
      MarshalSlotTo(sch, e, s, evbuf);
    }
  }

  method MarshalUnsetTo(e: Entry, evbuf: Evbuffer)
    requires evbuf.Valid() && e.tag < TagCodec.UINT32 && e.kind != String && !e.kind.Struct?
    modifies evbuf.Repr()
    ensures Sent(evbuf, MarshalUnset(e))
  {
    hide Seg, View.Bytes, Evbuffer.Lwd, Evbuffer.Valid, TagCodec.EncodeInt, TagCodec.EncodeTag;
    if e.kind.Fixed? {
      var zeros := seq(e.kind.length % TagCodec.UINT32, _ => 0);
      FramedIs(e.tag, zeros);
      Tagging.Marshal(evbuf, e.tag, zeros);
    } else if e.kind == VarBytes {
      FramedIs(e.tag, []);
      Tagging.Marshal(evbuf, e.tag, []);
    } else {
      FramedIs(e.tag, TagCodec.EncodeInt(0));
      Tagging.MarshalInt(evbuf, e.tag, 0, if e.kind == Int then 4 else 8);
    }
  }

  method MarshalSlotTo(sch: Schema, e: Entry, s: Slot, evbuf: Evbuffer)
    requires evbuf.Valid() && SlotTyped(sch, e, s) && WfSchema(sch) && e.tag < TagCodec.UINT32
    modifies evbuf.Repr()
    ensures Sent(evbuf, MarshalSlot(sch, e, s, 0))
    decreases s, 1
  {
    hide Seg, View.Bytes, Evbuffer.Lwd, Evbuffer.Valid, MarshalValue, WfSchema;
    var j: nat := 0;
    Tagging.LengthOf(evbuf);
    ghost var c := evbuf.Contents();
    ghost var all := MarshalSlot(sch, e, s, 0);
    while j < |s.vals|
      invariant evbuf.Valid() && j <= |s.vals| && fresh(evbuf.Repr() - old(evbuf.Repr()))
      invariant
        && evbuf.freezeEnd == old(evbuf.freezeEnd)
        && evbuf.freezeStart == old(evbuf.freezeStart)
        && evbuf.totalLen == |evbuf.Contents()|
      invariant old(HasRoom(evbuf, |all|)) ==> evbuf.Contents() + MarshalSlot(sch, e, s, j) == c + all
    {
      ghost var rest := MarshalSlot(sch, e, s, j + 1);
      MarshalValueTo(sch, e.kind, e.tag, s.vals[j], evbuf);
      j := j + 1;
    }
  }

  /** The CodeMarshal methods. */
  method MarshalValueTo(sch: Schema, kind: Kind, tag: nat, v: Value, evbuf: Evbuffer)
    requires evbuf.Valid() && ValueTyped(sch, kind, v) && WfSchema(sch) && tag < TagCodec.UINT32
    modifies evbuf.Repr()
    ensures Sent(evbuf, MarshalValue(sch, kind, tag, v))
    decreases v, 0
  {
    hide Seg, View.Bytes, Evbuffer.Lwd, Evbuffer.Valid, TagCodec.EncodeInt, TagCodec.EncodeTag;
    match kind {
      case Int =>
        FramedIs(tag, TagCodec.EncodeInt(v.n));
        Tagging.MarshalInt(evbuf, tag, v.n, 4);
      case Int64 =>
        FramedIs(tag, TagCodec.EncodeInt(v.n));
        Tagging.MarshalInt(evbuf, tag, v.n, 8);
      case String =>
        var s := v.bytes[..|v.bytes| % TagCodec.UINT32];
        FramedIs(tag, s);
        Tagging.Marshal(evbuf, tag, s);
      case Fixed(length) =>
        var s := v.bytes[..length % TagCodec.UINT32];
        FramedIs(tag, s);
        Tagging.Marshal(evbuf, tag, s);
      case VarBytes =>
        FramedIs(tag, v.bytes);
        Tagging.Marshal(evbuf, tag, v.bytes);
      case Struct(name) =>
        MarshalStructTo(sch, name, tag, v, evbuf);
    }
  }

  /** The generated evtag_marshal function of a struct. */
  method MarshalStructTo(sch: Schema, name: string, tag: nat, v: Value, evbuf: Evbuffer)
    requires evbuf.Valid() && ValueTyped(sch, Struct(name), v) && WfSchema(sch) && tag < TagCodec.UINT32
    modifies evbuf.Repr()
    ensures Sent(evbuf, MarshalValue(sch, Struct(name), tag, v))
    decreases v, 0, 0
  {
    hide Seg, View.Bytes, Evbuffer.Lwd, Evbuffer.Valid, TagCodec.EncodeInt, TagCodec.EncodeTag, MarshalFrom;
    var buf := new Evbuffer();
    MarshalTo(sch, sch[name], v.msg, buf);
    Tagging.MarshalBuffer(evbuf, tag, buf);
    Tagging.LengthOf(evbuf);
  }

  /** What an unmarshalling method leaves of its buffer. */
  twostate predicate Kept(b: Evbuffer)
    reads b, b.v.chains, set c: Chain | c in b.v.chains :: c.buffer
  {
    b.Valid() && fresh(b.Repr() - old(b.Repr())) && !b.freezeStart && b.totalLen == |b.Contents()|
  }

  /** The generated unmarshal function: the loop over the items, then the check that nothing is missing. */
  method UnmarshalFrom(sch: Schema, es: seq<Entry>, evbuf: Evbuffer, zeroAlloc: bool) returns (r: Option<Message>)
    requires evbuf.Valid() && !evbuf.freezeStart
    modifies evbuf.Repr()
    ensures Kept(evbuf) && r == Unmarshal(sch, es, old(evbuf.Contents()), zeroAlloc)
    ensures r.Some? ==> Typed(sch, es, r.value) && Complete(sch, es, r.value)
    ensures r.Some? ==> forall i :: 0 <= i < |es| ==>
      && (es[i].mode == Required ==> r.value.slots[i].vals != [])
      && (es[i].mode != Array ==> |r.value.slots[i].vals| <= 1)
    decreases |evbuf.Contents()|, 1
  {
    hide Seg, View.Bytes, Evbuffer.Lwd, Evbuffer.Valid, TagCodec.DecodeTag, UnmarshalValue, Complete, Typed;
    UnmarshalAccepted(sch, es, evbuf.Contents(), zeroAlloc);
    var m := Empty(|es|);
    Tagging.LengthOf(evbuf);
    ghost var all := UnmarshalInto(sch, es, m, evbuf.Contents(), zeroAlloc);
    while evbuf.totalLen > 0
      invariant Kept(evbuf) && |m.slots| == |es| && |evbuf.Contents()| <= |old(evbuf.Contents())|
      invariant UnmarshalInto(sch, es, m, evbuf.Contents(), zeroAlloc) == all
      decreases |evbuf.Contents()|
    {
      var count, tag := Tagging.Peek(evbuf);
      if count == -1 {
        return None;
      }
      var c := CaseOf(es, tag);
      if c.None? {
        return None;
      }
      var i := c.value;
      if es[i].mode != Array && m.slots[i].vals != [] {
        return None;
      }
      ghost var now := evbuf.Contents();
      var v := UnmarshalValueFrom(sch, es[i].kind, es[i].tag, evbuf, zeroAlloc);
      if v.None? {
        return None;
      }
      m := Put(m, i, v.value);
    }
    if !Complete(sch, es, m) {
      return None;
    }
    return Some(m);
  }

  /** The CodeUnmarshal methods. */
  method UnmarshalValueFrom(sch: Schema, kind: Kind, tag: nat, evbuf: Evbuffer, zeroAlloc: bool)
    returns (v: Option<Value>)
    requires evbuf.Valid() && !evbuf.freezeStart
    modifies evbuf.Repr()
    ensures Kept(evbuf)
    ensures match UnmarshalValue(sch, kind, tag, old(evbuf.Contents()), zeroAlloc)
      case None => v == None
      case Some(p) => v == Some(p.0) && evbuf.Contents() == p.1
    decreases |evbuf.Contents()|, 0, 1
  {
    hide Seg, View.Bytes, Evbuffer.Lwd, Evbuffer.Valid, TagCodec.IntOf, TagCodec.PayloadOf, TagCodec.StringOf,
      Unmarshal;
    if kind == Int || kind == Int64 {
      var r, n := Tagging.UnmarshalInt(evbuf, tag, if kind == Int then 8 else 16);
      v := if r == -1 then None else Some(Num(n));
    } else if kind == String {
      var r, s := Tagging.UnmarshalString(evbuf, tag);
      v := if r == -1 then None else Some(Data(UpToNul(s)));
    } else if kind.Fixed? {
      var r, s := Tagging.UnmarshalFixed(evbuf, tag, kind.length);
      v := if r == -1 then None else Some(Data(s));
    } else if kind == VarBytes {
      v := UnmarshalVarBytes(tag, evbuf, zeroAlloc);
    } else {
      v := UnmarshalStruct(sch, kind.name, tag, evbuf, zeroAlloc);
    }
  }

  /** EntryVarBytes.CodeUnmarshal. */
  method UnmarshalVarBytes(tag: nat, evbuf: Evbuffer, zeroAlloc: bool) returns (v: Option<Value>)
    requires evbuf.Valid() && !evbuf.freezeStart
    modifies evbuf.Repr()
    ensures Kept(evbuf)
    ensures match UnmarshalValue(map[], VarBytes, tag, old(evbuf.Contents()), zeroAlloc)
      case None => v == None
      case Some(p) => v == Some(p.0) && evbuf.Contents() == p.1
  {
    hide Seg, View.Bytes, Evbuffer.Lwd, Evbuffer.Valid, TagCodec.DecodeTag, TagCodec.DecodeInt, TagCodec.PayloadOf,
      UnmarshalValue;
    Tagging.LengthOf(evbuf);
    ghost var c := evbuf.Contents();
    var r, len := Tagging.PayloadLength(evbuf);
    VarBytesCase(c, tag, len, zeroAlloc);
    if r == -1 {
      return None;
    }
    if len > evbuf.totalLen {
      return None;
    }
    if len == 0 && !zeroAlloc {
      return None;
    }
    var s;
    r, s := Tagging.UnmarshalFixed(evbuf, tag, len);
    v := if r == -1 then None else Some(Data(s));
  }

  lemma VarBytesCase(s: seq<Byte>, tag: nat, len: nat, zeroAlloc: bool)
    ensures TagCodec.PeekedLength(s).None? ==> UnmarshalValue(map[], VarBytes, tag, s, zeroAlloc) == None
    ensures
      && TagCodec.PeekedLength(s).Some?
      && len == TagCodec.DecodeInt(s[TagCodec.DecodeTag(s).value.len..], 8).value.value ==>
      var o := TagCodec.PayloadOf(s, tag, Some(len));
      UnmarshalValue(map[], VarBytes, tag, s, zeroAlloc) ==
        if len > |s| || (len == 0 && !zeroAlloc) || o.result.None? then None else Some((Data(o.result.value), o.rest))
  {
    hide TagCodec.DecodeTag, TagCodec.DecodeInt;
    if TagCodec.PeekedLength(s).Some? {
      TagCodec.IntBound(s[TagCodec.DecodeTag(s).value.len..]);
    }
  }

  lemma StructCase(sch: Schema, name: string, tag: nat, s: seq<Byte>, zeroAlloc: bool)
    ensures var h := TagCodec.HeaderOf(s);
      UnmarshalValue(sch, Struct(name), tag, s, zeroAlloc) ==
        if name !in sch || h.result.None? || h.result.value.tag != tag || h.result.value.len < 0 then None else
          match Unmarshal(sch, sch[name], h.rest[..h.result.value.len], zeroAlloc)
          case None => None
          case Some(m) => Some((Msg(m), h.rest[h.result.value.len..]))
  {
    hide TagCodec.HeaderOf, Unmarshal;
  }

  /** EntryStruct.CodeUnmarshal with the generated evtag_unmarshal function. */
  method UnmarshalStruct(sch: Schema, name: string, tag: nat, evbuf: Evbuffer, zeroAlloc: bool)
    returns (v: Option<Value>)
    requires evbuf.Valid() && !evbuf.freezeStart
    modifies evbuf.Repr()
    ensures Kept(evbuf)
    ensures match UnmarshalValue(sch, Struct(name), tag, old(evbuf.Contents()), zeroAlloc)
      case None => v == None
      case Some(p) => v == Some(p.0) && evbuf.Contents() == p.1
    decreases |evbuf.Contents()|, 0, 0
  {
    hide Seg, View.Bytes, Evbuffer.Lwd, Evbuffer.Valid, TagCodec.HeaderOf, UnmarshalValue, Unmarshal;
    Tagging.LengthOf(evbuf);
    StructCase(sch, name, tag, evbuf.Contents(), zeroAlloc);
    if name !in sch {
      return None;
    }
    ShorterPayload(evbuf.Contents());
    var tmp := new Evbuffer();
    ApartReprs(evbuf, tmp);
    Tagging.LengthOf(tmp);
    var len, itemTag := Tagging.Unmarshal(evbuf, tmp);
    ReprsStill(evbuf, tmp);
    Tagging.LengthOf(evbuf);
    if len == -1 || itemTag != tag {
      return None;
    }
    ghost var h := TagCodec.HeaderOf(old(evbuf.Contents()));
    assert tmp.Contents() == h.rest[..len] && evbuf.Contents() == h.rest[len..];
    var m := UnmarshalFrom(sch, sch[name], tmp, zeroAlloc);
    v := if m.None? then None else Some(Msg(m.value));
  }
}
