/** event_rpcgen.py: the messages its structs describe, and the code it generates to send and receive them. */
module Rpcgen {
  import opened Bytes
  import opened TagCodec

  datatype Kind = Int | Int64 | String | Fixed(length: nat) | VarBytes | Struct(name: string)

  datatype Mode = Required | Optional | Array

  datatype Entry = Entry(name: string, tag: nat, kind: Kind, mode: Mode)

  /** The structs of a file, by name; they may refer to each other and to themselves. */
  type Schema = map<string, seq<Entry>>

  ghost predicate DistinctTags(es: seq<Entry>) {
    forall i, j :: 0 <= i < j < |es| ==> es[i].tag != es[j].tag
  }

  ghost predicate WfSchema(sch: Schema) {
    forall name :: name in sch ==> DistinctTags(sch[name]) && forall e :: e in sch[name] ==> e.tag < UINT32
  }

  /** class Struct. */
  class StructDef {
    const name: string
    var entries: seq<Entry>
    var tags: map<nat, string>

    ghost predicate Valid()
      reads this
    {
      && DistinctTags(entries)
      && (forall t :: t in tags <==> exists i :: 0 <= i < |entries| && entries[i].tag == t)
      && (forall i :: 0 <= i < |entries| ==> entries[i].tag in tags && tags[entries[i].tag] == entries[i].name)
    }

    constructor (name: string)
      ensures Valid() && entries == []
    {
      this.name := name;
      entries, tags := [], map[];
    }

    /** Struct.AddEntry; the result is the name of an entry that already has the tag. */
    method AddEntry(entry: Entry) returns (clash: Option<string>)
      requires Valid()
      modifies this
      ensures Valid()
      ensures match clash
        case None => entries == old(entries) + [entry]
        case Some(n) => entries == old(entries) && exists e :: e in entries && e.name == n && e.tag == entry.tag
    {
      if entry.tag in tags {
        return Some(tags[entry.tag]);
      }
      entries := entries + [entry];
      tags := tags[entry.tag := entry.name];
      assert entries[|entries| - 1] == entry;
      assert forall i :: 0 <= i < |entries| - 1 ==> entries[i] == old(entries)[i];
      return None;
    }
  }

  /** What a field holds. */
  datatype Value = Num(n: nat) | Data(bytes: seq<Byte>) | Msg(msg: Message)

  /** A field that is not set has no values; an array may have any number. */
  datatype Slot = Slot(vals: seq<Value>)

  datatype Message = Message(slots: seq<Slot>)

  /** An item whose length is written in 32 bits. */
  function Framed(tag: nat, payload: seq<Byte>): seq<Byte> {
    EncodeTag(tag) + EncodeInt(|payload| % UINT32) + payload
  }

  /** The value has the C type of the entry. */
  ghost predicate ValueTyped(sch: Schema, kind: Kind, v: Value)
    decreases v
  {
    match kind
    case Int => v.Num? && v.n < UINT32
    case Int64 => v.Num? && v.n < UINT64
    case String => v.Data? && 0 !in v.bytes
    case Fixed(length) => v.Data? && |v.bytes| == length
    case VarBytes => v.Data? && |v.bytes| < UINT32
    case Struct(name) => v.Msg? && name in sch && Typed(sch, sch[name], v.msg)
  }

  /** The message can be marshalled: a required string or struct must be there, since its pointer is followed. */
  ghost predicate Typed(sch: Schema, es: seq<Entry>, m: Message)
    decreases m
  {
    && |m.slots| == |es|
    && forall i :: 0 <= i < |es| ==> SlotTyped(sch, es[i], m.slots[i])
  }

  ghost predicate SlotTyped(sch: Schema, e: Entry, s: Slot)
    decreases s
  {
    && (e.mode != Array ==> |s.vals| <= 1)
    && (e.mode == Required && (e.kind == String || e.kind.Struct?) ==> s.vals != [])
    && forall j :: 0 <= j < |s.vals| ==> ValueTyped(sch, e.kind, s.vals[j])
  }

  /** The CodeMarshal methods. */
  ghost function MarshalValue(sch: Schema, kind: Kind, tag: nat, v: Value): seq<Byte>
    requires ValueTyped(sch, kind, v)
    decreases v
  {
    match kind
    case Int => Framed(tag, EncodeInt(v.n))
    case Int64 => Framed(tag, EncodeInt(v.n))
    case String => Framed(tag, v.bytes[..|v.bytes| % UINT32])
    case Fixed(length) => Framed(tag, v.bytes[..length % UINT32])
    case VarBytes => Framed(tag, v.bytes)
    case Struct(name) => Framed(tag, MarshalFrom(sch, sch[name], v.msg, 0))
  }

  /** An entry that is required but not set is sent as CodeInitialize left it. */
  function MarshalUnset(e: Entry): seq<Byte> {
    match e.kind
    case Fixed(length) => Framed(e.tag, seq(length % UINT32, _ => 0))
    case VarBytes => Framed(e.tag, [])
    case _ => Framed(e.tag, EncodeInt(0))
  }

  /** The values of a slot from `j` on. */
  ghost function MarshalSlot(sch: Schema, e: Entry, s: Slot, j: nat): seq<Byte>
    requires SlotTyped(sch, e, s) && j <= |s.vals|
    decreases s, |s.vals| - j
  {
    if j == |s.vals| then [] else MarshalValue(sch, e.kind, e.tag, s.vals[j]) + MarshalSlot(sch, e, s, j + 1)
  }

  ghost function MarshalEntry(sch: Schema, e: Entry, s: Slot): seq<Byte>
    requires SlotTyped(sch, e, s)
    decreases s, |s.vals| + 1
  {
    if e.mode == Required && s.vals == [] then MarshalUnset(e) else MarshalSlot(sch, e, s, 0)
  }

  /** The entries from `i` on, as the generated marshal function sends them. */
  ghost function MarshalFrom(sch: Schema, es: seq<Entry>, m: Message, i: nat): seq<Byte>
    requires Typed(sch, es, m) && i <= |es|
    decreases m, |es| - i
  {
    if i == |es| then [] else
      MarshalEntry(sch, es[i], m.slots[i]) + MarshalFrom(sch, es, m, i + 1)
  }

  /** The generated marshal function. */
  ghost function Marshal(sch: Schema, es: seq<Entry>, m: Message): seq<Byte>
    requires Typed(sch, es, m)
  {
    MarshalFrom(sch, es, m, 0)
  }

  /** The generated complete function. */
  predicate Complete(sch: Schema, es: seq<Entry>, m: Message)
    decreases m
  {
    && |m.slots| == |es|
    && forall i :: 0 <= i < |es| ==>
         && (es[i].mode == Required ==> m.slots[i].vals != [])
         && SlotComplete(sch, es[i].kind, m.slots[i])
  }

  predicate SlotComplete(sch: Schema, kind: Kind, s: Slot)
    decreases s
  {
    forall j :: 0 <= j < |s.vals| ==> ValueComplete(sch, kind, s.vals[j])
  }

  predicate ValueComplete(sch: Schema, kind: Kind, v: Value)
    decreases v
  {
    kind.Struct? ==> v.Msg? && kind.name in sch && Complete(sch, sch[kind.name], v.msg)
  }

  /** The case of the generated switch statement. */
  function CaseOf(es: seq<Entry>, tag: nat): (r: Option<nat>)
    ensures r.Some? ==> r.value < |es| && es[r.value].tag == tag
    ensures r.None? ==> forall e :: e in es ==> e.tag != tag
  {
    if es == [] then None
    else if es[|es| - 1].tag == tag then Some(|es| - 1)
    else CaseOf(es[..|es| - 1], tag)
  }

  function Empty(n: nat): Message {
    Message(seq(n, _ => Slot([])))
  }

  /** One value is added to a slot. */
  function Put(m: Message, i: nat, v: Value): Message
    requires i < |m.slots|
  {
    m.(slots := m.slots[i := Slot(m.slots[i].vals + [v])])
  }

  /** The CodeUnmarshal methods: the value of the first item and the bytes behind it.
      `zeroAlloc` says whether malloc(0) returns a pointer. */
  ghost function UnmarshalValue(sch: Schema, kind: Kind, tag: nat, s: seq<Byte>,
      zeroAlloc: bool): (r: Option<(Value, seq<Byte>)>)
    ensures r.Some? ==> |r.value.1| < |s|
    decreases |s|, 0
  {
    match kind
    case Int =>
      var o := IntOf(s, tag, 8);
      if o.result.None? then None else Some((Num(o.result.value.value), o.rest))
    case Int64 =>
      var o := IntOf(s, tag, 16);
      if o.result.None? then None else Some((Num(o.result.value.value), o.rest))
    case String =>
      var o := StringOf(s, tag);
      if o.result.None? then None else Some((Data(UpToNul(o.result.value)), o.rest))
    case Fixed(length) =>
      var o := PayloadOf(s, tag, Some(length));
      if o.result.None? then None else Some((Data(o.result.value), o.rest))
    case VarBytes =>
      var o := PayloadOf(s, tag, None);
      if o.result.None? || (o.result.value == [] && !zeroAlloc) then None else Some((Data(o.result.value), o.rest))
    case Struct(name) =>
      var o := PayloadOf(s, tag, None);
      if o.result.None? || name !in sch then None else
        match Unmarshal(sch, sch[name], o.result.value, zeroAlloc)
        case None => None
        case Some(m) => Some((Msg(m), o.rest))
  }

  /** The loop of the generated unmarshal function. */
  ghost function UnmarshalInto(sch: Schema, es: seq<Entry>, m: Message, s: seq<Byte>,
      zeroAlloc: bool): (r: Option<Message>)
    requires |m.slots| == |es|
    ensures r.Some? ==> |r.value.slots| == |es|
    decreases |s|, 1
  {
    if s == [] then Some(m) else
      match DecodeTag(s)
      case None => None
      case Some(t) =>
        match CaseOf(es, t.value)
        case None => None
        case Some(i) =>
          if es[i].mode != Array && m.slots[i].vals != [] then None else
            match UnmarshalValue(sch, es[i].kind, es[i].tag, s, zeroAlloc)
            case None => None
            case Some((v, rest)) => UnmarshalInto(sch, es, Put(m, i, v), rest, zeroAlloc)
  }

  /** The generated unmarshal function. */
  ghost function Unmarshal(sch: Schema, es: seq<Entry>, s: seq<Byte>, zeroAlloc: bool): (r: Option<Message>)
    decreases |s|, 2
  {
    var r := UnmarshalInto(sch, es, Empty(|es|), s, zeroAlloc);
    if r.Some? && Complete(sch, es, r.value) then r else None
  }

  /** All payloads are shorter than 2^31 bytes, strings by one byte more, and a field of no bytes can be allocated. */
  ghost predicate ValueFits(sch: Schema, kind: Kind, v: Value, zeroAlloc: bool)
    requires ValueTyped(sch, kind, v)
    decreases v
  {
    match kind
    case Int => true
    case Int64 => true
    case String => |v.bytes| < INT32 - 1
    case VarBytes => |v.bytes| < INT32 && (v.bytes != [] || zeroAlloc)
    case Struct(name) => |Marshal(sch, sch[name], v.msg)| < INT32 && Fits(sch, sch[name], v.msg, zeroAlloc)
    case Fixed(_) => |v.bytes| < INT32
  }

  ghost predicate Fits(sch: Schema, es: seq<Entry>, m: Message, zeroAlloc: bool)
    requires Typed(sch, es, m)
    decreases m
  {
    forall i :: 0 <= i < |es| ==> SlotFits(sch, es[i], m.slots[i], zeroAlloc)
  }

  ghost predicate SlotFits(sch: Schema, e: Entry, s: Slot, zeroAlloc: bool)
    requires SlotTyped(sch, e, s)
    decreases s
  {
    forall j :: 0 <= j < |s.vals| ==> ValueFits(sch, e.kind, s.vals[j], zeroAlloc)
  }

  lemma {:induction false} CaseFound(es: seq<Entry>, i: nat)
    requires DistinctTags(es) && i < |es|
    ensures CaseOf(es, es[i].tag) == Some(i)
  {
    if i < |es| - 1 { CaseFound(es[..|es| - 1], i); }
  }

  lemma FramedIs(tag: nat, payload: seq<Byte>)
    requires |payload| < UINT32
    ensures Framed(tag, payload) == EncodeRecord(Record(tag, payload))
  {
    assert |payload| % UINT32 == |payload|;
  }

  lemma FramedTag(tag: nat, payload: seq<Byte>, rest: seq<Byte>)
    requires tag < UINT32
    ensures var d := DecodeTag(Framed(tag, payload) + rest); d.Some? && d.value.value == tag
    ensures Framed(tag, payload) != []
  {
    hide EncodeInt, DecodeTag;
    var more := EncodeInt(|payload| % UINT32) + payload + rest;
    assert Framed(tag, payload) + rest == EncodeTag(tag) + more;
    TagRoundTrip(tag, more);
  }

  /** One value comes back as it was sent. */
  lemma {:induction false} ValueRoundTrip(sch: Schema, kind: Kind, tag: nat, v: Value, rest: seq<Byte>, zeroAlloc: bool)
    requires WfSchema(sch) && tag < UINT32
    requires ValueTyped(sch, kind, v) && ValueFits(sch, kind, v, zeroAlloc) && ValueComplete(sch, kind, v)
    ensures UnmarshalValue(sch, kind, tag, MarshalValue(sch, kind, tag, v) + rest, zeroAlloc) == Some((v, rest))
    ensures var d := DecodeTag(MarshalValue(sch, kind, tag, v) + rest); d.Some? && d.value.value == tag
    ensures MarshalValue(sch, kind, tag, v) != []
    decreases v, 0
  {
    hide EncodeRecord, EncodeInt, IntOf, PayloadOf, StringOf, DecodeTag, Framed;
    var payload := PayloadSent(sch, kind, v, zeroAlloc);
    SentIs(sch, kind, tag, v, zeroAlloc);
    FramedTag(tag, payload, rest);
    FramedIs(tag, payload);
    if kind == Int {
      MarshalledInt(tag, v.n, 8, rest);
    } else if kind == Int64 {
      MarshalledInt(tag, v.n, 16, rest);
    } else if kind == String {
      MarshalledString(Record(tag, payload), rest);
      NulFree(v.bytes);
    } else {
      MarshalledPayload(Record(tag, payload), rest, if kind.Fixed? then Some(kind.length) else None);
      if kind.Struct? {
        RoundTrip(sch, sch[kind.name], v.msg, zeroAlloc);
      }
    }
  }

  /** The payload of the item that stands for a value. */
  ghost function PayloadSent(sch: Schema, kind: Kind, v: Value, zeroAlloc: bool): (p: seq<Byte>)
    requires ValueTyped(sch, kind, v) && ValueFits(sch, kind, v, zeroAlloc)
    ensures |p| < INT32
  {
    match kind
    case Int => EncodeInt(v.n)
    case Int64 => EncodeInt(v.n)
    case Struct(name) => Marshal(sch, sch[name], v.msg)
    case _ => v.bytes
  }

  lemma SentIs(sch: Schema, kind: Kind, tag: nat, v: Value, zeroAlloc: bool)
    requires ValueTyped(sch, kind, v) && ValueFits(sch, kind, v, zeroAlloc)
    ensures MarshalValue(sch, kind, tag, v) == Framed(tag, PayloadSent(sch, kind, v, zeroAlloc))
  {
    hide Framed, MarshalFrom, EncodeInt;
    if v.Data? && |v.bytes| < INT32 {
      Cut(v.bytes);
    }
  }

  lemma Cut(s: seq<Byte>)
    requires |s| < UINT32
    ensures |s| % UINT32 == |s| && s[..|s|] == s
  {
  }

  /** The values of a slot come back one after the other. */
  lemma {:induction false} SlotRoundTrip(sch: Schema, es: seq<Entry>, m: Message, i: nat, s: Slot, j: nat,
      rest: seq<Byte>, zeroAlloc: bool)
    requires WfSchema(sch) && DistinctTags(es) && (forall e :: e in es ==> e.tag < UINT32)
    requires
      && i < |es| == |m.slots|
      && SlotTyped(sch, es[i], s)
      && SlotFits(sch, es[i], s, zeroAlloc)
      && SlotComplete(sch, es[i].kind, s)
    requires j <= |s.vals| && m.slots[i] == Slot(s.vals[..j])
    ensures UnmarshalInto(sch, es, m, MarshalSlot(sch, es[i], s, j) + rest, zeroAlloc)
         == UnmarshalInto(sch, es, m.(slots := m.slots[i := s]), rest, zeroAlloc)
    decreases s, |s.vals| - j
  {
    hide UnmarshalValue, MarshalValue, DecodeTag, CaseOf;
    if j == |s.vals| {
      assert s.vals[..j] == s.vals;
      assert MarshalSlot(sch, es[i], s, j) + rest == rest;
      assert m.slots[i := s] == m.slots;
    } else {
      var v := s.vals[j];
      var more := MarshalSlot(sch, es[i], s, j + 1) + rest;
      var all := MarshalSlot(sch, es[i], s, j) + rest;
      assert all == MarshalValue(sch, es[i].kind, es[i].tag, v) + more;
      ValueRoundTrip(sch, es[i].kind, es[i].tag, v, more, zeroAlloc);
      CaseFound(es, i);
      var next := Put(m, i, v);
      assert s.vals[..j + 1] == s.vals[..j] + [v];
      SlotRoundTrip(sch, es, next, i, s, j + 1, rest, zeroAlloc);
      assert next.slots[i := s] == m.slots[i := s];
    }
  }

  /** The message with its first `i` slots only. */
  ghost function UpTo(m: Message, i: nat): Message
    requires i <= |m.slots|
  {
    Message(m.slots[..i] + Empty(|m.slots| - i).slots)
  }

  lemma {:induction false} FieldsRoundTrip(sch: Schema, es: seq<Entry>, m: Message, i: nat, zeroAlloc: bool)
    requires WfSchema(sch) && DistinctTags(es) && (forall e :: e in es ==> e.tag < UINT32)
    requires Typed(sch, es, m) && Fits(sch, es, m, zeroAlloc) && Complete(sch, es, m) && i <= |es|
    ensures UnmarshalInto(sch, es, UpTo(m, i), MarshalFrom(sch, es, m, i), zeroAlloc) == Some(m)
    decreases m, |es| - i
  {
    hide UnmarshalInto, MarshalSlot;
    if i == |es| {
      assert UpTo(m, i).slots == m.slots;
      NothingLeft(sch, es, m, zeroAlloc);
    } else {
      FieldsRoundTrip(sch, es, m, i + 1, zeroAlloc);
      SlotRoundTrip(sch, es, UpTo(m, i), i, m.slots[i], 0, MarshalFrom(sch, es, m, i + 1), zeroAlloc);
      assert UpTo(m, i).slots[i := m.slots[i]] == UpTo(m, i + 1).slots;
    }
  }

  lemma NothingLeft(sch: Schema, es: seq<Entry>, m: Message, zeroAlloc: bool)
    requires |m.slots| == |es|
    ensures UnmarshalInto(sch, es, m, [], zeroAlloc) == Some(m)
  {
  }

  /** A complete message comes back as it was sent. */
  lemma {:induction false} RoundTrip(sch: Schema, es: seq<Entry>, m: Message, zeroAlloc: bool)
    requires WfSchema(sch) && DistinctTags(es) && (forall e :: e in es ==> e.tag < UINT32)
    requires Typed(sch, es, m) && Fits(sch, es, m, zeroAlloc) && Complete(sch, es, m)
    ensures Unmarshal(sch, es, Marshal(sch, es, m), zeroAlloc) == Some(m)
    decreases m
  {
    hide UnmarshalInto, MarshalFrom;
    FieldsRoundTrip(sch, es, m, 0, zeroAlloc);
    assert UpTo(m, 0).slots == Empty(|es|).slots;
  }

  /** What a message is like while it is being read: complete values of the right types, and no field set twice. */
  ghost predicate Partly(sch: Schema, es: seq<Entry>, m: Message) {
    && |m.slots| == |es|
    && forall i :: 0 <= i < |es| ==> SlotPartly(sch, es[i], m.slots[i])
  }

  ghost predicate SlotPartly(sch: Schema, e: Entry, s: Slot) {
    && (e.mode != Array ==> |s.vals| <= 1)
    && forall j :: 0 <= j < |s.vals| ==> ValueTyped(sch, e.kind, s.vals[j]) && ValueComplete(sch, e.kind, s.vals[j])
  }

  /** A value that is accepted has the type of its entry and nothing is missing in it. */
  lemma {:induction false} ValueAccepted(sch: Schema, kind: Kind, tag: nat, s: seq<Byte>, zeroAlloc: bool)
    ensures var r := UnmarshalValue(sch, kind, tag, s, zeroAlloc);
      r.Some? ==> ValueTyped(sch, kind, r.value.0) && ValueComplete(sch, kind, r.value.0)
    decreases |s|, 0
  {
    hide HeaderOf, DecodeTag, DecodeInt, Complete;
    if kind == Int || kind == Int64 {
      IntAccepted(s, tag);
    } else if kind.Struct? {
      var o := PayloadOf(s, tag, None);
      if o.result.Some? && kind.name in sch {
        ShorterPayload(s);
        UnmarshalAccepted(sch, sch[kind.name], o.result.value, zeroAlloc);
      }
    }
  }

  lemma IntAccepted(s: seq<Byte>, tag: nat)
    ensures IntOf(s, tag, 8).result.Some? ==> IntOf(s, tag, 8).result.value.value < UINT32
    ensures IntOf(s, tag, 16).result.Some? ==> IntOf(s, tag, 16).result.value.value < UINT64
  {
    hide DecodeTag, DecodeInt;
    if DecodeTag(s).Some? {
      var after := s[DecodeTag(s).value.len..];
      if DecodeInt(after, 8).Some? {
        IntBound(after[DecodeInt(after, 8).value.len..]);
      }
    }
  }

  /** A header takes at least one byte. */
  lemma ShorterPayload(s: seq<Byte>)
    ensures HeaderOf(s).result.Some? ==> |HeaderOf(s).rest| < |s|
  {
    hide DecodeTag, DecodeInt;
  }

  lemma {:induction false} IntoAccepted(sch: Schema, es: seq<Entry>, m: Message, s: seq<Byte>, zeroAlloc: bool)
    requires Partly(sch, es, m)
    ensures var r := UnmarshalInto(sch, es, m, s, zeroAlloc); r.Some? ==> Partly(sch, es, r.value)
    decreases |s|, 1
  {
    hide UnmarshalValue, DecodeTag, ValueTyped, ValueComplete;
    if s != [] && DecodeTag(s).Some? && CaseOf(es, DecodeTag(s).value.value).Some? {
      var i := CaseOf(es, DecodeTag(s).value.value).value;
      var v := UnmarshalValue(sch, es[i].kind, es[i].tag, s, zeroAlloc);
      if v.Some? && (es[i].mode == Array || m.slots[i].vals == []) {
        ValueAccepted(sch, es[i].kind, es[i].tag, s, zeroAlloc);
        assert SlotPartly(sch, es[i], m.slots[i]);
        IntoAccepted(sch, es, Put(m, i, v.value.0), v.value.1, zeroAlloc);
      }
    }
  }

  /**
   * Whatever the bytes are, a message that is accepted has every required field, at most one value in a field that is
   * no array, and only values of the right types, in which nothing is missing either.
   */
  lemma {:induction false} UnmarshalAccepted(sch: Schema, es: seq<Entry>, s: seq<Byte>, zeroAlloc: bool)
    ensures var r := Unmarshal(sch, es, s, zeroAlloc);
      r.Some? ==>
        && Typed(sch, es, r.value) && Complete(sch, es, r.value)
        && forall i :: 0 <= i < |es| ==>
             && (es[i].mode == Required ==> r.value.slots[i].vals != [])
             && (es[i].mode != Array ==> |r.value.slots[i].vals| <= 1)
    decreases |s|, 2
  {
    hide UnmarshalInto, ValueTyped, ValueComplete;
    IntoAccepted(sch, es, Empty(|es|), s, zeroAlloc);
    var r := Unmarshal(sch, es, s, zeroAlloc);
    if r.Some? {
      forall i | 0 <= i < |es| ensures SlotTyped(sch, es[i], r.value.slots[i]) {
        assert SlotPartly(sch, es[i], r.value.slots[i]);
      }
    }
  }

  /** So what was accepted can be sent again and then comes back the same. */
  lemma AcceptedComesBack(sch: Schema, es: seq<Entry>, s: seq<Byte>, zeroAlloc: bool)
    requires WfSchema(sch) && DistinctTags(es) && (forall e :: e in es ==> e.tag < UINT32)
    ensures var r := Unmarshal(sch, es, s, zeroAlloc);
      r.Some? ==>
        && Typed(sch, es, r.value)
        && (Fits(sch, es, r.value, zeroAlloc) ==> Unmarshal(sch, es, Marshal(sch, es, r.value), zeroAlloc) == r)
  {
    hide Unmarshal, Marshal;
    UnmarshalAccepted(sch, es, s, zeroAlloc);
    var r := Unmarshal(sch, es, s, zeroAlloc);
    if r.Some? && Fits(sch, es, r.value, zeroAlloc) {
      RoundTrip(sch, es, r.value, zeroAlloc);
    }
  }

  /** An item is refused when no entry has its tag, and when its field is set already and no array. */
  lemma ItemRefused(sch: Schema, es: seq<Entry>, m: Message, r: Record, rest: seq<Byte>, zeroAlloc: bool)
    requires DistinctTags(es) && |m.slots| == |es| && Sendable(r)
    requires forall i :: 0 <= i < |es| && es[i].tag == r.tag ==> es[i].mode != Array && m.slots[i].vals != []
    ensures UnmarshalInto(sch, es, m, EncodeRecord(r) + rest, zeroAlloc) == None
  {
    hide EncodeInt, DecodeTag, UnmarshalValue;
    var more := EncodeInt(|r.payload|) + r.payload + rest;
    assert EncodeRecord(r) + rest == EncodeTag(r.tag) + more;
    TagRoundTrip(r.tag, more);
  }

  /** What CodeInitialize leaves in a field that must be set, as it is sent. */
  function Default(kind: Kind): Value {
    match kind
    case Fixed(length) => Data(seq(length, _ => 0))
    case VarBytes => Data([])
    case _ => Num(0)
  }

  ghost function FilledValue(sch: Schema, kind: Kind, v: Value): Value
    requires ValueTyped(sch, kind, v)
    decreases v
  {
    if kind.Struct? then Msg(Filled(sch, sch[kind.name], v.msg)) else v
  }

  ghost function FilledSlot(sch: Schema, e: Entry, s: Slot): Slot
    requires SlotTyped(sch, e, s)
    decreases s
  {
    if e.mode == Required && s.vals == [] then Slot([Default(e.kind)])
    else Slot(seq(|s.vals|, j requires 0 <= j < |s.vals| => FilledValue(sch, e.kind, s.vals[j])))
  }

  /** The message with a value in each field that is required, also in the messages inside. */
  ghost function Filled(sch: Schema, es: seq<Entry>, m: Message): Message
    requires Typed(sch, es, m)
    decreases m
  {
    Message(seq(|es|, i requires 0 <= i < |es| => FilledSlot(sch, es[i], m.slots[i])))
  }

  lemma {:induction false} FilledValueSame(sch: Schema, kind: Kind, tag: nat, v: Value)
    requires ValueTyped(sch, kind, v)
    ensures var f := FilledValue(sch, kind, v);
      && ValueTyped(sch, kind, f)
      && ValueComplete(sch, kind, f)
      && MarshalValue(sch, kind, tag, f) == MarshalValue(sch, kind, tag, v)
      && (f == v <==> ValueComplete(sch, kind, v))
    decreases v, 0
  {
    hide Framed, EncodeInt;
    if kind.Struct? {
      FilledSame(sch, sch[kind.name], v.msg);
    }
  }

  lemma {:induction false} FilledSlotSame(sch: Schema, e: Entry, s: Slot)
    requires SlotTyped(sch, e, s)
    ensures var f := FilledSlot(sch, e, s);
      && SlotTyped(sch, e, f) && SlotComplete(sch, e.kind, f) && (e.mode == Required ==> f.vals != [])
      && MarshalEntry(sch, e, f) == MarshalEntry(sch, e, s)
      && (f == s <==> (e.mode == Required ==> s.vals != []) && SlotComplete(sch, e.kind, s))
    decreases s, 1
  {
    hide Framed, EncodeInt, MarshalValue, FilledValue;
    var f := FilledSlot(sch, e, s);
    if e.mode == Required && s.vals == [] {
      DefaultSent(sch, e);
      assert MarshalSlot(sch, e, f, 1) == [];
    } else {
      forall j | 0 <= j < |s.vals|
        ensures ValueTyped(sch, e.kind, f.vals[j]) && ValueComplete(sch, e.kind, f.vals[j])
        ensures MarshalValue(sch, e.kind, e.tag, f.vals[j]) == MarshalValue(sch, e.kind, e.tag, s.vals[j])
        ensures f.vals[j] == s.vals[j] <==> ValueComplete(sch, e.kind, s.vals[j])
      {
        FilledValueSame(sch, e.kind, e.tag, s.vals[j]);
      }
      SlotsSame(sch, e, f, s, 0);
    }
  }

  lemma DefaultSent(sch: Schema, e: Entry)
    requires e.kind != String && !e.kind.Struct?
    ensures
      && ValueTyped(sch, e.kind, Default(e.kind))
      && MarshalValue(sch, e.kind, e.tag, Default(e.kind)) == MarshalUnset(e)
  {
    hide Framed, EncodeInt;
    if e.kind.Fixed? {
      var n := e.kind.length;
      assert Default(e.kind).bytes[..n % UINT32] == seq(n % UINT32, _ => 0);
    }
  }

  lemma {:induction false} SlotsSame(sch: Schema, e: Entry, f: Slot, s: Slot, j: nat)
    requires SlotTyped(sch, e, s) && SlotTyped(sch, e, f) && |f.vals| == |s.vals| && j <= |s.vals|
    requires forall k :: 0 <= k < |s.vals| ==>
      MarshalValue(sch, e.kind, e.tag, f.vals[k]) == MarshalValue(sch, e.kind, e.tag, s.vals[k])
    ensures MarshalSlot(sch, e, f, j) == MarshalSlot(sch, e, s, j)
    decreases |s.vals| - j
  {
    hide MarshalValue;
    if j < |s.vals| {
      SlotsSame(sch, e, f, s, j + 1);
    }
  }

  /**
   * A filled message is complete and is sent in the same bytes; it is another message exactly if there was something to
   * fill.
   */
  lemma {:induction false} FilledSame(sch: Schema, es: seq<Entry>, m: Message)
    requires Typed(sch, es, m)
    ensures var f := Filled(sch, es, m);
      && Typed(sch, es, f) && Complete(sch, es, f) && Marshal(sch, es, f) == Marshal(sch, es, m)
      && (f == m <==> Complete(sch, es, m))
    decreases m, 2
  {
    hide FilledSlot, MarshalEntry;
    var f := Filled(sch, es, m);
    forall i | 0 <= i < |es|
      ensures SlotTyped(sch, es[i], f.slots[i]) && SlotComplete(sch, es[i].kind, f.slots[i])
      ensures es[i].mode == Required ==> f.slots[i].vals != []
      ensures MarshalEntry(sch, es[i], f.slots[i]) == MarshalEntry(sch, es[i], m.slots[i])
      ensures f.slots[i] == m.slots[i] <==>
        (es[i].mode == Required ==> m.slots[i].vals != []) && SlotComplete(sch, es[i].kind, m.slots[i])
    {
      FilledSlotSame(sch, es[i], m.slots[i]);
    }
    EntriesSame(sch, es, f, m, 0);
    if Complete(sch, es, m) {
      assert f.slots == m.slots;
    }
  }

  lemma {:induction false} EntriesSame(sch: Schema, es: seq<Entry>, f: Message, m: Message, i: nat)
    requires Typed(sch, es, f) && Typed(sch, es, m) && i <= |es|
    requires forall k :: 0 <= k < |es| ==> MarshalEntry(sch, es[k], f.slots[k]) == MarshalEntry(sch, es[k], m.slots[k])
    ensures MarshalFrom(sch, es, f, i) == MarshalFrom(sch, es, m, i)
    decreases |es| - i
  {
    hide MarshalEntry;
    if i < |es| {
      EntriesSame(sch, es, f, m, i + 1);
    }
  }

  /**
   * Whatever message is sent, what comes back is that message with its required fields filled in. So a message comes
   * back as it was sent exactly when all its required fields are set.
   */
  lemma RoundTripIffComplete(sch: Schema, es: seq<Entry>, m: Message, zeroAlloc: bool)
    requires WfSchema(sch) && DistinctTags(es) && (forall e :: e in es ==> e.tag < UINT32)
    requires Typed(sch, es, m) && Typed(sch, es, Filled(sch, es, m)) && Fits(sch, es, Filled(sch, es, m), zeroAlloc)
    ensures Unmarshal(sch, es, Marshal(sch, es, m), zeroAlloc) == Some(Filled(sch, es, m))
    ensures Unmarshal(sch, es, Marshal(sch, es, m), zeroAlloc) == Some(m) <==> Complete(sch, es, m)
  {
    hide UnmarshalInto, MarshalFrom;
    FilledSame(sch, es, m);
    RoundTrip(sch, es, Filled(sch, es, m), zeroAlloc);
  }

  /** A string, however long, comes back as it was sent exactly when it is shorter than 2^31 - 1 bytes. */
  lemma StringComesBack(sch: Schema, tag: nat, v: Value, rest: seq<Byte>, zeroAlloc: bool)
    requires tag < UINT32 && ValueTyped(sch, String, v)
    ensures
      var back := UnmarshalValue(sch, String, tag, MarshalValue(sch, String, tag, v) + rest, zeroAlloc);
      back == Some((v, rest)) <==> |v.bytes| < INT32 - 1
    ensures |v.bytes| == INT32 - 1 ==>
      UnmarshalValue(sch, String, tag, MarshalValue(sch, String, tag, v) + rest, zeroAlloc) == None
  {
    hide EncodeRecord, StringOf, Framed;
    var sent := v.bytes[..|v.bytes| % UINT32];
    FramedIs(tag, sent);
    MarshalledString(Record(tag, sent), rest);
    NulFree(sent);
    if |v.bytes| < UINT32 {
      Cut(v.bytes);
    }
  }
}
