/** The byte format of event_tagging.c: tags, integers and records. */
module TagCodec {
  import opened Bytes

  const UINT32 := 0x1_0000_0000
  const UINT64 := 0x1_0000_0000_0000_0000
  const INT32 := 0x8000_0000

  /** A decoded number and the number of bytes it took. */
  datatype Decoded = Decoded(value: nat, len: nat)

  /** Seven bits a byte, least significant first; the high bit says that more bytes follow. */
  function EncodeTag(tag: nat): (s: seq<Byte>)
    ensures |s| >= 1
  {
    if tag < 128 then [tag] else [tag % 128 + 128] + EncodeTag(tag / 128)
  }

  function Pow(b: nat, k: nat): nat {
    if k == 0 then 1 else b * Pow(b, k - 1)
  }

  /** What decode_tag_internal makes of the bytes from `k` on; at most 32 bits are accepted. */
  function TagFrom(s: seq<Byte>, k: nat): (r: Option<Decoded>)
    requires k <= |s| && k <= 5
    ensures r.Some? ==> k < r.value.len <= |s| && r.value.len <= 5
    decreases |s| - k
  {
    if k == |s| || k == 5 || (k == 4 && s[k] % 128 > 15) then None
    else if s[k] < 128 then Some(Decoded(s[k], k + 1))
    else
      match TagFrom(s, k + 1)
      case None => None
      case Some(d) => Some(Decoded(s[k] % 128 + 128 * d.value, d.len))
  }

  /** The tag at the front of `s`. */
  function DecodeTag(s: seq<Byte>): (r: Option<Decoded>)
    ensures r.Some? ==> 0 < r.value.len <= |s| && r.value.len <= 5
  {
    TagFrom(s, 0)
  }

  lemma {:induction false} TagFromEncoded(pre: seq<Byte>, tag: nat, rest: seq<Byte>, bound: nat)
    requires |pre| + 1 <= 5 && tag < bound && bound == Pow(128, 4 - |pre|) * 16
    ensures TagFrom(pre + EncodeTag(tag) + rest, |pre|) == Some(Decoded(tag, |pre| + |EncodeTag(tag)|))
    decreases tag
  {
    var s := pre + EncodeTag(tag) + rest;
    assert s[|pre|] == EncodeTag(tag)[0];
    if |pre| == 4 {
      assert bound == 16;
    }
    if tag >= 128 {
      var more := pre + [tag % 128 + 128];
      assert s == more + EncodeTag(tag / 128) + rest;
      assert bound == 128 * (Pow(128, 3 - |pre|) * 16);
      TagFromEncoded(more, tag / 128, rest, Pow(128, 3 - |pre|) * 16);
    }
  }

  /** A tag is recovered whatever follows it, and exactly its bytes are consumed. */
  lemma TagRoundTrip(tag: nat, rest: seq<Byte>)
    requires tag < UINT32
    ensures DecodeTag(EncodeTag(tag) + rest) == Some(Decoded(tag, |EncodeTag(tag)|))
  {
    Pow128();
    assert [] + EncodeTag(tag) + rest == EncodeTag(tag) + rest;
    TagFromEncoded([], tag, rest, UINT32);
  }

  lemma {:induction false} TagFromBound(s: seq<Byte>, k: nat)
    requires k <= |s| && k < 5
    ensures TagFrom(s, k).Some? ==> TagFrom(s, k).value.value < Pow(128, 4 - k) * 16
    decreases |s| - k
  {
    if k < 4 {
      assert Pow(128, 4 - k) * 16 == 128 * (Pow(128, 3 - k) * 16);
      PowPositive(128, 3 - k);
      if k < |s| { TagFromBound(s, k + 1); }
    }
  }

  lemma {:induction false} PowPositive(b: nat, k: nat)
    requires b > 0
    ensures Pow(b, k) > 0
  {
    if k > 0 { PowPositive(b, k - 1); }
  }

  lemma Pow128()
    ensures Pow(128, 4) * 16 == UINT32
  {
    assert Pow(128, 1) == 128;
    assert Pow(128, 2) == 16384;
    assert Pow(128, 3) == 2097152;
  }

  /** Only 32-bit numbers are accepted as tags. */
  lemma TagBound(s: seq<Byte>)
    ensures DecodeTag(s).Some? ==> DecodeTag(s).value.value < UINT32
  {
    Pow128();
    TagFromBound(s, 0);
  }

  type Nibble = n: int | 0 <= n < 16

  /** The hexadecimal digits of a number, least significant first; zero has one digit. */
  function Digits(n: nat): (d: seq<Nibble>)
    ensures |d| >= 1
  {
    if n < 16 then [n] else [n % 16] + Digits(n / 16)
  }

  function Value(d: seq<Nibble>): nat {
    if d == [] then 0 else d[0] + 16 * Value(d[1..])
  }

  /** The half bytes of `s`, high halves first. */
  function Half(s: seq<Byte>, k: nat): Nibble
    requires k < 2 * |s|
  {
    if k % 2 == 0 then s[k / 2] / 16 else s[k / 2] % 16
  }

  function Pair(hi: Nibble, lo: Nibble): (b: Byte)
    ensures b / 16 == hi && b % 16 == lo
  {
    hi as int * 16 + lo
  }

  /** Pairs of half bytes make bytes; an odd one out is padded with zero. */
  function Pack(d: seq<Nibble>): (s: seq<Byte>)
    ensures |s| == (|d| + 1) / 2
  {
    seq((|d| + 1) / 2, j requires 0 <= j < (|d| + 1) / 2 => Pair(d[2 * j], if 2 * j + 1 < |d| then d[2 * j + 1] else 0))
  }

  /** The number of digits less one, then the digits. */
  function EncodeInt(n: nat): (s: seq<Byte>)
    requires n < UINT64
    ensures 1 <= |s| <= 9 && (n < UINT32 ==> |s| <= 5)
  {
    DigitCount(n);
    Pack([|Digits(n)| - 1] + Digits(n))
  }

  /** The integer at the front of `s`, of at most `max` digits. The padding is not looked at. */
  function DecodeInt(s: seq<Byte>, max: nat): (r: Option<Decoded>)
    ensures r.Some? ==> 0 < r.value.len <= |s|
  {
    if s == [] || s[0] / 16 + 1 > max || (s[0] / 16 + 1) / 2 + 1 > |s| then None
    else
      var n := s[0] / 16 + 1;
      Some(Decoded(Value(seq(n, k requires 0 <= k < n => Half(s, k + 1))), n / 2 + 1))
  }

  lemma {:induction false} DigitsBelow(n: nat, k: nat)
    requires n < Pow(16, k) && k > 0
    ensures |Digits(n)| <= k
  {
    if n >= 16 {
      assert k > 1;
      assert Pow(16, k) == 16 * Pow(16, k - 1);
      DigitsBelow(n / 16, k - 1);
    }
  }

  lemma DigitCount(n: nat)
    requires n < UINT64
    ensures |Digits(n)| <= 16 && (n < UINT32 ==> |Digits(n)| <= 8)
  {
    Pow16();
    DigitsBelow(n, 16);
    if n < UINT32 { DigitsBelow(n, 8); }
  }

  lemma {:induction false} PowSum(b: nat, i: nat, j: nat)
    ensures Pow(b, i + j) == Pow(b, i) * Pow(b, j)
  {
    if i > 0 {
      PowSum(b, i - 1, j);
      Grouped(b, Pow(b, i - 1), Pow(b, j));
    }
  }

  lemma Grouped(a: nat, b: nat, c: nat)
    ensures a * (b * c) == (a * b) * c
  {
  }

  lemma {:induction false} DigitsValue(n: nat)
    ensures Value(Digits(n)) == n
  {
    if n >= 16 {
      DigitsValue(n / 16);
      assert Digits(n)[1..] == Digits(n / 16);
    } else {
      assert Digits(n)[1..] == [];
    }
  }

  lemma {:induction false} ValueBelow(d: seq<Nibble>)
    ensures Value(d) < Pow(16, |d|)
  {
    if d != [] { ValueBelow(d[1..]); }
  }

  lemma {:induction false} PowGrows(i: nat, j: nat)
    requires i <= j
    ensures Pow(16, i) <= Pow(16, j)
  {
    PowPositive(16, i);
    if i < j { PowGrows(i, j - 1); }
  }

  /** Eight digits make a 32-bit number, sixteen a 64-bit number. */
  lemma IntBound(s: seq<Byte>)
    ensures DecodeInt(s, 8).Some? ==> DecodeInt(s, 8).value.value < UINT32
    ensures DecodeInt(s, 16).Some? ==> DecodeInt(s, 16).value.value < UINT64
  {
    hide DecodeInt, Pow;
    Pow16();
    if DecodeInt(s, 8).Some? { DecodedBelow(s, 8); }
    if DecodeInt(s, 16).Some? { DecodedBelow(s, 16); }
  }

  lemma DecodedBelow(s: seq<Byte>, max: nat)
    requires DecodeInt(s, max).Some?
    ensures DecodeInt(s, max).value.value < Pow(16, max)
  {
    hide Value, Half, Pow;
    var n := s[0] / 16 + 1;
    ValueBelow(seq(n, k requires 0 <= k < n => Half(s, k + 1)));
    PowGrows(n, max);
  }

  lemma Pow16()
    ensures Pow(16, 8) == UINT32 && Pow(16, 16) == UINT64
  {
    assert Pow(16, 4) == 65536 by { assert Pow(16, 2) == 256; }
    PowSum(16, 4, 4);
    PowSum(16, 8, 8);
  }

  lemma PackHalf(d: seq<Nibble>, rest: seq<Byte>, k: nat)
    requires k < |d|
    ensures Half(Pack(d) + rest, k) == d[k]
  {
    assert (Pack(d) + rest)[k / 2] == Pack(d)[k / 2];
    var j := k / 2;
    assert Pack(d)[j] == Pair(d[2 * j], if 2 * j + 1 < |d| then d[2 * j + 1] else 0);
  }

  lemma HalvesDecode(d: seq<Nibble>, rest: seq<Byte>, max: nat)
    requires 0 < |d| <= 16 && |d| <= max
    ensures var s := Pack([|d| - 1] + d); DecodeInt(s + rest, max) == Some(Decoded(Value(d), |s|))
  {
    hide Value, Pack;
    var all: seq<Nibble> := [|d| - 1] + d;
    var s := Pack(all) + rest;
    PackHalf(all, rest, 0);
    assert Half(s, 0) == s[0] / 16;
    forall k | 0 <= k < |d| ensures Half(s, k + 1) == d[k] {
      PackHalf(all, rest, k + 1);
    }
    assert seq(|d|, k requires 0 <= k < |d| => Half(s, k + 1)) == d;
  }

  /** An integer is recovered whatever follows it, and exactly its bytes are consumed. */
  lemma IntRoundTrip(n: nat, rest: seq<Byte>)
    requires n < UINT64
    ensures DecodeInt(EncodeInt(n) + rest, 16) == Some(Decoded(n, |EncodeInt(n)|))
    ensures n < UINT32 ==> DecodeInt(EncodeInt(n) + rest, 8) == Some(Decoded(n, |EncodeInt(n)|))
  {
    hide Pow, Digits, Value, Pack, DecodeInt, Half;
    var d := Digits(n);
    DigitCount(n);
    DigitsValue(n);
    HalvesDecode(d, rest, 16);
    if n < UINT32 { HalvesDecode(d, rest, 8); }
  }

  /** A tagged item. */
  datatype Record = Record(tag: nat, payload: seq<Byte>)

  ghost predicate Sendable(r: Record) {
    r.tag < UINT32 && |r.payload| < INT32
  }

  function EncodeRecord(r: Record): (s: seq<Byte>)
    requires |r.payload| < UINT32
    ensures |s| >= 2 + |r.payload|
  {
    EncodeTag(r.tag) + EncodeInt(|r.payload|) + r.payload
  }

  /** The record at the front of `s`. */
  function DecodeRecord(s: seq<Byte>): (r: Option<(Record, seq<Byte>)>)
    ensures r.Some? ==> |r.value.1| < |s|
  {
    match DecodeTag(s)
    case None => None
    case Some(t) =>
      var after := s[t.len..];
      match DecodeInt(after, 8)
      case None => None
      case Some(n) =>
        var rest := after[n.len..];
        if n.value > |rest| then None else Some((Record(t.value, rest[..n.value]), rest[n.value..]))
  }

  function DecodeRecords(s: seq<Byte>): Option<seq<Record>>
    decreases |s|
  {
    if s == [] then Some([]) else
      match DecodeRecord(s)
      case None => None
      case Some((r, rest)) =>
        match DecodeRecords(rest)
        case None => None
        case Some(rs) => Some([r] + rs)
  }

  function EncodeRecords(rs: seq<Record>): seq<Byte>
    requires forall r :: r in rs ==> |r.payload| < UINT32
  {
    if rs == [] then [] else EncodeRecord(rs[0]) + EncodeRecords(rs[1..])
  }

  lemma RecordRoundTrip(r: Record, rest: seq<Byte>)
    requires r.tag < UINT32 && |r.payload| < UINT32
    ensures DecodeRecord(EncodeRecord(r) + rest) == Some((r, rest))
  {
    hide EncodeTag, EncodeInt, DecodeTag, DecodeInt;
    var s := EncodeRecord(r) + rest;
    var body := r.payload + rest;
    var t, n := EncodeTag(r.tag), EncodeInt(|r.payload|);
    TagRoundTrip(r.tag, n + body);
    assert s == t + (n + body);
    IntRoundTrip(|r.payload|, body);
    assert s[|t|..] == n + body && (n + body)[|n|..] == body;
    assert body[..|r.payload|] == r.payload && body[|r.payload|..] == rest;
  }

  /** A concatenation of records parses back into the same records. */
  lemma {:induction false} RecordsRoundTrip(rs: seq<Record>)
    requires forall r :: r in rs ==> r.tag < UINT32 && |r.payload| < UINT32
    ensures DecodeRecords(EncodeRecords(rs)) == Some(rs)
  {
    hide EncodeRecord, DecodeRecord;
    if rs != [] {
      var s := EncodeRecord(rs[0]) + EncodeRecords(rs[1..]);
      RecordRoundTrip(rs[0], EncodeRecords(rs[1..]));
      RecordsRoundTrip(rs[1..]);
      assert DecodeRecords(s) == Some([rs[0]] + rs[1..]);
      assert [rs[0]] + rs[1..] == rs;
    }
  }

  /** A 32-bit unsigned number converted to `int`. */
  function AsInt(n: nat): (i: int)
    ensures i % UINT32 == n % UINT32 && -INT32 <= i < INT32
  {
    if n % UINT32 < INT32 then n % UINT32 else n % UINT32 - UINT32
  }

  /** What a reader made of the bytes (None for -1), and what it left. */
  datatype Outcome<T> = Outcome(result: Option<T>, rest: seq<Byte>)

  /** A tag and the length that follows it, as an `int`. */
  datatype Header = Header(tag: nat, len: int)

  /** An `int` converted to `size_t`: a negative number becomes a huge size. */
  function AsSize(len: int): (n: nat)
    requires -INT32 <= len < INT32
    ensures n < UINT64 && (n == len || n == len + UINT64)
  {
    if len < 0 then len + UINT64 else len
  }

  /** `s` without the bytes that `evbuffer_drain(evbuf, len)` removes. */
  function Drained(s: seq<Byte>, len: int): seq<Byte>
    requires -INT32 <= len < INT32
  {
    if AsSize(len) <= |s| then s[AsSize(len)..] else []
  }

  /** evtag_unmarshal_header. */
  function HeaderOf(s: seq<Byte>): (r: Outcome<Header>)
    ensures r.result.Some? ==>
      r.result.value.len != -1 && r.result.value.len <= |r.rest| && -INT32 <= r.result.value.len < INT32
  {
    match DecodeTag(s)
    case None => Outcome(None, s)
    case Some(t) =>
      var after := s[t.len..];
      match DecodeInt(after, 8)
      case None => Outcome(None, after)
      case Some(n) =>
        var rest := after[n.len..];
        if |rest| < n.value || AsInt(n.value) == -1 then Outcome(None, rest)
        else Outcome(Some(Header(t.value, AsInt(n.value))), rest)
  }

  /** evtag_peek_length. */
  function PeekedLength(s: seq<Byte>): Option<nat> {
    match DecodeTag(s)
    case None => None
    case Some(t) =>
      match DecodeInt(s[t.len..], 8)
      case None => None
      case Some(n) => Some((n.value + n.len + t.len) % UINT32)
  }

  /** evtag_consume. */
  function Consumed(s: seq<Byte>): Outcome<()> {
    var h := HeaderOf(s);
    if h.result.None? then Outcome(None, h.rest) else Outcome(Some(()), Drained(h.rest, h.result.value.len))
  }

  /** evtag_unmarshal_int and evtag_unmarshal_int64. */
  function IntOf(s: seq<Byte>, needTag: nat, max: nat): Outcome<Decoded> {
    match DecodeTag(s)
    case None => Outcome(None, s)
    case Some(t) =>
      var after := s[t.len..];
      if t.value != needTag then Outcome(None, after) else IntAfterTag(after, max)
  }

  /** The part of evtag_unmarshal_int that follows the tag. */
  function IntAfterTag(s: seq<Byte>, max: nat): Outcome<Decoded> {
    match DecodeInt(s, 8)
    case None => Outcome(None, s)
    case Some(n) =>
      var rest := s[n.len..];
      if |rest| < n.value then Outcome(None, rest) else
        var d := DecodeInt(rest, max);
        Outcome(if d.Some? && d.value.len <= n.value then d else None, rest[n.value..])
  }

  /** evtag_unmarshal_fixed when a length is demanded, and a payload of any length otherwise. */
  function PayloadOf(s: seq<Byte>, needTag: nat, size: Option<nat>): Outcome<seq<Byte>> {
    var h := HeaderOf(s);
    if h.result.None? || h.result.value.tag != needTag || h.result.value.len < 0
       || (size.Some? && h.result.value.len != size.value) then Outcome(None, h.rest)
    else Outcome(Some(h.rest[..h.result.value.len]), h.rest[h.result.value.len..])
  }

  /**
   * evtag_unmarshal_string. For the longest payload `tag_len + 1` overflows and cannot be allocated; the header has
   * been drained by then.
   */
  function StringOf(s: seq<Byte>, needTag: nat): Outcome<seq<Byte>> {
    var o := PayloadOf(s, needTag, None);
    if o.result.Some? && |o.result.value| == INT32 - 1 then Outcome(None, HeaderOf(s).rest) else o
  }

  /** evtag_unmarshal_timeval. */
  function TimevalOf(s: seq<Byte>, needTag: nat): Outcome<(nat, nat)> {
    var h := HeaderOf(s);
    if h.result.None? then Outcome(None, h.rest)
    else Outcome(if h.result.value.tag != needTag then None else PairOf(h.rest, h.result.value.len),
      Drained(h.rest, h.result.value.len))
  }

  /** Two integers in at most `len` bytes. */
  function PairOf(s: seq<Byte>, len: int): Option<(nat, nat)> {
    match DecodeInt(s, 8)
    case None => None
    case Some(a) =>
      match DecodeInt(s[a.len..], 8)
      case None => None
      case Some(b) => if a.len + b.len > len then None else Some((a.value, b.value))
  }

  /** The header of a record is read, and its payload is what is left. */
  lemma HeaderRoundTrip(r: Record, rest: seq<Byte>)
    requires r.tag < UINT32 && |r.payload| < UINT32 - 1
    ensures HeaderOf(EncodeRecord(r) + rest) == Outcome(Some(Header(r.tag, AsInt(|r.payload|))), r.payload + rest)
  {
    hide EncodeTag, EncodeInt, DecodeTag, DecodeInt;
    var body := r.payload + rest;
    var t, n := EncodeTag(r.tag), EncodeInt(|r.payload|);
    var s := EncodeRecord(r) + rest;
    assert s == t + (n + body);
    TagRoundTrip(r.tag, n + body);
    IntRoundTrip(|r.payload|, body);
    assert s[|t|..] == n + body && (n + body)[|n|..] == body;
  }

  /** An integer is unmarshalled to what was marshalled. */
  lemma MarshalledInt(tag: nat, v: nat, max: nat, rest: seq<Byte>)
    requires tag < UINT32 && ((max == 8 && v < UINT32) || (max == 16 && v < UINT64))
    ensures IntOf(EncodeRecord(Record(tag, EncodeInt(v))) + rest, tag, max) ==
      Outcome(Some(Decoded(v, |EncodeInt(v)|)), rest)
  {
    hide EncodeTag, EncodeInt, DecodeTag, DecodeInt;
    var p := EncodeInt(v);
    var body := p + rest;
    var t, n := EncodeTag(tag), EncodeInt(|p|);
    var s := EncodeRecord(Record(tag, p)) + rest;
    assert s == t + (n + body);
    TagRoundTrip(tag, n + body);
    IntRoundTrip(|p|, body);
    IntRoundTrip(v, rest);
    assert s[|t|..] == n + body && (n + body)[|n|..] == body && body[|p|..] == rest;
  }

  lemma MarshalledPayload(r: Record, rest: seq<Byte>, size: Option<nat>)
    requires Sendable(r) && (size.Some? ==> size.value == |r.payload|)
    ensures PayloadOf(EncodeRecord(r) + rest, r.tag, size) == Outcome(Some(r.payload), rest)
  {
    hide EncodeRecord, HeaderOf;
    HeaderRoundTrip(r, rest);
    assert (r.payload + rest)[|r.payload|..] == rest && (r.payload + rest)[..|r.payload|] == r.payload;
  }

  /** A string is unmarshalled to what was marshalled exactly when it has less than 2^31 - 1 bytes. */
  lemma MarshalledString(r: Record, rest: seq<Byte>)
    requires r.tag < UINT32 && |r.payload| < UINT32
    ensures if |r.payload| < INT32 - 1
      then StringOf(EncodeRecord(r) + rest, r.tag) == Outcome(Some(r.payload), rest)
      else StringOf(EncodeRecord(r) + rest, r.tag) == Outcome(None, r.payload + rest)
  {
    hide EncodeRecord, HeaderOf;
    if |r.payload| == UINT32 - 1 {
      LongestHeader(r, rest);
    } else {
      HeaderRoundTrip(r, rest);
      if |r.payload| < INT32 { MarshalledPayload(r, rest, None); }
    }
  }

  lemma LongestHeader(r: Record, rest: seq<Byte>)
    requires r.tag < UINT32 && |r.payload| == UINT32 - 1
    ensures HeaderOf(EncodeRecord(r) + rest) == Outcome(None, r.payload + rest)
  {
    hide EncodeTag, EncodeInt, DecodeTag, DecodeInt;
    var body := r.payload + rest;
    var t, n := EncodeTag(r.tag), EncodeInt(|r.payload|);
    var s := EncodeRecord(r) + rest;
    assert s == t + (n + body);
    TagRoundTrip(r.tag, n + body);
    IntRoundTrip(|r.payload|, body);
    assert s[|t|..] == n + body && (n + body)[|n|..] == body;
  }

  /** A timeval is unmarshalled to what was marshalled. */
  lemma MarshalledTimeval(tag: nat, sec: nat, usec: nat, rest: seq<Byte>)
    requires tag < UINT32 && sec < UINT32 && usec < UINT32
    ensures TimevalOf(EncodeRecord(Record(tag, EncodeInt(sec) + EncodeInt(usec))) + rest, tag) ==
      Outcome(Some((sec, usec)), rest)
  {
    hide EncodeRecord, HeaderOf, EncodeInt, DecodeInt;
    var a, b := EncodeInt(sec), EncodeInt(usec);
    HeaderRoundTrip(Record(tag, a + b), rest);
    IntRoundTrip(sec, b + rest);
    IntRoundTrip(usec, rest);
    var body := a + b + rest;
    assert body == a + (b + rest) && body[|a|..] == b + rest && body[|a + b|..] == rest;
  }

  /** evtag_consume drains as many bytes as evtag_peek_length announced exactly when the payload length is not
      taken for a negative number, or when it is but there is nothing behind the payload anyway. */
  lemma PeekedIsConsumed(s: seq<Byte>)
    requires Consumed(s).result.Some? && |s| < UINT64 / 2
    ensures var t := DecodeTag(s).value; var n := DecodeInt(s[t.len..], 8).value;
      |s| - |Consumed(s).rest| == PeekedLength(s).value
      <==> (if n.value < INT32 then true else |s| == t.len + n.len + n.value < UINT32)
  {
    hide DecodeTag, DecodeInt, Consumed;
    ConsumedBytes(s);
    var t := DecodeTag(s).value;
    IntBound(s[t.len..]);
    TagBound(s);
    ShortInt(s[t.len..]);
  }

  /** A length that is taken for a negative number drains everything. */
  lemma ConsumedBytes(s: seq<Byte>)
    requires Consumed(s).result.Some? && |s| < UINT64 / 2
    ensures DecodeTag(s).Some? && DecodeInt(s[DecodeTag(s).value.len..], 8).Some?
    ensures var t := DecodeTag(s).value; var n := DecodeInt(s[t.len..], 8).value;
      && t.len + n.len + n.value <= |s|
      && |s| - |Consumed(s).rest| == if n.value < INT32 then t.len + n.len + n.value else |s|
  {
    hide DecodeTag, DecodeInt;
    IntBound(s[DecodeTag(s).value.len..]);
  }

  /** A payload of 2^31 bytes with one byte behind it. */
  function LongPayload(): (s: seq<Byte>)
    ensures s != []
  {
    EncodeRecord(Record(0, seq(INT32, _ => 0))) + [0]
  }

  /** All of the long payload is drained, which is more than was announced. */
  lemma PeekedIsNotConsumed()
    ensures Consumed(LongPayload()) == Outcome(Some(()), []) && PeekedLength(LongPayload()) == Some(|LongPayload()| - 1)
  {
    hide Consumed, PeekedLength, LongPayload;
    LongIsConsumed();
    LongIsPeeked();
  }

  lemma LongIsConsumed()
    ensures Consumed(LongPayload()) == Outcome(Some(()), [])
  {
    hide HeaderOf, EncodeRecord;
    HeaderRoundTrip(Record(0, seq(INT32, _ => 0)), [0]);
  }

  lemma LongIsPeeked()
    ensures PeekedLength(LongPayload()) == Some(|LongPayload()| - 1)
  {
    hide EncodeTag, EncodeInt, DecodeTag, DecodeInt;
    var zeros: seq<Byte> := seq(INT32, _ => 0);
    var t, n := EncodeTag(0), EncodeInt(INT32);
    TagRoundTrip(0, n + zeros + [0]);
    IntRoundTrip(INT32, zeros + [0]);
    assert LongPayload() == t + (n + zeros + [0]) && LongPayload()[|t|..] == n + (zeros + [0]);
    ShortTag();
  }

  lemma ShortTag()
    ensures EncodeTag(0) == [0]
  {
  }

  lemma ShortInt(s: seq<Byte>)
    ensures DecodeInt(s, 8).Some? ==> DecodeInt(s, 8).value.len <= 5
  {
  }
}
