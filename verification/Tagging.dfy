/** event_tagging.c: tagged items written to and read from evbuffers. */
module Tagging {
  import opened Bytes
  import opened Chains
  import opened EvbufferModel
  import opened TagCodec

  ghost function Halves(s: seq<Byte>): (h: seq<Nibble>)
    ensures |h| == 2 * |s|
  {
    seq(2 * |s|, k requires 0 <= k < 2 * |s| => Half(s, k))
  }

  /** The half bytes after `off - 1` digits were written behind the first, which is still free. */
  ghost function Partial(d: seq<Nibble>, off: nat, n: nat): (h: seq<Nibble>)
    requires 1 <= off <= |d| + 1
    ensures |h| == 2 * n
  {
    seq(2 * n, k requires 0 <= k < 2 * n => if 1 <= k < off then d[k - 1] else 0)
  }

  /** The nibble loop of ENCODE_INT_INTERNAL for a number of `size` bytes, writing at `at`. */
  method EncodeIntInternal(data: array<Byte>, at: nat, number: nat, size: nat) returns (len: nat)
    requires (size == 4 && number < UINT32) || (size == 8 && number < UINT64)
    requires at + size + 1 <= data.Length
    modifies data
    ensures number < UINT64 && len == |EncodeInt(number)| <= size + 1
    ensures data[at..at + len] == EncodeInt(number)
    ensures data[..at] == old(data[..at]) && data[at + size + 1..] == old(data[at + size + 1..])
  {
    hide Digits, Halves, Pack, Partial;
    DigitCount(number);
    len := EncodeDigits(data, at, number, size + 1, Digits(number));
  }

  method EncodeDigits(data: array<Byte>, at: nat, number: nat, size: nat, ghost d: seq<Nibble>) returns (len: nat)
    requires at + size <= data.Length && 0 < size && d == Digits(number) && |d| <= 2 * size - 2 && |d| <= 16
    modifies data
    ensures len <= size && data[at..at + len] == Pack([|d| - 1] + d)
    ensures data[..at] == old(data[..at]) && data[at + size..] == old(data[at + size..])
  {
    hide Digits, Halves, Pack, Partial;
    DigitsZero(number);
    var off, nibbles: nat, n := 1, 0, number;
    Memcpy(data, at, seq(size, _ => 0));
    Zeros(data[at..at + size], d);
    while n != 0
      invariant 1 <= off <= |d| + 1 && (number == 0 ==> off == 1)
      invariant d[off - 1..] == if n == 0 && number != 0 then [] else Digits(n)
      invariant Halves(data[at..at + size]) == Partial(d, off, size)
      invariant data[..at] == old(data[..at]) && data[at + size..] == old(data[at + size..])
      decreases n
    {
      DigitsStep(n);
      PartialStep(d, off, size);
      PutHalf(data, at, size, off, n % 16);
      n := n / 16;
      off := off + 1;
    }
    if off > 2 {
      nibbles := off - 2;
    }
    PutHalf(data, at, size, 0, nibbles % 16);
    len := (off + 1) / 2;
    PackOf(data[at..at + size], d, off);
    assert data[at..at + size][..len] == data[at..at + len];
  }

  lemma PartialStep(d: seq<Nibble>, off: nat, n: nat)
    requires 1 <= off <= |d| && off < 2 * n
    ensures d[off - 1..][0] == d[off - 1] && d[off - 1..][1..] == d[off..]
    ensures Partial(d, off, n)[off := d[off - 1]] == Partial(d, off + 1, n)
  {
  }

  lemma Zeros(s: seq<Byte>, d: seq<Nibble>)
    requires forall k :: 0 <= k < |s| ==> s[k] == 0
    ensures Halves(s) == Partial(d, 1, |s|)
  {
  }

  lemma DigitsZero(n: nat)
    ensures Digits(0) == [0] && (n != 0 ==> Digits(n) != [])
  {
  }

  lemma DigitsStep(n: nat)
    requires n > 0
    ensures Digits(n)[0] == n % 16
    ensures Digits(n)[1..] == if n / 16 == 0 then [] else Digits(n / 16)
  {
  }

  /** `data[k/2] = (data[k/2] & 0xf0) | x`, or the same for the high half. */
  method PutHalf(data: array<Byte>, at: nat, size: nat, k: nat, x: Nibble)
    requires at + size <= data.Length && k < 2 * size
    modifies data
    ensures Halves(data[at..at + size]) == old(Halves(data[at..at + size]))[k := x]
    ensures data[..at] == old(data[..at]) && data[at + size..] == old(data[at + size..])
  {
    hide Halves;
    var b := data[at + k / 2];
    data[at + k / 2] := if k % 2 == 1 then (b / 16) * 16 + x else b % 16 + x * 16;
    assert data[at..at + size] == old(data[at..at + size])[k / 2 := data[at + k / 2]];
    HalvesPut(old(data[at..at + size]), k, x);
  }

  lemma HalvesPut(s: seq<Byte>, k: nat, x: Nibble)
    requires k < 2 * |s|
    ensures var b := s[k / 2]; var c := if k % 2 == 1 then (b / 16) * 16 + x else b % 16 + x * 16;
            0 <= c < 256 && Halves(s[k / 2 := c]) == Halves(s)[k := x]
  {
    hide Halves;
    if k % 2 == 1 {
      LowPut(s, k / 2, x);
    } else {
      HighPut(s, k / 2, x);
    }
  }

  lemma LowPut(s: seq<Byte>, i: nat, x: Nibble)
    requires i < |s|
    ensures Halves(s[i := Pair(s[i] / 16, x)]) == Halves(s)[2 * i + 1 := x]
  {
    hide Half, Pair;
    var t := s[i := Pair(s[i] / 16, x)];
    forall j | 0 <= j < |s|
      ensures Half(t, 2 * j) == Half(s, 2 * j) && (j != i ==> Half(t, 2 * j + 1) == Half(s, 2 * j + 1))
    {
      HalfOf(s, j);
      HalfOf(t, j);
    }
    HalfOf(t, i);
    HalvesSame(t, Halves(s)[2 * i + 1 := x]);
  }

  lemma HighPut(s: seq<Byte>, i: nat, x: Nibble)
    requires i < |s|
    ensures Halves(s[i := Pair(x, s[i] % 16)]) == Halves(s)[2 * i := x]
  {
    hide Half, Pair;
    var t := s[i := Pair(x, s[i] % 16)];
    forall j | 0 <= j < |s|
      ensures Half(t, 2 * j + 1) == Half(s, 2 * j + 1) && (j != i ==> Half(t, 2 * j) == Half(s, 2 * j))
    {
      HalfOf(s, j);
      HalfOf(t, j);
    }
    HalfOf(t, i);
    HalvesSame(t, Halves(s)[2 * i := x]);
  }

  lemma HalvesSame(t: seq<Byte>, h: seq<Nibble>)
    requires |h| == 2 * |t|
    requires forall j {:trigger t[j]} :: 0 <= j < |t| ==>
      Half(t, 2 * j) == h[2 * j] && Half(t, 2 * j + 1) == h[2 * j + 1]
    ensures Halves(t) == h
  {
    hide Half;
    forall k | 0 <= k < |h| ensures Half(t, k) == h[k] {
      var j := k / 2;
      var _ := t[j];
    }
  }

  /** The half bytes with the count in front make the encoding. */
  lemma PackOf(s: seq<Byte>, d: seq<Nibble>, off: nat)
    requires 0 < |d| <= 16 && |d| < 2 * |s| && (off == |d| + 1 || (off == 1 && d == [0]))
    requires Halves(s) == Partial(d, off, |s|)[0 := if off > 2 then off - 2 else 0]
    ensures (off + 1) / 2 == |Pack([|d| - 1] + d)| && s[..(off + 1) / 2] == Pack([|d| - 1] + d)
  {
    hide Half;
    var all: seq<Nibble> := [|d| - 1] + d;
    forall j | 0 <= j < (|d| + 2) / 2 ensures s[j] == Pack(all)[j] {
      HalfOf(s, j);
      assert 2 * j < |d| + 1 && Halves(s)[2 * j] == Half(s, 2 * j) == all[2 * j];
      assert Halves(s)[2 * j + 1] == Half(s, 2 * j + 1) == if 2 * j + 1 < |all| then all[2 * j + 1] else 0;
    }
  }

  lemma HalfOf(s: seq<Byte>, j: nat)
    requires j < |s|
    ensures Half(s, 2 * j) == s[j] / 16 && Half(s, 2 * j + 1) == s[j] % 16
    ensures s[j] == Pair(Half(s, 2 * j), Half(s, 2 * j + 1))
  {
  }

  /** The loop of evtag_encode_tag. */
  method EncodeTagInto(data: array<Byte>, tag: nat) returns (bytes: nat)
    requires tag < UINT32 && data.Length == 5
    modifies data
    ensures bytes == |EncodeTag(tag)| <= 5 && data[..bytes] == EncodeTag(tag)
  {
    TagLength(tag, 4);
    Pow128();
    bytes := 0;
    var t, more := tag, true;
    while more
      invariant bytes <= |EncodeTag(tag)| && data[..bytes] == EncodeTag(tag)[..bytes]
      invariant EncodeTag(tag)[bytes..] == if more then EncodeTag(t) else []
      decreases more, t
    {
      var lower := t % 128;
      ghost var rest := EncodeTag(t);
      t := t / 128;
      if t != 0 {
        lower := lower + 128;
      }
      assert rest == [lower] + if t != 0 then EncodeTag(t) else [];
      assert EncodeTag(tag)[bytes] == lower && EncodeTag(tag)[bytes + 1..] == rest[1..];
      data[bytes] := lower;
      bytes := bytes + 1;
      more := t != 0;
    }
  }

  lemma {:induction false} TagLength(tag: nat, k: nat)
    requires tag < Pow(128, k) * 16
    ensures |EncodeTag(tag)| <= k + 1
  {
    if tag >= 128 {
      assert Pow(128, k) * 16 == 128 * (Pow(128, k - 1) * 16);
      TagLength(tag / 128, k - 1);
    }
  }

  /** evbuffer_add of `n` bytes succeeds. */
  ghost predicate Fits(b: Evbuffer, n: nat)
    reads b
  {
    !b.freezeEnd && n <= SIZE_MAX - b.totalLen && n <= MAX_ALLOC
  }

  /** Everything `evbuf` has is as before, except that its contents are now `c`. */
  twostate predicate Became(b: Evbuffer, c: seq<Byte>)
    reads b, b.v.chains, set c: Chain | c in b.v.chains :: c.buffer
  {
    && b.Valid() && b.Contents() == c && b.totalLen == |c|
    && b.freezeStart == old(b.freezeStart) && b.freezeEnd == old(b.freezeEnd)
    && fresh(b.Repr() - old(b.Repr()))
  }

  /** evtag_encode_int and evtag_encode_int64; the result of evbuffer_add is ignored. */
  method EncodeIntTo(evbuf: Evbuffer, number: nat, size: nat)
    requires evbuf.Valid() && ((size == 4 && number < UINT32) || (size == 8 && number < UINT64))
    modifies evbuf.Repr()
    ensures Became(evbuf,
      if old(Fits(evbuf, |EncodeInt(number)|)) then old(evbuf.Contents()) + EncodeInt(number)
      else old(evbuf.Contents()))
  {
    hide EncodeInt, Seg, View.Bytes, Evbuffer.Lwd;
    var data := new Byte[size + 1];
    var len := EncodeIntInternal(data, 0, number, size);
    assert data[0..len] == data[..len];
    var ok := evbuf.Add(data[..len]);
  }

  /** evtag_encode_tag. */
  method EncodeTagTo(evbuf: Evbuffer, tag: nat) returns (bytes: nat)
    requires evbuf.Valid() && tag < UINT32
    modifies evbuf.Repr()
    ensures bytes == |EncodeTag(tag)| <= 5
    ensures Became(evbuf,
      if old(Fits(evbuf, bytes)) then old(evbuf.Contents()) + EncodeTag(tag) else old(evbuf.Contents()))
  {
    hide EncodeTag, Seg, View.Bytes, Evbuffer.Lwd;
    var data := new Byte[5];
    bytes := EncodeTagInto(data, tag);
    var ok := evbuf.Add(data[..bytes]);
  }

  /** The tag and the length in front of a payload. */
  method MarshalHeader(evbuf: Evbuffer, tag: nat, len: nat)
    requires evbuf.Valid() && tag < UINT32 && len < UINT32
    modifies evbuf.Repr()
    ensures old(Fits(evbuf, 10)) ==> Became(evbuf, old(evbuf.Contents()) + EncodeTag(tag) + EncodeInt(len))
    ensures old(evbuf.freezeEnd) ==> Became(evbuf, old(evbuf.Contents()))
    ensures Became(evbuf, evbuf.Contents())
  {
    hide EncodeTag, EncodeInt, Seg, View.Bytes, Evbuffer.Lwd;
    ghost var e := EncodeInt(len);
    var _ := EncodeTagTo(evbuf, tag);
    EncodeIntTo(evbuf, len, 4);
  }

  /** evtag_marshal. */
  method Marshal(evbuf: Evbuffer, tag: nat, data: seq<Byte>)
    requires evbuf.Valid() && tag < UINT32 && |data| < UINT32
    modifies evbuf.Repr()
    ensures old(Fits(evbuf, 10 + |data|)) ==> Became(evbuf, old(evbuf.Contents()) + EncodeRecord(Record(tag, data)))
    ensures old(evbuf.freezeEnd) ==> Became(evbuf, old(evbuf.Contents()))
    ensures Became(evbuf, evbuf.Contents())
  {
    hide EncodeTag, EncodeInt, Seg, View.Bytes, Evbuffer.Lwd;
    MarshalHeader(evbuf, tag, |data|);
    RecordSplit(old(evbuf.Contents()), tag, data);
    var ok := evbuf.Add(data);
  }

  lemma RecordSplit(c: seq<Byte>, tag: nat, data: seq<Byte>)
    requires tag < UINT32 && |data| < UINT32
    ensures c + EncodeTag(tag) + EncodeInt(|data|) + data == c + EncodeRecord(Record(tag, data))
    ensures |EncodeTag(tag)| <= 5 && |EncodeInt(|data|)| <= 5
  {
    hide EncodeInt;
    Pow128();
    TagLength(tag, 4);
  }

  /** evtag_marshal_buffer; the length is cut to 32 bits. */
  method MarshalBuffer(evbuf: Evbuffer, tag: nat, data: Evbuffer)
    requires evbuf.Valid() && data.Valid() && evbuf.DisjointFrom(data) && tag < UINT32
    modifies evbuf.Repr(), data.Repr()
    ensures evbuf.Valid() && data.Valid()
    ensures evbuf.freezeEnd == old(evbuf.freezeEnd) && evbuf.freezeStart == old(evbuf.freezeStart)
    ensures fresh(evbuf.Repr() - old(evbuf.Repr() + data.Repr()))
    ensures old(Fits(evbuf, 10)) && !old(data.freezeStart) ==>
      && evbuf.Contents() ==
           old(evbuf.Contents()) + (EncodeTag(tag) + EncodeInt(old(|data.Contents()|) % UINT32) + old(data.Contents()))
      && data.Contents() == []
    ensures old(evbuf.freezeEnd) ==>
      evbuf.Contents() == old(evbuf.Contents()) && data.Contents() == old(data.Contents())
  {
    hide EncodeTag, EncodeInt, Seg, View.Bytes, Evbuffer.Lwd, Evbuffer.Valid, Evbuffer.DisjointFrom, EncodeRecord;
    ReprsApart(evbuf, data);
    LengthOf(data);
    MarshalHeader(evbuf, tag, data.totalLen % UINT32);
    ApartReprs(evbuf, data);
    Assoc(old(evbuf.Contents()), EncodeTag(tag), EncodeInt(|data.Contents()| % UINT32), data.Contents());
    var ok := evbuf.AddBuffer(data);
  }

  lemma Assoc(c: seq<Byte>, t: seq<Byte>, n: seq<Byte>, p: seq<Byte>)
    ensures c + t + n + p == c + (t + n + p)
  {
  }

  lemma LengthOf(b: Evbuffer)
    requires b.Valid()
    ensures b.totalLen == |b.Contents()|
  {
  }

  /** evtag_marshal_int and evtag_marshal_int64. */
  method MarshalInt(evbuf: Evbuffer, tag: nat, integer: nat, size: nat)
    requires evbuf.Valid() && tag < UINT32 && ((size == 4 && integer < UINT32) || (size == 8 && integer < UINT64))
    modifies evbuf.Repr()
    ensures old(Fits(evbuf, 19)) ==>
      Became(evbuf, old(evbuf.Contents()) + EncodeRecord(Record(tag, EncodeInt(integer))))
    ensures old(evbuf.freezeEnd) ==> Became(evbuf, old(evbuf.Contents()))
    ensures Became(evbuf, evbuf.Contents())
  {
    hide EncodeTag, EncodeInt, Seg, View.Bytes, Evbuffer.Lwd;
    var data := new Byte[size + 1];
    var len := EncodeIntInternal(data, 0, integer, size);
    assert data[0..len] == data[..len];
    var payload := data[..len];
    MarshalHeader(evbuf, tag, len);
    RecordSplit(old(evbuf.Contents()), tag, payload);
    var ok := evbuf.Add(payload);
  }

  /** evtag_marshal_timeval; both fields are cut to 32 bits. */
  method MarshalTimeval(evbuf: Evbuffer, tag: nat, sec: int, usec: int)
    requires evbuf.Valid() && tag < UINT32
    modifies evbuf.Repr()
    ensures old(Fits(evbuf, 20)) ==>
      Became(evbuf,
        old(evbuf.Contents()) + EncodeRecord(Record(tag, EncodeInt(sec % UINT32) + EncodeInt(usec % UINT32))))
    ensures old(evbuf.freezeEnd) ==> Became(evbuf, old(evbuf.Contents()))
    ensures Became(evbuf, evbuf.Contents())
  {
    hide EncodeTag, EncodeInt, Seg, View.Bytes, Evbuffer.Lwd, Evbuffer.Valid, EncodeRecord;
    var data := new Byte[10];
    var len := EncodeTimeval(data, sec % UINT32, usec % UINT32);
    Marshal(evbuf, tag, data[..len]);
  }

  method EncodeTimeval(data: array<Byte>, sec: nat, usec: nat) returns (len: nat)
    requires data.Length == 10 && sec < UINT32 && usec < UINT32
    modifies data
    ensures len <= 10 && data[..len] == EncodeInt(sec) + EncodeInt(usec)
  {
    hide EncodeInt;
    len := EncodeIntInternal(data, 0, sec, 4);
    ghost var first := data[..len];
    assert data[0..len] == data[..len];
    var more := EncodeIntInternal(data, len, usec, 4);
    assert data[..len + more] == data[..len] + data[len..len + more];
    len := len + more;
  }

  /** The first `n` bytes through the pointer evbuffer_pullup returns, if it returns one. */
  method Front(evbuf: Evbuffer, n: nat) returns (data: Option<seq<Byte>>)
    requires evbuf.Valid() && n <= MAX_ALLOC
    modifies evbuf.Repr()
    ensures Became(evbuf, old(evbuf.Contents()))
    ensures data.Some? <==> 0 < n <= |evbuf.Contents()|
    ensures data.Some? ==> data.value == evbuf.Contents()[..n]
  {
    hide Nodes, Flatten, Evbuffer.Lwd;
    var chain := evbuf.Pullup(n);
    if chain == null {
      return None;
    }
    SegAt(evbuf.first, evbuf.v, 0, null);
    chain.HoldsOff(evbuf.v.datas[0]);
    FlattenPiece(evbuf.v.datas, 0);
    FlattenWhole(evbuf.v.datas);
    data := Some(chain.Data()[..n]);
  }

  /** decode_tag_internal. */
  method DecodeTagInternal(evbuf: Evbuffer, doDrain: bool) returns (count: int, tag: nat)
    requires evbuf.Valid()
    modifies evbuf.Repr()
    ensures var c := old(evbuf.Contents());
      match DecodeTag(c)
      case None => count == -1 && Became(evbuf, c)
      case Some(t) =>
        && count == t.len
        && tag == t.value
        && Became(evbuf, if doDrain && !evbuf.freezeStart then c[t.len..] else c)
  {
    hide Seg, View.Bytes, Evbuffer.Lwd, DecodeTag, Evbuffer.Valid;
    tag := 0;
    LengthOf(evbuf);
    var len := evbuf.totalLen;
    var data := Front(evbuf, if len < 5 then len else 5);
    if data.None? {
      NoTag();
      return -1, tag;
    }
    var found, i, number := TagLoop(data.value, len, evbuf.Contents());
    if !found {
      return -1, tag;
    }
    if doDrain {
      var ok := evbuf.Drain(i);
      LengthOf(evbuf);
    }
    return i, number;
  }

  lemma NoTag()
    ensures DecodeTag([]) == None
  {
  }

  /** The loop of decode_tag_internal over the first bytes of a buffer of `len` bytes. */
  method TagLoop(data: seq<Byte>, len: nat, ghost s: seq<Byte>) returns (done: bool, count: nat, number: nat)
    requires len == |s| && data == s[..if len < 5 then len else 5]
    ensures done <==> DecodeTag(s).Some?
    ensures done ==> DecodeTag(s) == Some(Decoded(number, count))
  {
    hide TagFrom, Pow;
    number, count, done := 0, 0, false;
    var shift := 0;
    PowZero();
    while count < len
      invariant count <= len && count <= 5 && shift == 7 * count && Pow(2, shift) == Pow(128, count)
      invariant DecodeTag(s) == Shifted(number, Pow(128, count), TagFrom(s, count))
      decreases len - count
    {
      TagFromStep(s, count, number);
      if shift > 28 {
        return;
      }
      var lower := data[count];
      if shift >= 28 && lower % 128 > 15 {
        return;
      }
      PowSum(2, 7, shift);
      Pow2();
      PowNext(count);
      number := number + (lower % 128) * Pow(2, shift);
      shift := shift + 7;
      count := count + 1;
      if lower < 128 {
        done := true;
        return;
      }
    }
    TagFromEnd(s);
  }

  lemma PowZero()
    ensures Pow(2, 0) == 1 && Pow(128, 0) == 1
    ensures forall r :: Shifted(0, 1, r) == r
  {
  }

  lemma PowNext(k: nat)
    ensures Pow(128, k + 1) == 128 * Pow(128, k)
  {
  }

  lemma Pow2()
    ensures Pow(2, 7) == 128
  {
    assert Pow(2, 3) == 8;
    assert Pow(2, 5) == 32;
  }

  /** The number so far and what the bytes from here on mean. */
  ghost function Shifted(number: nat, weight: nat, r: Option<Decoded>): Option<Decoded> {
    match r
    case None => None
    case Some(d) => Some(Decoded(number + weight * d.value, d.len))
  }

  lemma TagFromEnd(s: seq<Byte>)
    ensures |s| <= 5 ==> TagFrom(s, |s|) == None
  {
  }

  lemma TagFromStep(s: seq<Byte>, k: nat, number: nat)
    requires k < |s| && k <= 5
    ensures k == 5 ==> TagFrom(s, k) == None
    ensures k == 4 && s[k] % 128 > 15 ==> TagFrom(s, k) == None
    ensures k < 4 || (k == 4 && s[k] % 128 <= 15) ==>
      var next := number + (s[k] % 128) * Pow(128, k);
      Shifted(number, Pow(128, k), TagFrom(s, k)) ==
        if s[k] < 128 then Some(Decoded(next, k + 1)) else Shifted(next, Pow(128, k + 1), TagFrom(s, k + 1))
  {
    hide Pow;
    if k < 5 {
      PowNext(k);
      if s[k] >= 128 && TagFrom(s, k).Some? {
        Distribute(Pow(128, k), s[k] % 128, TagFrom(s, k + 1).value.value);
      } else {
        Distribute(Pow(128, k), s[k], 0);
      }
    }
  }

  lemma Distribute(w: nat, a: nat, v: nat)
    ensures w * (a + 128 * v) == a * w + 128 * w * v
    ensures w * a == a * w
  {
  }

  /**
   * DECODE_INT_INTERNAL with at most `max` digits, from `offset` on. The digits fit the number's type: see `IntBound`.
   */
  method DecodeIntInternal(evbuf: Evbuffer, offset: nat, max: nat) returns (len: int, number: nat)
    requires evbuf.Valid() && offset < INT32 && offset <= |evbuf.Contents()| && (max == 8 || max == 16)
    modifies evbuf.Repr()
    ensures Became(evbuf, old(evbuf.Contents()))
    ensures match DecodeInt(old(evbuf.Contents())[offset..], max)
      case None => len == -1
      case Some(d) => len == d.len && number == d.value
  {
    hide Seg, View.Bytes, Evbuffer.Lwd, DecodeInt, Evbuffer.Valid, Value, DigitsIn, Half;
    number := 0;
    LengthOf(evbuf);
    var left := evbuf.totalLen - offset;
    if left <= 0 {
      NoInt(evbuf.Contents()[offset..], max);
      return -1, 0;
    }
    var data := Front(evbuf, offset + 1);
    var nibbles := data.value[offset] / 16 + 1;
    IntParts(evbuf.Contents()[offset..], max);
    if nibbles > max || nibbles / 2 + 1 > left {
      return -1, 0;
    }
    len := nibbles / 2 + 1;
    data := Front(evbuf, offset + len);
    number := DigitLoop(data.value[offset..], nibbles);
    DigitsWithin(evbuf.Contents()[offset..], data.value[offset..], nibbles);
  }

  lemma NoInt(s: seq<Byte>, max: nat)
    ensures s == [] ==> DecodeInt(s, max) == None
  {
  }

  ghost function DigitsIn(s: seq<Byte>, n: nat): (d: seq<Nibble>)
    requires n / 2 + 1 <= |s|
  {
    seq(n, k requires 0 <= k < n => Half(s, k + 1))
  }

  lemma IntParts(s: seq<Byte>, max: nat)
    requires s != []
    ensures var n := s[0] / 16 + 1;
      DecodeInt(s, max) == if n > max || n / 2 + 1 > |s| then None else Some(Decoded(Value(DigitsIn(s, n)), n / 2 + 1))
  {
  }

  lemma DigitsWithin(s: seq<Byte>, t: seq<Byte>, n: nat)
    requires n / 2 + 1 == |t| <= |s| && t == s[..|t|]
    ensures DigitsIn(s, n) == DigitsIn(t, n)
  {
  }

  /** The loop of DECODE_INT_INTERNAL: the digits from the last one down. */
  method DigitLoop(data: seq<Byte>, n: nat) returns (number: nat)
    requires n / 2 + 1 <= |data|
    ensures number == Value(DigitsIn(data, n))
  {
    var nibbles: nat := n;
    number := 0;
    ghost var d := DigitsIn(data, n);
    while nibbles > 0
      invariant nibbles <= n && number == Value(d[nibbles..])
    {
      var digit := if nibbles % 2 == 1 then data[nibbles / 2] % 16 else data[nibbles / 2] / 16;
      assert d[nibbles - 1..] == [d[nibbles - 1]] + d[nibbles..] && d[nibbles - 1] == Half(data, nibbles) == digit;
      number := number * 16 + digit;
      nibbles := nibbles - 1;
    }
    assert d[0..] == d;
  }

  /** evtag_decode_int. */
  method DecodeIntFrom(evbuf: Evbuffer) returns (res: int, number: nat)
    requires evbuf.Valid()
    modifies evbuf.Repr()
    ensures var c := old(evbuf.Contents());
      match DecodeInt(c, 8)
      case None => res == -1 && Became(evbuf, c)
      case Some(d) => res == 0 && number == d.value && Became(evbuf, if evbuf.freezeStart then c else c[d.len..])
  {
    hide Seg, View.Bytes, Evbuffer.Lwd, DecodeInt, Evbuffer.Valid;
    var len;
    assert evbuf.Contents()[0..] == evbuf.Contents();
    len, number := DecodeIntInternal(evbuf, 0, 8);
    if len != -1 {
      var ok := evbuf.Drain(len);
      LengthOf(evbuf);
    }
    res := if len == -1 then -1 else 0;
  }

  /** evtag_peek. */
  method Peek(evbuf: Evbuffer) returns (count: int, tag: nat)
    requires evbuf.Valid()
    modifies evbuf.Repr()
    ensures Became(evbuf, old(evbuf.Contents()))
    ensures match DecodeTag(evbuf.Contents())
      case None => count == -1
      case Some(t) => count == t.len && tag == t.value
  {
    hide Seg, View.Bytes, Evbuffer.Lwd, DecodeTag, Evbuffer.Valid;
    count, tag := DecodeTagInternal(evbuf, false);
  }

  /** evtag_peek_length. */
  method PeekLength(evbuf: Evbuffer) returns (r: int, length: nat)
    requires evbuf.Valid()
    modifies evbuf.Repr()
    ensures Became(evbuf, old(evbuf.Contents()))
    ensures match PeekedLength(evbuf.Contents())
      case None => r == -1
      case Some(n) => r == 0 && length == n
  {
    hide Seg, View.Bytes, Evbuffer.Lwd, DecodeTag, DecodeInt, Evbuffer.Valid;
    length := 0;
    var len, _ := DecodeTagInternal(evbuf, false);
    if len == -1 {
      return -1, 0;
    }
    var res, n := DecodeIntInternal(evbuf, len, 8);
    if res == -1 {
      return -1, 0;
    }
    return 0, (n + res + len) % UINT32;
  }

  /** evtag_payload_length. */
  method PayloadLength(evbuf: Evbuffer) returns (r: int, length: nat)
    requires evbuf.Valid()
    modifies evbuf.Repr()
    ensures Became(evbuf, old(evbuf.Contents()))
    ensures r == 0 || r == -1
    ensures r == 0 <==> PeekedLength(evbuf.Contents()).Some?
    ensures r == 0 ==> length == DecodeInt(evbuf.Contents()[DecodeTag(evbuf.Contents()).value.len..], 8).value.value
  {
    hide Seg, View.Bytes, Evbuffer.Lwd, DecodeTag, DecodeInt, Evbuffer.Valid;
    length := 0;
    var len, _ := DecodeTagInternal(evbuf, false);
    if len == -1 {
      return -1, 0;
    }
    r, length := DecodeIntInternal(evbuf, len, 8);
    if r != -1 {
      r := 0;
    }
  }

  /** evtag_unmarshal_header. */
  method UnmarshalHeader(evbuf: Evbuffer) returns (len: int, tag: nat)
    requires evbuf.Valid()
    modifies evbuf.Repr()
    ensures Became(evbuf, evbuf.Contents())
    ensures !evbuf.freezeStart ==>
      var h := HeaderOf(old(evbuf.Contents()));
      && evbuf.Contents() == h.rest
      && (len == -1 <==> h.result.None?)
      && (len != -1 ==> h.result == Some(Header(tag, len)))
    ensures -INT32 <= len < INT32 && len <= |evbuf.Contents()|
  {
    hide Seg, View.Bytes, Evbuffer.Lwd, DecodeTag, DecodeInt, Evbuffer.Valid;
    var count;
    count, tag := DecodeTagInternal(evbuf, true);
    if count == -1 {
      return -1, tag;
    }
    var res, n := DecodeIntFrom(evbuf);
    if res == -1 {
      return -1, tag;
    }
    if evbuf.totalLen < n {
      return -1, tag;
    }
    return AsInt(n), tag;
  }

  /** `evbuffer_drain(evbuf, len)` for an `int`. */
  method DrainInt(evbuf: Evbuffer, len: int)
    requires evbuf.Valid() && -INT32 <= len < INT32
    modifies evbuf.Repr()
    ensures Became(evbuf, if evbuf.freezeStart then old(evbuf.Contents()) else Drained(old(evbuf.Contents()), len))
  {
    hide Seg, View.Bytes, Evbuffer.Lwd, Evbuffer.Valid;
    var ok := evbuf.Drain(AsSize(len));
    LengthOf(evbuf);
  }

  /** evtag_consume. */
  method Consume(evbuf: Evbuffer) returns (r: int)
    requires evbuf.Valid()
    modifies evbuf.Repr()
    ensures Became(evbuf, evbuf.Contents())
    ensures !evbuf.freezeStart ==>
      var o := Consumed(old(evbuf.Contents()));
      evbuf.Contents() == o.rest && r == if o.result.Some? then 0 else -1
  {
    hide Seg, View.Bytes, Evbuffer.Lwd, Evbuffer.Valid, HeaderOf, Drained;
    var len, _ := UnmarshalHeader(evbuf);
    if len == -1 {
      return -1;
    }
    DrainInt(evbuf, len);
    return 0;
  }

  /** evtag_unmarshal found the header `h`: its payload moved to the end of the other buffer, if that can take it. */
  ghost predicate Delivered(h: Outcome<Header>, frozen: bool, used: nat, r: int, tag: nat, before: seq<Byte>,
      after: seq<Byte>, rest: seq<Byte>)
  {
    if h.result.Some? && h.result.value.len >= 0 && !frozen && h.result.value.len <= SIZE_MAX - used then
      && r == h.result.value.len && tag == h.result.value.tag
      && r <= |h.rest| && after == before + h.rest[..r] && rest == h.rest[r..]
    else r == -1 && after == before && rest == h.rest
  }

  /** evtag_unmarshal. A negative length asks for more than can be allocated. */
  method Unmarshal(src: Evbuffer, dst: Evbuffer) returns (r: int, tag: nat)
    requires src.Valid() && dst.Valid() && src.DisjointFrom(dst)
    modifies src.Repr(), dst.Repr()
    ensures
      && src.Valid()
      && dst.Valid()
      && src.freezeStart == old(src.freezeStart)
      && dst.freezeStart == old(dst.freezeStart)
    ensures fresh(src.Repr() - old(src.Repr())) && fresh(dst.Repr() - old(dst.Repr())) && src.Repr() !! dst.Repr()
    ensures !src.freezeStart ==>
      Delivered(HeaderOf(old(src.Contents())), old(dst.freezeEnd), old(dst.totalLen), r, tag, old(dst.Contents()),
        dst.Contents(), src.Contents())
  {
    hide Seg, View.Bytes, Evbuffer.Lwd, Evbuffer.Valid, Evbuffer.DisjointFrom, HeaderOf;
    ReprsApart(src, dst);
    r, tag := UnmarshalHeader(src);
    if r < 0 {
      if r != -1 {
        var p := src.Pullup(r);
      }
      return -1, tag;
    }
    ReprsStill(src, dst);
    var ok := MovePayload(src, dst, r);
    if !ok {
      r := -1;
    }
  }

  /** `evbuffer_add(dst, evbuffer_pullup(src, len), len)`, then `evbuffer_drain(src, len)`. */
  method MovePayload(src: Evbuffer, dst: Evbuffer, len: nat) returns (ok: bool)
    requires src.Valid() && dst.Valid() && src.DisjointFrom(dst) && len < INT32 && len <= |src.Contents()|
    modifies src.Repr(), dst.Repr()
    ensures
      && src.Valid()
      && dst.Valid()
      && src.freezeStart == old(src.freezeStart)
      && dst.freezeStart == old(dst.freezeStart)
    ensures fresh(src.Repr() - old(src.Repr())) && fresh(dst.Repr() - old(dst.Repr())) && src.Repr() !! dst.Repr()
    ensures ok <==> !old(dst.freezeEnd) && len <= SIZE_MAX - old(dst.totalLen)
    ensures dst.Contents() == old(dst.Contents()) + if ok then old(src.Contents())[..len] else []
    ensures src.Contents() == if ok && !src.freezeStart then old(src.Contents())[len..] else old(src.Contents())
  {
    hide Seg, View.Bytes, Evbuffer.Lwd, Evbuffer.Valid, Evbuffer.DisjointFrom;
    ReprsApart(src, dst);
    var data := Front(src, len);
    ReprsStill(src, dst);
    ok := dst.Add(if data.Some? then data.value else []);
    if ok {
      DrainInt(src, len);
    }
  }

  /** evtag_unmarshal_int and evtag_unmarshal_int64. */
  method UnmarshalInt(evbuf: Evbuffer, needTag: nat, max: nat) returns (r: int, integer: nat)
    requires evbuf.Valid() && (max == 8 || max == 16)
    modifies evbuf.Repr()
    ensures Became(evbuf, evbuf.Contents())
    ensures !evbuf.freezeStart ==>
      var o := IntOf(old(evbuf.Contents()), needTag, max);
      && evbuf.Contents() == o.rest && (r == -1 <==> o.result.None?)
      && (r != -1 ==> o.result.value.value == integer && o.result.value.len == r)
  {
    hide Seg, View.Bytes, Evbuffer.Lwd, Evbuffer.Valid, DecodeTag, IntAfterTag;
    integer := 0;
    var count, tag := DecodeTagInternal(evbuf, true);
    if count == -1 || needTag != tag {
      return -1, 0;
    }
    r, integer := UnmarshalAfterTag(evbuf, max);
  }

  /** The part of evtag_unmarshal_int and evtag_unmarshal_int64 that follows the tag. */
  method UnmarshalAfterTag(evbuf: Evbuffer, max: nat) returns (r: int, integer: nat)
    requires evbuf.Valid() && (max == 8 || max == 16)
    modifies evbuf.Repr()
    ensures Became(evbuf, evbuf.Contents())
    ensures !evbuf.freezeStart ==>
      var o := IntAfterTag(old(evbuf.Contents()), max);
      && evbuf.Contents() == o.rest && (r == -1 <==> o.result.None?)
      && (r != -1 ==> o.result.value.value == integer && o.result.value.len == r)
  {
    hide Seg, View.Bytes, Evbuffer.Lwd, Evbuffer.Valid, DecodeInt, AsSize;
    var res, len := DecodeIntFrom(evbuf);
    if res == -1 || evbuf.totalLen < len {
      return -1, 0;
    }
    assert evbuf.Contents()[0..] == evbuf.Contents();
    r, integer := DecodeIntInternal(evbuf, 0, max);
    var ok := evbuf.Drain(len);
    LengthOf(evbuf);
    if r < 0 || r > len {
      r := -1;
    }
  }

  /** evtag_unmarshal_fixed; the payload is what was put at `data`. */
  method UnmarshalFixed(src: Evbuffer, needTag: nat, len: nat) returns (r: int, data: seq<Byte>)
    requires src.Valid()
    modifies src.Repr()
    ensures Became(src, src.Contents())
    ensures !src.freezeStart ==>
      var o := PayloadOf(old(src.Contents()), needTag, Some(len));
      src.Contents() == o.rest && (if o.result.Some? then r == 0 && data == o.result.value else r == -1)
  {
    hide Seg, View.Bytes, Evbuffer.Lwd, Evbuffer.Valid, HeaderOf;
    data := [];
    var tagLen, tag := UnmarshalHeader(src);
    if tagLen < 0 || tag != needTag {
      return -1, [];
    }
    if tagLen != len {
      return -1, [];
    }
    var _, bytes := src.Remove(len);
    LengthOf(src);
    return 0, bytes;
  }

  /**
   * evtag_unmarshal_string; the terminating NUL is not part of `data`. A negative length cannot be allocated, and
   * neither can the sum of the greatest `int` and one.
   */
  method UnmarshalString(evbuf: Evbuffer, needTag: nat) returns (r: int, data: seq<Byte>)
    requires evbuf.Valid()
    modifies evbuf.Repr()
    ensures Became(evbuf, evbuf.Contents())
    ensures !evbuf.freezeStart ==>
      var o := StringOf(old(evbuf.Contents()), needTag);
      evbuf.Contents() == o.rest && (if o.result.Some? then r == 0 && data == o.result.value else r == -1)
  {
    hide Seg, View.Bytes, Evbuffer.Lwd, Evbuffer.Valid, HeaderOf;
    data := [];
    var tagLen, tag := UnmarshalHeader(evbuf);
    if tagLen == -1 || tag != needTag {
      return -1, [];
    }
    if tagLen < 0 || tagLen == INT32 - 1 {
      return -1, [];
    }
    var _, bytes := evbuf.Remove(tagLen);
    LengthOf(evbuf);
    return 0, bytes;
  }

  /** evtag_unmarshal_timeval. */
  method UnmarshalTimeval(evbuf: Evbuffer, needTag: nat) returns (r: int, sec: nat, usec: nat)
    requires evbuf.Valid()
    modifies evbuf.Repr()
    ensures Became(evbuf, evbuf.Contents())
    ensures !evbuf.freezeStart ==>
      var o := TimevalOf(old(evbuf.Contents()), needTag);
      && evbuf.Contents() == o.rest && (r == 0 || r == -1)
      && (r == 0 <==> o.result.Some?) && (r == 0 ==> o.result.value == (sec, usec))
  {
    hide Seg, View.Bytes, Evbuffer.Lwd, Evbuffer.Valid, HeaderOf, Drained, DecodeInt, AsSize;
    sec, usec := 0, 0;
    var len, tag := UnmarshalHeader(evbuf);
    if len == -1 {
      return -1, 0, 0;
    }
    r := -1;
    if tag == needTag {
      r, sec, usec := DecodePair(evbuf, len);
    }
    DrainInt(evbuf, len);
  }

  method DecodePair(evbuf: Evbuffer, len: int) returns (r: int, sec: nat, usec: nat)
    requires evbuf.Valid()
    modifies evbuf.Repr()
    ensures Became(evbuf, old(evbuf.Contents()))
    ensures match PairOf(evbuf.Contents(), len)
      case None => r == -1
      case Some(p) => r == 0 && p == (sec, usec)
  {
    hide Seg, View.Bytes, Evbuffer.Lwd, Evbuffer.Valid, DecodeInt;
    usec := 0;
    assert evbuf.Contents()[0..] == evbuf.Contents();
    var offset, offset2;
    offset, sec := DecodeIntInternal(evbuf, 0, 8);
    if offset == -1 {
      return -1, sec, 0;
    }
    ShortInt(evbuf.Contents());
    offset2, usec := DecodeIntInternal(evbuf, offset, 8);
    if offset2 == -1 {
      return -1, sec, usec;
    }
    r := if offset + offset2 > len then -1 else 0;
  }
}
