/** What the bytes of event_tagging.c look like, and what its readers make of items that are not what they ask for. */
module TagFormat {
  import opened Bytes
  import opened TagCodec

  /** Dividing twice is dividing by the product. */
  lemma DivTwice(a: nat, b: nat, c: nat)
    requires b > 0 && c > 0
    ensures b * c > 0 && a / b / c == a / (b * c)
  {
    var q, r, t := a / b / c, a / b % c, a % b;
    assert a / b == q * c + r;
    assert a == (q * c + r) * b + t == q * (b * c) + (r * b + t);
    assert r * b + t < b * c by {
      assert (r + 1) * b <= c * b;
    }
    DivOnce(a, b * c, q, r * b + t);
  }

  /** The digit of `b` at place `k`. */
  function Digit(n: nat, b: nat, k: nat): (d: nat)
    requires b > 0
    ensures d < b
  {
    PowPositive(b, k);
    n / Pow(b, k) % b
  }

  lemma DigitZero(n: nat, b: nat)
    requires b > 0
    ensures Digit(n, b, 0) == n % b
  {
  }

  lemma DigitNext(n: nat, b: nat, k: nat)
    requires b > 0
    ensures Digit(n, b, k + 1) == Digit(n / b, b, k)
  {
    PowPositive(b, k);
    DivTwice(n, b, Pow(b, k));
  }

  lemma Smaller(n: nat, b: nat, m: nat)
    requires b > 0
    ensures n / b < m <==> n < b * m
    ensures n / b >= m <==> n >= b * m
  {
    assert n == n / b * b + n % b;
    if n / b < m {
      assert (n / b + 1) * b <= m * b;
    } else {
      assert m * b <= n / b * b;
    }
  }

  lemma {:induction false} TagBounds(tag: nat)
    ensures var n := |EncodeTag(tag)|; tag < Pow(128, n) && (n > 1 ==> Pow(128, n - 1) <= tag)
  {
    hide Pow;
    PowNext(128, 0);
    if tag >= 128 {
      var n := |EncodeTag(tag / 128)|;
      TagBounds(tag / 128);
      PowNext(128, n);
      PowNext(128, n - 1);
      Smaller(tag, 128, Pow(128, n));
      Smaller(tag, 128, Pow(128, n - 1));
    }
  }

  lemma {:induction false} TagByte(tag: nat, k: nat)
    requires k < |EncodeTag(tag)|
    ensures EncodeTag(tag)[k] as int == Digit(tag, 128, k) + if k + 1 < |EncodeTag(tag)| then 128 else 0
  {
    hide Digit;
    if k == 0 {
      DigitZero(tag, 128);
    } else {
      TagByte(tag / 128, k - 1);
      DigitNext(tag, 128, k - 1);
    }
  }

  /**
   * The bytes of a tag: seven bits each, the lowest first, with the high bit in all but the last one, and no byte more
   * than the number takes.
   */
  lemma TagLayout(tag: nat)
    ensures var s := EncodeTag(tag);
      && tag < Pow(128, |s|) && (|s| > 1 ==> Pow(128, |s| - 1) <= tag)
      && forall k :: 0 <= k < |s| ==>
           s[k] as int == Digit(tag, 128, k) + if k + 1 < |s| then 128 else 0
  {
    hide Digit, Pow, EncodeTag;
    TagBounds(tag);
    var s := EncodeTag(tag);
    forall k | 0 <= k < |s| ensures s[k] as int == Digit(tag, 128, k) + if k + 1 < |s| then 128 else 0 {
      TagByte(tag, k);
    }
  }

  lemma PowNext(b: nat, k: nat)
    ensures Pow(b, k + 1) == b * Pow(b, k) && Pow(b, 0) == 1
  {
  }

  /** The bytes from `k` to `n` end a tag: the high bit is set in all but the last one, and they make 32 bits. */
  ghost predicate TagEnds(s: seq<Byte>, k: nat, n: nat) {
    && k < n <= |s| && n <= 5
    && (forall i :: k <= i < n - 1 ==> s[i] >= 128) && s[n - 1] < 128
    && (n == 5 ==> s[4] <= 15)
  }

  lemma {:induction false} TagFromIs(s: seq<Byte>, k: nat)
    requires k <= |s| && k <= 5
    ensures forall n :: TagEnds(s, k, n) ==> TagFrom(s, k).Some? && TagFrom(s, k).value.len == n
    ensures TagFrom(s, k).Some? ==> var d := TagFrom(s, k).value;
      && TagEnds(s, k, d.len) && d.value < Pow(128, d.len - k)
      && forall i :: 0 <= i < d.len - k ==> Digit(d.value, 128, i) == s[k + i] as int % 128
    decreases |s| - k
  {
    hide Digit, Pow;
    if k < |s| && k < 5 && !(k == 4 && s[k] % 128 > 15) {
      PowNext(128, 0);
      if s[k] < 128 {
        DigitZero(s[k] as int, 128);
      } else {
        TagFromIs(s, k + 1);
        forall n | TagEnds(s, k, n) ensures TagEnds(s, k + 1, n) {
        }
        if TagFrom(s, k + 1).Some? {
          TagMore(s, k);
        }
      }
    }
  }

  lemma TagMore(s: seq<Byte>, k: nat)
    requires k < |s| && k < 5 && s[k] >= 128 && TagFrom(s, k + 1).Some? && TagFrom(s, k).Some?
    requires var m := TagFrom(s, k + 1).value;
      && m.value < Pow(128, m.len - (k + 1))
      && forall i :: 0 <= i < m.len - (k + 1) ==> Digit(m.value, 128, i) == s[k + 1 + i] as int % 128
    ensures var d := TagFrom(s, k).value;
      && d.value < Pow(128, d.len - k)
      && forall i :: 0 <= i < d.len - k ==> Digit(d.value, 128, i) == s[k + i] as int % 128
  {
    hide Digit, Pow;
    var m, d := TagFrom(s, k + 1).value, TagFrom(s, k).value;
    DivOnce(d.value, 128, m.value, s[k] as int % 128);
    Smaller(d.value, 128, Pow(128, m.len - (k + 1)));
    PowNext(128, m.len - (k + 1));
    DigitZero(d.value, 128);
    forall i | 0 < i < d.len - k ensures Digit(d.value, 128, i) == s[k + i] as int % 128 {
      DigitNext(d.value, 128, i - 1);
    }
  }

  /** Exactly which bytes are taken for a tag, and for which one. */
  lemma TagAccepted(s: seq<Byte>)
    ensures DecodeTag(s).Some? <==> exists n :: TagEnds(s, 0, n)
    ensures DecodeTag(s).Some? ==> var d := DecodeTag(s).value;
      && TagEnds(s, 0, d.len) && d.value < Pow(128, d.len)
      && forall i :: 0 <= i < d.len ==> Digit(d.value, 128, i) == s[i] as int % 128
  {
    hide Digit, Pow;
    TagFromIs(s, 0);
  }

  /** The half byte at `k`, the high one of each byte first. */
  function HalfAt(s: seq<Byte>, k: nat): nat
    requires k < 2 * |s|
  {
    if k % 2 == 0 then s[k / 2] as int / 16 else s[k / 2] as int % 16
  }

  lemma {:induction false} DigitsBounds(n: nat)
    ensures var d := |Digits(n)|; n < Pow(16, d) && (d > 1 ==> Pow(16, d - 1) <= n)
  {
    hide Pow;
    PowNext(16, 0);
    if n >= 16 {
      var d := |Digits(n / 16)|;
      DigitsBounds(n / 16);
      PowNext(16, d);
      PowNext(16, d - 1);
      Smaller(n, 16, Pow(16, d));
      Smaller(n, 16, Pow(16, d - 1));
    }
  }

  lemma {:induction false} DigitsAre(n: nat, k: nat)
    requires k < |Digits(n)|
    ensures Digits(n)[k] as int == Digit(n, 16, k)
  {
    hide Digit;
    if k == 0 {
      DigitZero(n, 16);
    } else {
      DigitsAre(n / 16, k - 1);
      DigitNext(n, 16, k - 1);
    }
  }

  /**
   * The bytes of an integer: the number of its hexadecimal digits less one, the digits, the lowest first, and zero if a
   * half byte is left; no digit more than the number takes.
   */
  lemma IntLayout(n: nat)
    requires n < UINT64
    ensures var s := EncodeInt(n); var d := HalfAt(s, 0) + 1;
      && |s| == d / 2 + 1 && n < Pow(16, d) && (d > 1 ==> Pow(16, d - 1) <= n)
      && (forall k :: 0 <= k < d ==> HalfAt(s, k + 1) == Digit(n, 16, k))
      && (d + 1 < 2 * |s| ==> HalfAt(s, d + 1) == 0)
  {
    hide Digit, Pow, Digits;
    hide Pack, HalfAt;
    DigitCount(n);
    DigitsBounds(n);
    forall k | 0 <= k < |Digits(n)| ensures Digits(n)[k] as int == Digit(n, 16, k) {
      DigitsAre(n, k);
    }
    var all: seq<Nibble> := [|Digits(n)| - 1] + Digits(n);
    assert Pack(all) == EncodeInt(n);
    PackHalves(all);
    assert forall k :: 0 <= k < |Digits(n)| ==> all[k + 1] == Digits(n)[k];
  }

  lemma PackHalves(d: seq<Nibble>)
    ensures forall k :: 0 <= k < |d| ==> HalfAt(Pack(d), k) == d[k] as int
    ensures |d| < 2 * |Pack(d)| ==> HalfAt(Pack(d), |d|) == 0
  {
    forall k | 0 <= k < |d| ensures HalfAt(Pack(d), k) == d[k] as int {
      assert Pack(d)[k / 2] == Pair(d[2 * (k / 2)], if 2 * (k / 2) + 1 < |d| then d[2 * (k / 2) + 1] else 0);
    }
    if |d| < 2 * |Pack(d)| {
      assert Pack(d)[|d| / 2] == Pair(d[2 * (|d| / 2)], 0);
    }
  }

  lemma {:induction false} ValueDigits(d: seq<Nibble>)
    ensures forall k :: 0 <= k < |d| ==> Digit(Value(d), 16, k) == d[k] as int
  {
    hide Digit;
    if d != [] {
      ValueDigits(d[1..]);
      DivOnce(Value(d), 16, Value(d[1..]), d[0] as int);
      DigitZero(Value(d), 16);
      forall k | 0 < k < |d| ensures Digit(Value(d), 16, k) == d[k] as int {
        DigitNext(Value(d), 16, k - 1);
        assert d[k] == d[1..][k - 1];
      }
    }
  }

  /** Exactly which bytes are taken for an integer of at most `max` digits, and for which one. */
  lemma IntAccepted(s: seq<Byte>, max: nat)
    ensures DecodeInt(s, max).Some? <==>
      s != [] && HalfAt(s, 0) + 1 <= max && (HalfAt(s, 0) + 1) / 2 + 1 <= |s|
    ensures DecodeInt(s, max).Some? ==>
      var v := DecodeInt(s, max).value; var d := HalfAt(s, 0) + 1;
      && v.len == d / 2 + 1 && v.value < Pow(16, d)
      && forall k :: 0 <= k < d ==> Digit(v.value, 16, k) == HalfAt(s, k + 1)
  {
    hide Digit, Pow, Value;
    if DecodeInt(s, max).Some? {
      var n := s[0] / 16 + 1;
      var d := seq(n, k requires 0 <= k < n => Half(s, k + 1));
      ValueBelow(d);
      ValueDigits(d);
      assert forall k :: 0 <= k < n ==> d[k] as int == HalfAt(s, k + 1);
    }
  }

  /**
   * An item with any tag and any length in front of any bytes: the header is read exactly when as many bytes follow and
   * the length is not the one that reads as -1.
   */
  lemma HeaderCases(tag: nat, n: nat, body: seq<Byte>)
    requires tag < UINT32 && n < UINT32
    ensures var s := EncodeTag(tag) + EncodeInt(n) + body;
      && HeaderOf(s) ==
           Outcome(if |body| < n || n == UINT32 - 1 then None else Some(Header(tag, AsInt(n))), body)
      && PeekedLength(s) == Some((n + |EncodeInt(n)| + |EncodeTag(tag)|) % UINT32)
      && DecodeTag(s) == Some(Decoded(tag, |EncodeTag(tag)|)) && s[|EncodeTag(tag)|..] == EncodeInt(n) + body
  {
    hide EncodeTag, EncodeInt, DecodeTag, DecodeInt;
    var t, l := EncodeTag(tag), EncodeInt(n);
    var s := t + l + body;
    assert s == t + (l + body);
    TagRoundTrip(tag, l + body);
    IntRoundTrip(n, body);
    assert s[|t|..] == l + body && (l + body)[|l|..] == body;
  }

  /**
   * evtag_unmarshal_fixed and the readers built on it, for every record: -1 exactly when the tag or the length is
   * another one, and then only the header is gone; else the record is.
   */
  lemma PayloadCases(r: Record, rest: seq<Byte>, needTag: nat, size: Option<nat>)
    requires Sendable(r)
    ensures PayloadOf(EncodeRecord(r) + rest, needTag, size) ==
      if r.tag != needTag || (size.Some? && size.value != |r.payload|) then Outcome(None, r.payload + rest)
      else Outcome(Some(r.payload), rest)
  {
    hide EncodeTag, EncodeInt, HeaderOf;
    assert EncodeRecord(r) + rest == EncodeTag(r.tag) + EncodeInt(|r.payload|) + (r.payload + rest);
    HeaderCases(r.tag, |r.payload|, r.payload + rest);
    assert (r.payload + rest)[|r.payload|..] == rest && (r.payload + rest)[..|r.payload|] == r.payload;
  }

  /** evtag_unmarshal_string, with a text of any length. */
  lemma StringCases(r: Record, rest: seq<Byte>, needTag: nat)
    requires Sendable(r)
    ensures StringOf(EncodeRecord(r) + rest, needTag) ==
      if r.tag != needTag || |r.payload| == INT32 - 1 then Outcome(None, r.payload + rest)
      else Outcome(Some(r.payload), rest)
  {
    hide EncodeRecord, HeaderOf, PayloadOf;
    PayloadCases(r, rest, needTag, None);
    HeaderRoundTrip(r, rest);
  }

  /** evtag_consume. */
  lemma ConsumedCases(r: Record, rest: seq<Byte>)
    requires Sendable(r)
    ensures Consumed(EncodeRecord(r) + rest) == Outcome(Some(()), rest)
  {
    hide EncodeRecord, HeaderOf;
    HeaderRoundTrip(r, rest);
    assert (r.payload + rest)[|r.payload|..] == rest;
  }

  /** An item of which bytes are missing is refused, and its header is gone. */
  lemma ShortPayload(tag: nat, n: nat, body: seq<Byte>, needTag: nat, size: Option<nat>)
    requires tag < UINT32 && |body| < n < UINT32
    ensures PayloadOf(EncodeTag(tag) + EncodeInt(n) + body, needTag, size) == Outcome(None, body)
  {
    hide EncodeTag, EncodeInt, HeaderOf;
    HeaderCases(tag, n, body);
  }

  /**
   * evtag_unmarshal_int for every record: -1 exactly when the tag is another one or the payload does not begin with an
   * integer. With another tag only the tag is gone, else the record is.
   */
  lemma IntCases(r: Record, rest: seq<Byte>, needTag: nat, max: nat)
    requires r.tag < UINT32 && |r.payload| < UINT32
    ensures IntOf(EncodeRecord(r) + rest, needTag, max) ==
      if r.tag != needTag then Outcome(None, EncodeInt(|r.payload|) + r.payload + rest)
      else Outcome(DecodeInt(r.payload, max), rest)
  {
    hide EncodeTag, EncodeInt, DecodeTag, DecodeInt;
    var body := r.payload + rest;
    var l := EncodeInt(|r.payload|);
    assert EncodeRecord(r) + rest == EncodeTag(r.tag) + l + body;
    HeaderCases(r.tag, |r.payload|, body);
    assert l + body == l + r.payload + rest;
    IntRoundTrip(|r.payload|, body);
    assert (l + body)[|l|..] == body && body[|r.payload|..] == rest;
    IntInside(r.payload, rest, max);
  }

  /** What follows an integer does not matter. */
  lemma IntInside(s: seq<Byte>, rest: seq<Byte>, max: nat)
    ensures var d := DecodeInt(s + rest, max);
      DecodeInt(s, max) == if d.Some? && d.value.len <= |s| then d else None
  {
    hide Value;
    if s != [] && (s[0] / 16 + 1) / 2 + 1 <= |s| {
      var n := s[0] / 16 + 1;
      assert forall j :: 0 <= j <= n ==> Half(s + rest, j) == Half(s, j);
      assert seq(n, k requires 0 <= k < n => Half(s + rest, k + 1)) == seq(n, k requires 0 <= k < n => Half(s, k + 1));
    }
  }

  /**
   * evtag_unmarshal_timeval for every record: -1 exactly when the tag is another one or the payload does not begin with
   * two integers; the record is gone in any case.
   */
  lemma TimevalCases(r: Record, rest: seq<Byte>, needTag: nat)
    requires Sendable(r)
    ensures TimevalOf(EncodeRecord(r) + rest, needTag) ==
      Outcome(if r.tag != needTag then None else TwoInts(r.payload), rest)
  {
    hide EncodeTag, EncodeInt, HeaderOf, PairOf, TwoInts;
    assert EncodeRecord(r) + rest == EncodeTag(r.tag) + EncodeInt(|r.payload|) + (r.payload + rest);
    HeaderCases(r.tag, |r.payload|, r.payload + rest);
    assert (r.payload + rest)[|r.payload|..] == rest;
    PairInside(r.payload, rest);
  }

  /** The two integers that a byte sequence begins with. */
  function TwoInts(p: seq<Byte>): Option<(nat, nat)> {
    var a := DecodeInt(p, 8);
    if a.None? then None else
      var b := DecodeInt(p[a.value.len..], 8);
      if b.None? then None else Some((a.value.value, b.value.value))
  }

  lemma PairInside(s: seq<Byte>, rest: seq<Byte>)
    ensures PairOf(s + rest, |s|) == TwoInts(s)
  {
    hide DecodeInt;
    IntInside(s, rest, 8);
    var a := DecodeInt(s + rest, 8);
    if a.Some? && a.value.len <= |s| {
      assert (s + rest)[a.value.len..] == s[a.value.len..] + rest;
      IntInside(s[a.value.len..], rest, 8);
    }
  }
}
