/** DNS queries (RFC 1035, section 4.1): how evdns.c builds them, and how its server side reads them. */
module DnsQueries {
  import opened Bytes
  import opened DnsNames

  const UINT16 := 0x1_0000

  datatype Question = Question(name: seq<Byte>, qtype: nat, qclass: nat)

  datatype Request = Request(transId: nat, flags: nat, questions: seq<Question>)

  /** evdns_request_len. */
  function RequestLen(nameLen: nat): (n: nat)
    ensures n >= 12 + nameLen + 2 + 4
  {
    96 + nameLen + 2 + 4
  }

  function Big16(x: nat): seq<Byte>
    requires x < UINT16
  {
    [x / 256, x % 256]
  }

  /** ntohs. */
  function Pair16(hi: Byte, lo: Byte): (x: nat)
    ensures x < UINT16 && x / 256 == hi && x % 256 == lo
  {
    hi as int * 256 + lo
  }

  /** GET16 at `j`. */
  function Word(m: seq<Byte>, j: nat): (x: nat)
    requires j + 2 <= |m|
    ensures x < UINT16
  {
    Pair16(m[j], m[j + 1])
  }

  /** The header of a standard query. */
  function QueryHeader(transId: nat): (h: seq<Byte>)
    requires transId < UINT16
    ensures |h| == 12
  {
    Big16(transId) + Big16(0x0100) + Big16(1) + Big16(0) + Big16(0) + Big16(0)
  }

  /** APPEND16. */
  method TryAppend16(buf: array<Byte>, bufLen: nat, j: nat, x: nat) returns (ok: bool)
    requires bufLen <= buf.Length && x < UINT16
    modifies buf
    ensures ok <==> j + 2 <= bufLen
    ensures ok ==> buf[..j + 2] == old(buf[..j]) + Big16(x)
  {
    if j + 2 > bufLen {
      return false;
    }
    Append16(buf, j, x);
    return true;
  }

  /** evdns_request_data_build. A buffer of evdns_request_len bytes is enough for every name that can be encoded. */
  method DataBuild(name: seq<Byte>, transId: nat, qtype: nat, qclass: nat, buf: array<Byte>, bufLen: nat)
    returns (r: int)
    requires transId < UINT16 && qtype < UINT16 && qclass < UINT16 && 0 !in name
    requires bufLen < buf.Length || RequestLen(|name|) <= bufLen == buf.Length
    modifies buf
    ensures RequestLen(|name|) <= bufLen ==> (r >= 0 <==> |name| <= 255 && ShortLabels(name))
    ensures r >= 0 ==> r <= bufLen && Query(buf[..r], name, transId, qtype, qclass)
    ensures r >= 0 ==> r >= 16 && QueryBytes(buf[..r], transId, qtype, qclass)
  {
    hide ShortLabels, Written, Sound;
    var fields := [transId, 0x0100, 1, 0, 0, 0];
    var k: nat := 0;
    while k < 6
      invariant k <= 6 && 2 * k <= buf.Length
      invariant buf[..2 * k] == QueryHeader(transId)[..2 * k]
    {
      var ok := TryAppend16(buf, bufLen, 2 * k, fields[k]);
      if !ok {
        return -1;
      }
      HeaderStep(transId, k);
      k := k + 1;
    }
    ghost var m := buf[..12];
    r := DnsnameToLabels(buf, bufLen, 12, name, null);
    if r < 0 {
      return;
    }
    ghost var j: nat, body := r, buf[..r];
    var ok := TryAppend16(buf, bufLen, r, qtype);
    if !ok {
      return -1;
    }
    ok := TryAppend16(buf, bufLen, r + 2, qclass);
    if !ok {
      return -1;
    }
    r := r + 4;
    assert buf[..r] == body + Big16(qtype) + Big16(qclass);
    assert m == QueryHeader(transId) && body[..12] == m;
    QueryMade(buf[..r], body, name, transId, qtype, qclass);
    BytesOfQuery(buf[..r], transId, qtype, qclass);
  }

  /** The id, recursion desired and no other flag, one question and no records; the type and the class at the end. */
  ghost predicate QueryBytes(m: seq<Byte>, transId: nat, qtype: nat, qclass: nat)
    requires |m| >= 16
  {
    && m[0] as int * 256 + m[1] as int == transId && m[2] == 1 && m[3] == 0
    && m[4] == 0 && m[5] == 1 && (forall k :: 6 <= k < 12 ==> m[k] == 0)
    && m[|m| - 4] as int * 256 + m[|m| - 3] as int == qtype
    && m[|m| - 2] as int * 256 + m[|m| - 1] as int == qclass
  }

  lemma BytesOfQuery(m: seq<Byte>, transId: nat, qtype: nat, qclass: nat)
    requires transId < UINT16 && qtype < UINT16 && qclass < UINT16 && |m| >= 16
    requires m[..12] == QueryHeader(transId) && m[|m| - 4..] == Big16(qtype) + Big16(qclass)
    ensures QueryBytes(m, transId, qtype, qclass)
  {
    var h, t := m[..12], m[|m| - 4..];
    assert forall k :: 0 <= k < 12 ==> m[k] == h[k];
    assert forall k :: 0 <= k < 4 ==> m[|m| - 4 + k] == t[k];
  }

  lemma HeaderStep(transId: nat, k: nat)
    requires transId < UINT16 && k < 6
    ensures QueryHeader(transId)[..2 * k + 2] == QueryHeader(transId)[..2 * k] + Big16([transId, 0x0100, 1, 0, 0, 0][k])
  {
  }

  /** A header, a name that ends where the type and the class stand, and nothing behind them. */
  ghost predicate Query(m: seq<Byte>, name: seq<Byte>, transId: nat, qtype: nat, qclass: nat)
    requires transId < UINT16 && qtype < UINT16 && qclass < UINT16
  {
    && |m| >= 16 && m[..12] == QueryHeader(transId) && |name| <= 255
    && Spells(m, 12, |m| - 4, name) && (InnerFull(name) ==> NameEnd(m, 12, |m| - 4, name) == |m| - 4)
    && m[|m| - 4..] == Big16(qtype) + Big16(qclass)
  }

  lemma QueryMade(m: seq<Byte>, body: seq<Byte>, name: seq<Byte>, transId: nat, qtype: nat, qclass: nat)
    requires transId < UINT16 && qtype < UINT16 && qclass < UINT16 && |name| <= 255
    requires |body| >= 12 && body[..12] == QueryHeader(transId) && Written(body, 12, |body|, name)
    requires m == body + Big16(qtype) + Big16(qclass)
    ensures Query(m, name, transId, qtype, qclass)
  {
    hide Spells, NameEnd, InnerFull;
    assert m[..|body|] == body && body[..|body|] == body && m[..12] == body[..12];
    SpellsStill(body, 12, |body|, name, m, |body|);
  }

  /** One question at `j`, and what is behind it. */
  function QuestionAt(m: seq<Byte>, j: nat): (r: Option<(Question, nat)>)
    ensures r.Some? ==> r.value.1 <= |m|
  {
    match Walk(m, j, [], 0, None, 256)
    case None => None
    case Some((name, end)) =>
      if end + 4 > |m| then None
      else Some((Question(UpToNul(name), Word(m, end), Word(m, end + 2)), end + 4))
  }

  /** The next `n` questions. */
  function Questions(m: seq<Byte>, j: nat, n: nat): Option<seq<Question>>
    decreases n
  {
    if n == 0 then Some([]) else
      match QuestionAt(m, j)
      case None => None
      case Some((q, end)) =>
        match Questions(m, end, n - 1)
        case None => None
        case Some(qs) => Some([q] + qs)
  }

  /** Only the RD and CD bits are kept. */
  function KeptFlags(flags: nat): nat {
    (flags / 0x100) % 2 * 0x100 + (flags / 0x10) % 2 * 0x10
  }

  /** request_parse: the request that is passed to the callback. No questions cannot be allocated. */
  function ParseRequest(m: seq<Byte>): Option<Request> {
    if |m| < 12 || Word(m, 2) >= 0x8000 || Word(m, 4) == 0 then None
    else
      match Questions(m, 12, Word(m, 4))
      case None => None
      case Some(qs) => Some(Request(Word(m, 0), KeptFlags(Word(m, 2)), qs))
  }

  /**
   * What the header of a request must be, and what is made of it: 12 bytes, the response bit not set, some questions;
   * of the flags only the lowest bit of the first byte (RD) and bit 4 of the second (CD) are passed on.
   */
  lemma ParsedHeader(m: seq<Byte>)
    ensures |m| < 12 || m[2] >= 128 || (m[4] == 0 && m[5] == 0) ==> ParseRequest(m) == None
    ensures ParseRequest(m).Some? ==> var r := ParseRequest(m).value;
      && r.transId == m[0] as int * 256 + m[1] as int
      && r.flags == m[2] as int % 2 * 0x100 + m[3] as int / 16 % 2 * 0x10
      && |r.questions| == m[4] as int * 256 + m[5] as int
  {
    hide QuestionAt;
    if |m| >= 12 {
      QuestionCount(m, 12, Word(m, 4));
      assert (m[2] as int * 256 + m[3] as int) / 0x10 == m[2] as int * 16 + m[3] as int / 16;
    }
  }

  lemma {:induction false} QuestionCount(m: seq<Byte>, j: nat, n: nat)
    ensures Questions(m, j, n).Some? ==> |Questions(m, j, n).value| == n
    decreases n
  {
    hide QuestionAt;
    if n > 0 && QuestionAt(m, j).Some? { QuestionCount(m, QuestionAt(m, j).value.1, n - 1); }
  }

  /** The body of the loop of request_parse: a question and what is behind it. */
  method ParseQuestion(packet: array<Byte>, length: nat, j: nat, tmpName: array<Byte>)
    returns (r: Option<(Question, nat)>)
    requires length <= packet.Length && tmpName.Length == 256 && tmpName != packet
    modifies tmpName
    ensures r == QuestionAt(packet[..length], j) && packet[..] == old(packet[..])
  {
    hide Walk;
    var res, end; ghost var n;
    res, end, n := NameParse(packet, length, j, tmpName, 256);
    if res < 0 {
      return None;
    }
    if end + 4 > length {
      return None;
    }
    var name := StrLen(tmpName, n);
    var question := Question(name, Pair16(packet[end], packet[end + 1]), Pair16(packet[end + 2], packet[end + 3]));
    return Some((question, end + 4));
  }

  /** request_parse. */
  method RequestParse(packet: array<Byte>, length: nat) returns (r: Option<Request>)
    requires length <= packet.Length
    ensures r == ParseRequest(packet[..length])
    ensures r.Some? ==> 12 <= length && packet[2] < 128
    ensures r.Some? ==>
      && r.value.transId == packet[0] as int * 256 + packet[1] as int
      && r.value.flags == packet[2] as int % 2 * 0x100 + packet[3] as int / 16 % 2 * 0x10
      && |r.value.questions| == packet[4] as int * 256 + packet[5] as int > 0
  {
    hide QuestionAt;
    ParsedHeader(packet[..length]);
    if 12 > length {
      return None;
    }
    ghost var m := packet[..length];
    var transId, flags := Pair16(packet[0], packet[1]), Pair16(packet[2], packet[3]);
    var questions := Pair16(packet[4], packet[5]);
    if flags >= 0x8000 || questions == 0 {
      return None;
    }
    var tmpName := new Byte[256];
    var j: nat, i: nat, qs: seq<Question> := 12, 0, [];
    PrefixedNone(Questions(m, 12, questions));
    while i < questions
      invariant i <= questions && packet[..length] == m
      invariant Questions(m, 12, questions) == Prefixed(qs, Questions(m, j, questions - i))
    {
      var one := ParseQuestion(packet, length, j, tmpName);
      if one.None? {
        return None;
      }
      var (q, end) := one.value;
      PrefixedMore(qs, q, m, end, questions - i - 1);
      qs, j, i := qs + [q], end, i + 1;
    }
    assert qs + [] == qs;
    return Some(Request(transId, KeptFlags(flags), qs));
  }

  ghost function Prefixed(qs: seq<Question>, r: Option<seq<Question>>): Option<seq<Question>> {
    match r
    case None => None
    case Some(more) => Some(qs + more)
  }

  lemma PrefixedNone(r: Option<seq<Question>>)
    ensures Prefixed([], r) == r
  {
    if r.Some? { assert [] + r.value == r.value; }
  }

  lemma PrefixedMore(qs: seq<Question>, q: Question, m: seq<Byte>, j: nat, n: nat)
    ensures Prefixed(qs, Prefixed([q], Questions(m, j, n))) == Prefixed(qs + [q], Questions(m, j, n))
  {
    if Questions(m, j, n).Some? {
      var more := Questions(m, j, n).value;
      assert qs + ([q] + more) == (qs + [q]) + more;
    }
  }

  /** strlen: the bytes in front of the first NUL, of which there is one at `n`. */
  method StrLen(s: array<Byte>, ghost n: nat) returns (r: seq<Byte>)
    requires n < s.Length && s[n] == 0
    ensures r == UpToNul(s[..n])
  {
    var k: nat := 0;
    while s[k] != 0
      invariant k <= n && 0 !in s[..k]
      decreases n - k
    {
      k := k + 1;
    }
    r := s[..k];
    UpToNulAt(s[..n], k);
    assert s[..n][..k] == s[..k];
  }

  lemma {:induction false} UpToNulAt(s: seq<Byte>, k: nat)
    requires k <= |s| && 0 !in s[..k] && (k < |s| ==> s[k] == 0)
    ensures UpToNul(s) == s[..k]
  {
    if k > 0 {
      assert s[0] == s[..k][0];
      assert s[1..][..k - 1] == s[..k][1..];
      UpToNulAt(s[1..], k - 1);
    }
  }

  /** A query is recovered by the server that receives it. */
  lemma QueryRoundTrip(m: seq<Byte>, name: seq<Byte>, transId: nat, qtype: nat, qclass: nat)
    requires transId < UINT16 && qtype < UINT16 && qclass < UINT16 && 0 !in name
    requires Query(m, name, transId, qtype, qclass) && (name == [] || FullLabels(name))
    ensures ParseRequest(m) == Some(Request(transId, 0x0100, [Question(name, qtype, qclass)]))
  {
    hide Walk, Spells, NameEnd, Trunc, FullLabels, InnerFull, Questions, Word, Pair16, QueryHeader, UpToNul;
    JoinedNothing(Trunc(name));
    FullIsInner(name);
    TruncIffFull(name);
    WalkSpells(m, 12, |m| - 4, name, [], 0, None, 256);
    NulFree(name);
    HeaderWords(m, transId);
    TailWords(m, qtype, qclass);
    var q := Question(name, qtype, qclass);
    var end: nat := |m|;
    assert QuestionAt(m, 12) == Some((q, end));
    OneQuestion(m, q, end);
    assert KeptFlags(0x0100) == 0x0100;
  }

  lemma OneQuestion(m: seq<Byte>, q: Question, end: nat)
    requires QuestionAt(m, 12) == Some((q, end))
    ensures Questions(m, 12, 1) == Some([q])
  {
    hide QuestionAt;
    assert Questions(m, end, 0) == Some([]);
    assert [q] + [] == [q];
  }

  lemma HeaderWords(m: seq<Byte>, transId: nat)
    requires |m| >= 12 && transId < UINT16 && m[..12] == QueryHeader(transId)
    ensures Word(m, 0) == transId && Word(m, 2) == 0x0100 && Word(m, 4) == 1
  {
    assert forall i :: 0 <= i < 12 ==> m[i] == QueryHeader(transId)[i];
  }

  lemma TailWords(m: seq<Byte>, x: nat, y: nat)
    requires |m| >= 4 && x < UINT16 && y < UINT16 && m[|m| - 4..] == Big16(x) + Big16(y)
    ensures Word(m, |m| - 4) == x && Word(m, |m| - 2) == y
  {
    var t := m[|m| - 4..];
    assert t[0] == m[|m| - 4] && t[1] == m[|m| - 3] && t[2] == m[|m| - 2] && t[3] == m[|m| - 1];
  }

  /** The header of a request with `n` questions and the flags that its sender set. */
  function RequestHeader(transId: nat, flags: nat, n: nat): (h: seq<Byte>)
    requires transId < UINT16 && flags < UINT16 && n < UINT16
    ensures |h| == 12
  {
    Big16(transId) + Big16(flags) + Big16(n) + [0, 0, 0, 0, 0, 0]
  }

  ghost predicate Askable(q: Question) {
    q.qtype < UINT16 && q.qclass < UINT16 && 0 !in q.name && (q.name == [] || FullLabels(q.name))
  }

  /** The questions one behind the other, each name with its type and class. */
  ghost function QuestionItems(qs: seq<Question>): (items: seq<Item>)
    requires forall i :: 0 <= i < |qs| ==> Askable(qs[i])
    ensures |items| == 2 * |qs|
  {
    if qs == [] then [] else
      assert Askable(qs[0]);
      [Name(qs[0].name), Raw(Big16(qs[0].qtype) + Big16(qs[0].qclass))] + QuestionItems(qs[1..])
  }

  lemma RawWords(m: seq<Byte>, j: nat, end: nat, x: nat, y: nat)
    requires j <= end <= |m| && x < UINT16 && y < UINT16 && m[j..end] == Big16(x) + Big16(y)
    ensures end == j + 4 && Word(m, j) == x && Word(m, j + 2) == y
  {
    var t := m[j..end];
    assert |t| == 4;
    assert t[0] == m[j] && t[1] == m[j + 1] && t[2] == m[j + 2] && t[3] == m[j + 3];
  }

  lemma {:induction false} QuestionsRead(m: seq<Byte>, items: seq<Item>, at: seq<nat>, i: nat, qs: seq<Question>)
    requires Laid(m, items, at) && i <= |items| && forall k :: 0 <= k < |qs| ==> Askable(qs[k])
    requires items[i..] == QuestionItems(qs)
    ensures Questions(m, at[i], |qs|) == Some(qs)
    decreases |qs|
  {
    hide Walk, ItemAt, FullLabels, Word, Big16, UpToNul;
    if qs == [] {
    } else {
      var q, rest := qs[0], qs[1..];
      assert items[i] == items[i..][0] == Name(q.name);
      assert items[i + 1] == items[i..][1] == Raw(Big16(q.qtype) + Big16(q.qclass));
      assert items[i + 2..] == items[i..][2..] == QuestionItems(rest);
      QuestionRead(m, items, at, i, q);
      QuestionsRead(m, items, at, i + 2, rest);
      assert [q] + rest == qs;
    }
  }

  lemma QuestionRead(m: seq<Byte>, items: seq<Item>, at: seq<nat>, i: nat, q: Question)
    requires Laid(m, items, at) && i + 1 < |items| && Askable(q)
    requires items[i] == Name(q.name) && items[i + 1] == Raw(Big16(q.qtype) + Big16(q.qclass))
    ensures QuestionAt(m, at[i]) == Some((q, at[i + 2]))
  {
    hide Walk, FullLabels, Word, Big16, UpToNul, Spells, NameEnd, InnerFull, Trunc;
    NamesRoundTrip(m, items, at, i);
    assert ItemAt(m, items[i + 1], at[i + 1], at[i + 2]);
    RawWords(m, at[i + 1], at[i + 2], q.qtype, q.qclass);
    NulFree(q.name);
  }

  /**
   * Any number of questions, their names compressed against each other, in a message laid out as WriteItems does it:
   * they are read back, with the id and the two flags that are passed on. With the response bit set they are refused.
   */
  lemma QuestionsRoundTrip(m: seq<Byte>, transId: nat, flags: nat, qs: seq<Question>, at: seq<nat>)
    requires transId < UINT16 && flags < UINT16 && 0 < |qs| < UINT16 && forall k :: 0 <= k < |qs| ==> Askable(qs[k])
    requires Laid(m, [Raw(RequestHeader(transId, flags, |qs|))] + QuestionItems(qs), at) && at[0] == 0
    ensures ParseRequest(m) ==
      if flags >= 0x8000 then None
      else Some(Request(transId, flags / 0x100 % 2 * 0x100 + flags / 0x10 % 2 * 0x10, qs))
  {
    hide ItemAt, Questions, Askable, RequestHeader, QuestionItems, Word, Pair16, Big16;
    var h := RequestHeader(transId, flags, |qs|);
    var items := [Raw(h)] + QuestionItems(qs);
    assert ItemAt(m, items[0], at[0], at[1]);
    HeaderEnd(m, h, at[1]);
    RequestWords(m, transId, flags, |qs|);
    assert items[1..] == QuestionItems(qs);
    QuestionsRead(m, items, at, 1, qs);
  }

  lemma RequestWords(m: seq<Byte>, transId: nat, flags: nat, n: nat)
    requires transId < UINT16 && flags < UINT16 && n < UINT16
    requires |m| >= 12 && m[..12] == RequestHeader(transId, flags, n)
    ensures Word(m, 0) == transId && Word(m, 2) == flags && Word(m, 4) == n
  {
    assert forall k :: 0 <= k < 12 ==> m[k] == m[..12][k];
  }

  lemma HeaderEnd(m: seq<Byte>, h: seq<Byte>, end: nat)
    requires ItemAt(m, Raw(h), 0, end) && |h| == 12
    ensures end == 12 <= |m| && m[..12] == h
  {
  }
}
