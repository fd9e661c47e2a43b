# libevent 2.1.8: models and proofs

This project models the parts of the vendored libevent where a fast, stateful structure has to agree with something
simple, and proves that it does. All source paths below are relative to the repository.

* **evbuffer** (`Bytes`, `Chains`, `Evbuffer`, `EvbufferRun`, `EvbufferSearch`, `EvbufferLines`, `EvbufferRead`,
  `EvbufferCommit`, `EvbufferExpand`, `EvbufferGaps`). A byte queue as a linked list of chains with `misalign`, `off`,
  `last_with_datap` and a cached length. `Valid` is the structure that `evbuffer-internal.h` documents, in its strong form: every chain before the last one with data holds
  data, every chain after it is empty. Each operation is proved against the byte sequence that the list denotes, and
  `EvbufferRun.Perform` says so for whole runs on two buffers.
* **fd interest** (`FdInterest`). Reference counts per descriptor, the coalescing changelist, the table that
  `make_epoll_table.py` generates, and the retries of `epoll_apply_one_change`, over a kernel that answers EEXIST and
  ENOENT and in which descriptors can be closed and replaced at any time.
* **Wire formats** (`DnsNames`, `DnsPaths`, `DnsQueries`; `TagCodec`, `TagFormat`, `Tagging`, `Rpcgen`, `RpcgenCode`). DNS
  names with a compression table (sections 3.1 and 4.1.4 of RFC 1035), the tagged format, and the marshalling code that
  `event_rpcgen.py` generates for arbitrary schemas. The loops that write and read bytes are methods, proved equal to
  functions on byte sequences; the layout of the bytes, what is refused, and the round trips are lemmas about these
  functions.
* **Event base** (`EventQueues`). Active, later, inserted and timeout membership, the counters, common timeout lists
  behind one internal event each, and finalization. `Valid` includes that no common timeout is forgotten.
* **evdns requests** (`EvdnsRequests`, `EvdnsRounds`). Circular lists, hash buckets by transaction id, in-flight counters,
  and the choice of name servers, which shares requests out evenly over any run.
* **Rate limits** (`RateLimit`, `Bufferevents`). Token buckets in 64-bit arithmetic, the suspension of bufferevents, and
  groups whose members cannot always be locked. An empty bucket suspends its direction and schedules the timer;
  `Bufferevent.NoStall` says exactly when the timer ends the suspension, over runs that change the configuration.
* **arc4random** (`Arc4`). The RC4 state and the reduction to a range.

Classes keep the fields that the source updates in place; each has a `Valid` predicate that the constructor establishes
and every operation keeps, so it holds in every reachable state; the exceptions are named below. Ghost fields give the
abstract value.

Dafny 4.11 checks the whole project with `dafny verify dfyconfig.toml`.

## Where code and documentation differ

The model follows the code.

* `event_tagging.c` (line 91) describes its integer encoding as big-endian; the code stores the least significant nibble
  first. The decoder does not look at the padding.
* `evtag_peek_length` announces what `evtag_consume` drains only as long as the payload length passes through an `int`
  unchanged: `TagCodec.PeekedIsConsumed` has the exact condition.
* `evbuffer-internal.h` documents `last_with_datap` as leading to the last chain with data. `evbuffer_prepend_buffer` and
  `evbuffer_commit_space` can leave an empty chain in front of one with data, and the latter then need not even find the
  last one. `Evbuffer.PrependBuffer` and `EvbufferCommit.CommitSpace` have the exact conditions, and `EvbufferGaps` shows
  that both cases are reached.
* `bufferevent_ratelim.c` (lines 54-57) says that after a change of the configuration the next update adds the appropriate
  amount. The tick of the last update stays in the old unit, so after a change to longer ticks the bucket can stand at a
  tick far ahead and is not refilled until then: `Bufferevent.NoStall` has the exact condition, `Bufferevent.Stalled` an
  input.
* `evtag_unmarshal_string` adds one to an `int`, so the longest string that comes back has 2^31 - 2 bytes:
  `TagCodec.MarshalledString`.
* `evbuffer_remove` and `evbuffer_remove_buffer` return the number of bytes as an `int`, so that 2^32 - 1 bytes read as
  failure.
* A persistent event that was added with a timeout of zero is not added again when it has run: `PersistClosure`.
* `search_try_next` picks an id before the request it replaces is finished, so two requests in flight can share one:
  `EvdnsRequests.Base.SearchNext` has the exact condition on the state before the call.
* `dnsname_to_labels` stores the final zero byte without looking at the buffer length, so the model gives the buffer one
  byte more than the length it announces, or asks for enough room; `DnsNames.DnsnameToLabels` says exactly when that byte
  is used. A length byte of 64 to 191 is taken for a pointer.
* `bufferevent_set_max_single_read` is documented as the limit for single reads. With a rate-limit configuration it plays
  no part.
* A name with an empty label in the middle is encoded, but read back only up to that label: `DnsNames.TruncIffFull`.
* `request_parse` fails for a request without questions, since `mm_calloc` returns no memory for an empty array.

## Model

| member | source | states |
|---|---|---|
| `Chains.RoundUp` | core/src/main/jni/libevent/buffer.c:156-192 | The size loop ends with the least power-of-two multiple of the smallest block that is big enough |
| `Chains.ChainNew` | core/src/main/jni/libevent/buffer.c:156-192 | A new empty chain has at least the room asked for; null exactly when the request is too large |
| `Chains.Chain.Align` | core/src/main/jni/libevent/buffer.c:1903-1909 | Moving the bytes to the front keeps them |
| `EvbufferModel.Evbuffer.constructor` | core/src/main/jni/libevent/buffer.c:361-374 | A new buffer satisfies the structural invariant and holds nothing |
| `EvbufferModel.Evbuffer.FreeTrailingEmptyChains` | core/src/main/jni/libevent/buffer.c:290-302 | The empty chains at the end are gone, the contents are not, and the result points where the next chain belongs |
| `EvbufferModel.Evbuffer.ChainInsert` | core/src/main/jni/libevent/buffer.c:308-326 | A chain with data goes to the end; the contents grow by its bytes and the structural invariant holds |
| `EvbufferModel.Evbuffer.AdvanceLastWithData` | core/src/main/jni/libevent/buffer.c:703-716 | `last_with_datap` comes to point at the last chain with data when the chains between all hold data |
| `EvbufferModel.Evbuffer.Add` | core/src/main/jni/libevent/buffer.c:1723-1817 | Succeeds exactly when the end is not frozen and the sizes allow it; then the bytes stand at the end, and else nothing changed |
| `EvbufferModel.Evbuffer.Prepend` | core/src/main/jni/libevent/buffer.c:1820-1899 | The bytes stand in front; exact success condition, which depends on the room in front of the first chain, and the exact tail that is left in front when the rest cannot be allocated |
| `EvbufferModel.Evbuffer.Drain` | core/src/main/jni/libevent/buffer.c:1096-1161 | Exactly the first min(len, length) bytes are gone and the structural invariant holds |
| `EvbufferModel.Evbuffer.CopyoutFrom` | core/src/main/jni/libevent/buffer.c:1185-1249 | Returns exactly the bytes from the position on, as many as asked for or as there are; exact error condition |
| `EvbufferModel.Evbuffer.Remove` | core/src/main/jni/libevent/buffer.c:1165-1176 | Hands out the first min(n, length) bytes and removes exactly these; the result is their number converted to `int`, or -1 and nothing changed |
| `EvbufferModel.Evbuffer.Pullup` | core/src/main/jni/libevent/buffer.c:1345-1454 | The contents stay; the result is null exactly for a size of zero or more than there is, and else the first chain holds the whole prefix |
| `EvbufferModel.Evbuffer.AddBuffer` | core/src/main/jni/libevent/buffer.c:961-1004 | All bytes of one buffer move to the end of the other, or nothing changes; both stay valid and share nothing |
| `EvbufferModel.Evbuffer.PrependBuffer` | core/src/main/jni/libevent/buffer.c:1050-1093 | All bytes move to the front; the invariant holds afterwards exactly when the source had no trailing empty chain or one of the buffers was empty |
| `EvbufferModel.Evbuffer.MoveChains` | core/src/main/jni/libevent/buffer.c:1290-1318 | Whole chains change owner: no byte is lost or copied, both buffers stay valid |
| `EvbufferModel.Evbuffer.RemoveBuffer` | core/src/main/jni/libevent/buffer.c:1255-1342 | Moves exactly the first min(n, length) bytes to the end of the other buffer and loses none; the result is their number converted to `int`; exact error condition |
| `EvbufferRun.Perform` | core/src/main/jni/libevent/buffer.c:960-1454 | Every run of add, prepend, drain, remove, copyout, pullup, remove_buffer and add_buffer on two buffers gives the contents and the outputs of the same run on two byte sequences, and keeps both invariants |
| `EvbufferRun.MovesConserve` | core/src/main/jni/libevent/buffer.c:1255-1342 | Whatever pieces bytes are moved in, the two contents one behind the other stay the same string |
| `EvbufferSearch.PtrSet` | core/src/main/jni/libevent/buffer.c:2610-2659 | Denotes addition on positions; fails exactly beyond the end, on overflow and on an invalid position |
| `EvbufferSearch.PtrSubtract` | core/src/main/jni/libevent/buffer.c:2590-2607 | Denotes subtraction on positions; fails exactly below zero |
| `EvbufferSearch.PtrMemcmp` | core/src/main/jni/libevent/buffer.c:2666-2699 | Comparing across chains finds equality exactly when the pattern stands at that position of the contents |
| `EvbufferSearch.SearchRange` | core/src/main/jni/libevent/buffer.c:2708-2769 | The least match at or after the start that ends by the end, or not found when there is none, however the bytes are divided into chains |
| `EvbufferLines.FindEolChar` | core/src/main/jni/libevent/buffer.c:1489-1513 | Looking 128 bytes at a time finds the first CR or LF of all |
| `EvbufferLines.Scan` | core/src/main/jni/libevent/buffer.c:1466-1535 | The first wanted byte from a position on, across chains |
| `EvbufferLines.Strspn` | core/src/main/jni/libevent/buffer.c:1538-1574 | How many CR and LF follow each other, across chains |
| `EvbufferLines.SearchEol` | core/src/main/jni/libevent/buffer.c:1590-1677 | The first terminator of the style and its length, or not found when there is none, for all five styles |
| `EvbufferLines.Readln` | core/src/main/jni/libevent/buffer.c:1680-1716 | Takes the line in front of the first terminator and removes exactly line and terminator |
| `EvbufferLines.LinesLossless` | core/src/main/jni/libevent/buffer.c:1680-1716 | Lines, terminators and rest joined are the contents; no line and no rest holds a terminator; terminators are not empty |
| `EvbufferLines.LineTerminated` | core/src/main/jni/libevent/buffer.c:1590-1677 | The first terminator has the form of its style, and no line end of the style is in front of it; EVBUFFER_EOL_ANY takes all line ends in a row |
| `EvbufferLines.LinesTerminated` | core/src/main/jni/libevent/buffer.c:1680-1716 | Every line that is taken off ends as its style says and holds no terminator; with EVBUFFER_EOL_ANY only the first line can be empty |
| `EvbufferRead.ExpandFast` | core/src/main/jni/libevent/buffer.c:2040-2147 | The contents stay, and at most n chains offer room for the bytes asked for; with n above the number of chains all of them stay and one at most is added |
| `EvbufferRead.SetupVecs` | core/src/main/jni/libevent/buffer.c:2214-2247 | The vectors are free space of successive chains, at most as many as allowed, and total exactly the size asked for when they are to be exact |
| `EvbufferRead.CommitRead` | core/src/main/jni/libevent/buffer.c:2366-2385 | Committing any received bytes appends exactly these and keeps the structural invariant |
| `EvbufferRead.Read` | core/src/main/jni/libevent/buffer.c:2271-2399 | From expansion to commit: what the socket delivered, up to the limit, stands at the end of the contents |
| `EvbufferCommit.CommitSpace` | core/src/main/jni/libevent/buffer.c:719-786 | Succeeds exactly for vectors that begin where free space begins, chain by chain or in the last chain; appends what was written there; the structural invariant is kept exactly when no chain stays empty in front of one that gains bytes |
| `EvbufferCommit.CommittedPlaced` | core/src/main/jni/libevent/buffer.c:767-777 | Where `last_with_datap` is left is right exactly under that condition |
| `EvbufferExpand.ExpandSingleChain` | core/src/main/jni/libevent/buffer.c:1928-2035 | The contents stay, and one chain right behind them has room for the whole block, whichever of the five ways is taken; more than 4096 bytes are neither moved nor copied |
| `EvbufferGaps.CommitLeavesGap` | core/src/main/jni/libevent/buffer.c:719-786 | Space reserved for two vectors of which the first is left empty: a reachable buffer in which an empty chain stands in front of data |
| `EvbufferGaps.PrependLeavesGap` | core/src/main/jni/libevent/buffer.c:1050-1093 | A source with a trailing empty chain, prepended to data: a reachable buffer outside the strong invariant |
| `TagCodec.TagRoundTrip` | core/src/main/jni/libevent/event_tagging.c:174-242 | A 32-bit tag followed by any bytes decodes to itself and takes exactly its own bytes |
| `TagCodec.TagBound` | core/src/main/jni/libevent/event_tagging.c:197-242 | No more than 32 bits are accepted as a tag |
| `TagCodec.IntRoundTrip` | core/src/main/jni/libevent/event_tagging.c:117-373 | A 32-bit or 64-bit number followed by any bytes decodes to itself and takes exactly its own bytes |
| `TagCodec.IntBound` | core/src/main/jni/libevent/event_tagging.c:315-356 | What is decoded fits the type |
| `TagCodec.RecordRoundTrip` | core/src/main/jni/libevent/event_tagging.c:256-263 | A record followed by any bytes is recovered and leaves these bytes |
| `TagCodec.RecordsRoundTrip` | core/src/main/jni/libevent/event_tagging.c:256-263 | A concatenation of records parses back to the same list |
| `TagCodec.HeaderRoundTrip` | core/src/main/jni/libevent/event_tagging.c:438-451 | Reading the header of a record leaves its payload and what follows |
| `TagCodec.MarshalledInt` | core/src/main/jni/libevent/event_tagging.c:276-535 | A marshalled 32-bit or 64-bit integer is unmarshalled to itself and what follows stays |
| `TagCodec.MarshalledPayload` | core/src/main/jni/libevent/event_tagging.c:537-556 | Marshalled bytes are unmarshalled to themselves and what follows stays |
| `TagCodec.MarshalledString` | core/src/main/jni/libevent/event_tagging.c:558-577 | A string is unmarshalled to itself exactly when it has less than 2^31 - 1 bytes; otherwise it fails with the header drained and the payload left, since `tag_len + 1` cannot be allocated |
| `TagCodec.MarshalledTimeval` | core/src/main/jni/libevent/event_tagging.c:579-606 | A marshalled timeval is unmarshalled to itself and what follows stays |
| `TagCodec.PeekedIsConsumed` | core/src/main/jni/libevent/event_tagging.c:401-464 | The announced length is what is consumed exactly when the payload length is below 2^31, or all is drained and the total fits 32 bits |
| `TagCodec.PeekedIsNotConsumed` | core/src/main/jni/libevent/event_tagging.c:453-464 | A payload length of 2^31 becomes a negative `int`, and more is drained than was announced |
| `TagFormat.TagLayout` | core/src/main/jni/libevent/event_tagging.c:174-194 | Seven bits a byte, the lowest first, the high bit in all but the last byte, no byte more than needed |
| `TagFormat.TagAccepted` | core/src/main/jni/libevent/event_tagging.c:197-242 | A tag is read exactly when at most five bytes with the high bit in all but the last make 32 bits, and these bits are its value |
| `TagFormat.IntLayout` | core/src/main/jni/libevent/event_tagging.c:117-138 | The number of hexadecimal digits less one, the digits, the lowest first, a zero if a half byte is left, no digit more than needed |
| `TagFormat.IntAccepted` | core/src/main/jni/libevent/event_tagging.c:315-356 | An integer is read exactly when it has no more digits than allowed and its bytes are there, and these digits are its value |
| `TagFormat.HeaderCases` | core/src/main/jni/libevent/event_tagging.c:438-451 | With any tag and length in front of any bytes: -1 exactly when bytes are missing or the length reads as -1, and the header is gone |
| `TagFormat.PayloadCases` | core/src/main/jni/libevent/event_tagging.c:539-555 | For every record: -1 exactly when the tag or the length is another one, and then the header is gone, else the record |
| `TagFormat.ShortPayload` | core/src/main/jni/libevent/event_tagging.c:438-451 | An item of which bytes are missing is refused, and its header is gone |
| `TagFormat.IntCases` | core/src/main/jni/libevent/event_tagging.c:484-535 | For every record: -1 exactly when the tag is another one, and then the tag is gone, or the payload begins with no integer, and then the record is gone |
| `TagFormat.StringCases` | core/src/main/jni/libevent/event_tagging.c:558-577 | For every record: -1 exactly when the tag is another one or the payload has 2^31 - 1 bytes, and then the header is gone |
| `TagFormat.TimevalCases` | core/src/main/jni/libevent/event_tagging.c:580-605 | For every record: -1 exactly when the tag is another one or the payload begins with no two integers; the record is gone in any case |
| `TagFormat.ConsumedCases` | core/src/main/jni/libevent/event_tagging.c:454-462 | Exactly the record in front is gone |
| `Tagging.EncodeIntInternal` | core/src/main/jni/libevent/event_tagging.c:117-138 | The nibble loop writes exactly the encoding of the number |
| `Tagging.EncodeTagInto` | core/src/main/jni/libevent/event_tagging.c:174-194 | The seven-bit loop writes exactly the encoding of the tag |
| `Tagging.Marshal` | core/src/main/jni/libevent/event_tagging.c:257-263 | The buffer grows by the record |
| `Tagging.MarshalBuffer` | core/src/main/jni/libevent/event_tagging.c:266-273 | The other buffer's bytes follow tag and length and leave the other buffer |
| `Tagging.MarshalInt` | core/src/main/jni/libevent/event_tagging.c:276-297 | The buffer grows by the record of the integer |
| `Tagging.MarshalTimeval` | core/src/main/jni/libevent/event_tagging.c:307-313 | The buffer grows by the record of the two numbers |
| `Tagging.DecodeTagInternal` | core/src/main/jni/libevent/event_tagging.c:197-242 | Decodes what the specification decodes, and drains exactly that much if asked to |
| `Tagging.DecodeIntInternal` | core/src/main/jni/libevent/event_tagging.c:315-356 | Decodes what the specification decodes at the offset and leaves the contents alone |
| `Tagging.Peek` | core/src/main/jni/libevent/event_tagging.c:396-399 | The tag in front, without removing it |
| `Tagging.PeekLength` | core/src/main/jni/libevent/event_tagging.c:402-417 | The announced length of the record in front, without removing it |
| `Tagging.PayloadLength` | core/src/main/jni/libevent/event_tagging.c:420-433 | The payload length of the record in front, without removing it |
| `Tagging.UnmarshalHeader` | core/src/main/jni/libevent/event_tagging.c:438-451 | Tag and length leave the buffer; every error case and what it leaves |
| `Tagging.Consume` | core/src/main/jni/libevent/event_tagging.c:454-462 | The record in front leaves the buffer; every error case and what it leaves |
| `Tagging.Unmarshal` | core/src/main/jni/libevent/event_tagging.c:467-480 | The payload moves to the end of the other buffer |
| `Tagging.UnmarshalInt` | core/src/main/jni/libevent/event_tagging.c:484-535 | The integer, and what is left, are as specified in every case |
| `Tagging.UnmarshalFixed` | core/src/main/jni/libevent/event_tagging.c:539-555 | The payload, and what is left, are as specified in every case |
| `Tagging.UnmarshalString` | core/src/main/jni/libevent/event_tagging.c:558-577 | The payload, and what is left, are as specified in every case, with the overflow of `tag_len + 1` |
| `Tagging.UnmarshalTimeval` | core/src/main/jni/libevent/event_tagging.c:580-605 | The two numbers, and what is left, are as specified in every case |
| `Rpcgen.StructDef.AddEntry` | core/src/main/jni/libevent/event_rpcgen.py:59-67 | An entry joins the struct exactly when its tag is new, and the tags stay distinct |
| `Rpcgen.ValueRoundTrip` | core/src/main/jni/libevent/event_rpcgen.py:565-1027 | One value of any kind, also a struct, comes back from its item, leaves what follows, and its item has its tag |
| `Rpcgen.RoundTrip` | core/src/main/jni/libevent/event_rpcgen.py:227-346 | For every schema with distinct tags, with nested structs, arrays and optional entries, unmarshalling a marshalled complete message gives the message |
| `Rpcgen.RoundTripIffComplete` | core/src/main/jni/libevent/event_rpcgen.py:227-310 | Any message, complete or not, comes back with its required fields filled in as CodeInitialize left them, also inside structs and arrays; so it comes back as it was sent exactly when it is complete |
| `Rpcgen.FilledSame` | core/src/main/jni/libevent/event_rpcgen.py:565-1027 | Filling the required fields that are not set changes no byte that is sent |
| `Rpcgen.UnmarshalAccepted` | core/src/main/jni/libevent/event_rpcgen.py:247-310 | Whatever the bytes are, an accepted message has every required field, also inside structs and arrays, at most one value in a field that is no array, and values of the right types |
| `Rpcgen.AcceptedComesBack` | core/src/main/jni/libevent/event_rpcgen.py:227-310 | What was accepted can be sent again and comes back the same |
| `Rpcgen.ItemRefused` | core/src/main/jni/libevent/event_rpcgen.py:254-276 | An item with an unknown tag, or for a field that is set already and no array, makes the whole message fail |
| `Rpcgen.StringComesBack` | core/src/main/jni/libevent/event_tagging.c:558-577 | A string field of any length comes back exactly when it is shorter than 2^31 - 1 bytes |
| `RpcgenCode.MarshalTo` | core/src/main/jni/libevent/event_rpcgen.py:227-245 | The generated marshal function appends exactly the specified bytes |
| `RpcgenCode.MarshalStructTo` | core/src/main/jni/libevent/event_rpcgen.py:336-346 | The generated function for a struct inside a struct appends exactly the specified bytes |
| `RpcgenCode.UnmarshalFrom` | core/src/main/jni/libevent/event_rpcgen.py:247-290 | The generated unmarshal function returns the specified message, or fails, for every contents of the buffer; a message that is returned has all required fields, at most one value where there is no array, and only values of the right types |
| `RpcgenCode.UnmarshalStruct` | core/src/main/jni/libevent/event_rpcgen.py:312-334 | The generated function for a struct inside a struct does so too |
| `RpcgenCode.UnmarshalVarBytes` | core/src/main/jni/libevent/event_rpcgen.py:1003-1022 | Bytes of any length, with the check against what the buffer holds |
| `DnsNames.NameParse` | core/src/main/jni/libevent/evdns.c:960-1013 | Returns for every packet, pointer cycles included, with exactly the specified name and end index or an error; a name and its NUL fit the output |
| `DnsNames.WalkSpells` | core/src/main/jni/libevent/evdns.c:960-1013 | A name that is spelled at a position, with labels and backward pointers, is what is read there, and reading ends where it ends |
| `DnsNames.TruncIffFull` | core/src/main/jni/libevent/evdns.c:960-1013 | A name is read back in full exactly when it has no empty label, or nothing else |
| `DnsPaths.NameReadIff` | core/src/main/jni/libevent/evdns.c:960-1013 | For any bytes: a name is read exactly when a way with no more pointers than bytes leads to an empty label and its labels fit; the name is these labels, and the end is behind the first pointer or the empty label |
| `DnsNames.LabelTable.GetPos` | core/src/main/jni/libevent/evdns.c:1560-1568 | A position stored for the name, or -1 when there is none |
| `DnsNames.LabelTable.Add` | core/src/main/jni/libevent/evdns.c:1572-1586 | The pair is stored unless 128 are there already |
| `DnsNames.DnsnameToLabels` | core/src/main/jni/libevent/evdns.c:1600-1663 | On success the name is spelled, pointers go backward only, and the table still tells the truth; exact success condition and exact end for any table; the final zero lands one byte behind the buffer exactly when nothing of the name is in the table, its last label is not empty and the labels fill the buffer |
| `DnsNames.ZeroBehind` | core/src/main/jni/libevent/evdns.c:1600-1663 | The name "aa" and a buffer length of three: the zero is stored at index three |
| `DnsNames.WriteItems` | core/src/main/jni/libevent/evdns.c:1896-1970 | Names and other bytes written one behind the other with one table are all laid out |
| `DnsNames.NamesRoundTrip` | core/src/main/jni/libevent/evdns.c:1595-1663 | Every name without empty labels in a message is read back with its end index, whatever it shares with other names |
| `DnsQueries.RequestLen` | core/src/main/jni/libevent/evdns.c:1669-1673 | The estimate covers header, name, type and class |
| `DnsQueries.DataBuild` | core/src/main/jni/libevent/evdns.c:1680-1704 | A buffer of the estimated length is enough exactly for names that can be encoded; what is written is the query, with the id, recursion desired, one question, and the type and class in the last four bytes |
| `DnsQueries.RequestParse` | core/src/main/jni/libevent/evdns.c:1216-1303 | Parses what the specification parses, for every packet; what it returns comes from a packet without the response bit and has the id, the RD and CD flags only, and as many questions as the header says |
| `DnsQueries.QueryRoundTrip` | core/src/main/jni/libevent/evdns.c:1215-1272 | The server recovers id, name, type and class of a query |
| `DnsQueries.ParsedHeader` | core/src/main/jni/libevent/evdns.c:1216-1303 | Short packets, responses and requests without questions are refused; of the flags exactly RD and CD are kept |
| `DnsQueries.QuestionsRoundTrip` | core/src/main/jni/libevent/evdns.c:1216-1303 | Any number of questions, their names compressed against each other, is read back with id and flags; with the response bit set it is refused |
| `FdInterest.MakeTable` | core/src/main/jni/libevent/make_epoll_table.py:55-63 | All 512 entries of the table are the operation that leads from the old interest to the wanted one |
| `FdInterest.GetOperation` | core/src/main/jni/libevent/make_epoll_table.py:3-47 | One entry, built by adding and removing flags, is the wanted operation |
| `FdInterest.OperationMeans` | core/src/main/jni/libevent/make_epoll_table.py:3-47 | ADD and MOD set what is wanted, DEL is issued only when nothing is wanted, nothing is issued only when nothing changes |
| `FdInterest.OperationFits` | core/src/main/jni/libevent/make_epoll_table.py:3-47 | ADD exactly when something is added to a descriptor on which nothing was watched, DEL exactly when nothing is left, naming what was deleted, MOD exactly otherwise |
| `FdInterest.CountedIsUnion` | core/src/main/jni/libevent/evmap.c:266-344 | The reference counts of a descriptor say what the union of its events says |
| `FdInterest.UnionMeans` | core/src/main/jni/libevent/evmap.c:266-344 | The union has exactly the directions that some event on the descriptor wants |
| `FdInterest.Base.ApplyOneChange` | core/src/main/jni/libevent/epoll.c:269-355 | With the retries an ADD or MOD reaches its target and a DEL ends the interest, whether or not the kernel held the descriptor |
| `FdInterest.Base.MakeSpace` | core/src/main/jni/libevent/evmap.c:204-225 | The table has the slot and loses none |
| `FdInterest.Base.IoAdd` | core/src/main/jni/libevent/evmap.c:266-342 | The event joins its descriptor; the backend is told exactly when a direction is new; fails exactly when a direction has 65535 events already |
| `FdInterest.Base.IoDel` | core/src/main/jni/libevent/evmap.c:347-409 | The event leaves its descriptor; the backend is told exactly when a direction is no longer wanted |
| `FdInterest.Base.GetOrConstruct` | core/src/main/jni/libevent/evmap.c:824-852 | The one change of a descriptor is found or made, and the links between table and changelist stay right |
| `FdInterest.Base.ChangelistAdd` | core/src/main/jni/libevent/evmap.c:855-887 | The coalesced change leads to the old interest plus the events |
| `FdInterest.Base.ChangelistDel` | core/src/main/jni/libevent/evmap.c:890-939 | The coalesced change leads to the old interest minus the events |
| `FdInterest.Base.NochangelistChange` | core/src/main/jni/libevent/epoll.c:376-413 | The kernel watches the changed interest at once |
| `FdInterest.Base.ApplyChanges` | core/src/main/jni/libevent/epoll.c:358-374 | All changes are applied, one descriptor each |
| `FdInterest.Base.RemoveAll` | core/src/main/jni/libevent/evmap.c:768-786 | All links are cut and no event is lost |
| `FdInterest.Base.Dispatch` | core/src/main/jni/libevent/epoll.c:459-460 | Afterwards the kernel watches on every undisturbed descriptor the union of its events |
| `FdInterest.BackendsAgree` | core/src/main/jni/libevent/epoll.c:358-413 | Bases with the same events and nothing pending have told the kernel the same, with or without changelist |
| `FdInterest.Run` | core/src/main/jni/libevent/evmap.c:265-409 | Any run of additions, deletions, dispatches and replaced descriptors on either kind of base leaves the events the run says; when nothing is pending, as after a dispatch, the kernel watches their union on every undisturbed descriptor |
| `FdInterest.RunBoth` | core/src/main/jni/libevent/epoll.c:358-485 | The same run on a base with a changelist and on one without, dispatched at the end: both kernels watch the union of the events on every descriptor that no other file took over |
| `EventQueues.InsertInOrder` | core/src/main/jni/libevent/event.c:3280-3307 | A sorted list stays sorted; the event comes behind exactly those due no later |
| `EventQueues.Base.InsertActive` | core/src/main/jni/libevent/event.c:3326-3344 | Goes to the end of the queue of its priority, once; flags, queues and both counters stay in agreement |
| `EventQueues.Base.RemoveActive` | core/src/main/jni/libevent/event.c:3185-3199 | Leaves its queue; flags, queues and both counters stay in agreement |
| `EventQueues.Base.InsertLater` | core/src/main/jni/libevent/event.c:3347-3361 | Goes to the end of the later queue unless it is active or there already |
| `EventQueues.Base.RemoveLater` | core/src/main/jni/libevent/event.c:3201-3214 | Leaves the later queue |
| `EventQueues.Base.InsertInserted` | core/src/main/jni/libevent/event.c:3310-3323 | Flag, set and counter stay in agreement |
| `EventQueues.Base.RemoveInserted` | core/src/main/jni/libevent/event.c:3173-3183 | Flag, set and counter stay in agreement |
| `EventQueues.Base.CountersAreFlags` | core/src/main/jni/libevent/event.c:3165-3360 | The active counter is the number of callbacks that are active or later; the event counter is the number of flags that external callbacks have set |
| `EventQueues.Base.InsertIntoList` | core/src/main/jni/libevent/event.c:3364-3385 | The common timeout list stays sorted |
| `EventQueues.Base.RemoveTimeout` | core/src/main/jni/libevent/event.c:3216-3235 | The event leaves the heap or its list, and no other common timeout is forgotten |
| `EventQueues.Base.EventDel` | core/src/main/jni/libevent/event.c:2761-2844 | The event leaves every queue, or nothing happens when it is being finalized |
| `EventQueues.Base.AddTimeout` | core/src/main/jni/libevent/event.c:2616-2692 | The event is in the timeouts with its exact time, and no common timeout is forgotten, also when it becomes the first one of a list |
| `EventQueues.Base.EventAdd` | core/src/main/jni/libevent/event.c:2547-2716 | Exact failure condition, and then nothing changed; exact new flags and due time; no common timeout is forgotten |
| `EventQueues.Base.Schedule` | core/src/main/jni/libevent/event.c:1407-1413 | The internal event is in the heap and due with the first event of the list |
| `EventQueues.Base.CommonTimeoutCallback` | core/src/main/jni/libevent/event.c:1419-1439 | No overdue event stays in the list, all of them are active, and a list that is not empty has its internal event in the heap, due with its head |
| `EventQueues.Base.InitCommonTimeout` | core/src/main/jni/libevent/event.c:1444-1515 | The list of an interval is found or made; it fails exactly when there are 256 lists, none of that interval |
| `EventQueues.Base.TimeoutProcess` | core/src/main/jni/libevent/event.c:3126-3149 | It returns; exactly the events of the heap that are due become active by their timeout, and all others keep their state |
| `EventQueues.Base.EventActive` | core/src/main/jni/libevent/event.c:2865-2913 | The event is active and not later, unless it is being finalized; results of several activations add up |
| `EventQueues.Base.CallbackActivate` | core/src/main/jni/libevent/event.c:2952-2979 | The same for callbacks, with the exact return value and queue |
| `EventQueues.Base.CallbackActivateLater` | core/src/main/jni/libevent/event.c:2982-2992 | Goes to the later queue unless it is active or there already, with the exact return value |
| `EventQueues.Base.CallbackCancel` | core/src/main/jni/libevent/event.c:3014-3041 | The callback is in no queue, or nothing happens when it is being finalized |
| `EventQueues.Base.MakeLaterActive` | core/src/main/jni/libevent/event.c:3388-3400 | The later queue becomes empty, and everything in it goes to the active queues in order |
| `EventQueues.PushedInOrder` | core/src/main/jni/libevent/event.c:3388-3400 | Each active queue gains exactly the later callbacks of its priority, in the order in which they waited |
| `EventQueues.Base.Finalize` | core/src/main/jni/libevent/event.c:2197-2208 | A finalizing event is in no timeout or inserted set, and its finalizer is active |
| `EventQueues.Base.CallbackFinalize` | core/src/main/jni/libevent/event.c:2239-2253 | The same for callbacks |
| `EventQueues.Base.FinalizeMany` | core/src/main/jni/libevent/event.c:2267-2298 | Exactly one finalizer is scheduled, for the running callback if it is among them; all others are in no queue |
| `EventQueues.Base.PersistClosure` | core/src/main/jni/libevent/event.c:1519-1581 | An event that fired by timeout and is not late by more than its interval is due exactly one interval after it was due, otherwise one interval after now; without an interval, or with a plain interval of zero, or when evmap fails, nothing changes |
| `EventQueues.Base.Firings` | core/src/main/jni/libevent/event.c:1519-1581 | However late each of k calls is, up to an interval: the event is due exactly k intervals after it was due first |
| `EventQueues.Base.RunFirst` | core/src/main/jni/libevent/event.c:1591-1706 | The first active callback leaves its queue; a persistent event with an interval is due again, other events are in no queue, and the internal event of a list leaves no overdue event there |
| `EvdnsRequests.RingInsert` | core/src/main/jni/libevent/evdns.c:2721-2734 | The circular list grows by the request at its end |
| `EvdnsRequests.RingRemove` | core/src/main/jni/libevent/evdns.c:2683-2717 | The circular list loses exactly the request, and the head is right |
| `EvdnsRequests.TableInsert` | core/src/main/jni/libevent/evdns.c:390-390 | The request goes to the list of its transaction id and the other lists stay |
| `EvdnsRequests.TableRemove` | core/src/main/jni/libevent/evdns.c:390-390 | The request leaves the list of its transaction id and the other lists stay |
| `EvdnsRequests.Base.Find` | core/src/main/jni/libevent/evdns.c:469-483 | The request in flight with the id, or null when there is none |
| `EvdnsRequests.Base.PickId` | core/src/main/jni/libevent/evdns.c:1318-1329 | The first random number that is not 0xffff and not in flight |
| `EvdnsRequests.Base.Pick` | core/src/main/jni/libevent/evdns.c:1335-1367 | The first server from the head of the circle on that is up, whose circle then starts behind it; just the next one when none is up; null exactly without servers |
| `EvdnsRequests.Base.PickRound` | core/src/main/jni/libevent/evdns.c:1335-1367 | As many picks as servers are up return each of these exactly once and end where they began |
| `EvdnsRequests.Base.Swap` | core/src/main/jni/libevent/evdns.c:545-553 | The loads of both servers stay exact |
| `EvdnsRequests.Base.Submit` | core/src/main/jni/libevent/evdns.c:2824-2841 | In flight with a server, waiting without; all counters and lists stay exact, and ids stay distinct exactly when the id is new |
| `EvdnsRequests.Base.Ask` | core/src/main/jni/libevent/evdns.c:2747-2841 | A new request goes in flight exactly when there is room and a server, to the server that the circle has next, and the circle goes on behind it; that server's load grows by one and no other; the limit is kept by it |
| `EvdnsRounds.VisitsAre` | core/src/main/jni/libevent/evdns.c:1335-1367 | Turns around a circle come to each server equally often, up to one turn, in order |
| `EvdnsRounds.AskAll` | core/src/main/jni/libevent/evdns.c:2747-2841 | A run of requests with room for all goes to the servers in the order of the circle, to those that are up if there are any, and their loads grow evenly, no other load grows |
| `EvdnsRounds.AskRound` | core/src/main/jni/libevent/evdns.c:2747-2841 | As many requests as servers are up: the load of each of these grows by exactly one and no other changes |
| `EvdnsRequests.Base.Pump` | core/src/main/jni/libevent/evdns.c:743-770 | The requests that waited longest go in flight: none without a server, else as many as wait or as there is room for, never beyond the limit, the i-th to the i-th server of the circle |
| `EvdnsRequests.Base.Finish` | core/src/main/jni/libevent/evdns.c:649-706 | The request is in no list, and exactly as many waiting requests go in flight as the room it leaves and the servers allow, never beyond the limit, to the servers in turn; all counters and lists stay exact |
| `EvdnsRequests.Base.Cancel` | core/src/main/jni/libevent/evdns.c:2864-2875 | Whether it has a server tells in which list a request is; exactly as many waiting requests go in flight as there is room for then |
| `EvdnsRequests.Base.SearchNext` | core/src/main/jni/libevent/evdns.c:3256-3296 | The request for the next name takes the place of the last one; two requests in flight then share an id exactly when, before the call, there is room and a server and the picked id is among the ids that the waiting requests for which there is room will draw |
| `EvdnsRequests.Base.SharedId` | core/src/main/jni/libevent/evdns.c:3290-3294 | A reachable base in which two requests in flight have the same id |
| `EvdnsRequests.Base.Reissue` | core/src/main/jni/libevent/evdns.c:715-735 | The server is the one that nameserver_pick leads to; it fails exactly when that is the same server, so a server that is down is kept only when none is up |
| `EvdnsRequests.Base.Failed` | core/src/main/jni/libevent/evdns.c:558-615 | The server is down; exactly its requests that were never sent move, in the order of the table, to the servers that are up in turn, if there are any |
| `EvdnsRequests.Base.Up` | core/src/main/jni/libevent/evdns.c:618-636 | The server is up and the number of good servers stays exact |
| `EvdnsRequests.Base.AddServer` | core/src/main/jni/libevent/evdns.c:2541-2554 | The new server comes next after the head of the circle |
| `EvdnsRequests.Base.SetMaxInflight` | core/src/main/jni/libevent/evdns.c:3386-3414 | Every request in flight is in the list of its id in the new table, and nothing else changes |
| `EvdnsRequests.Base.CounterIsTotal` | core/src/main/jni/libevent/evdns.c:302-314 | The lists of the table together have as many places as the global counter says |
| `RateLimit.RefillIsMin` | core/src/main/jni/libevent/bufferevent_ratelim.c:92-105 | For a bucket within its maximum the 64-bit computation gives min(maximum, limit + ticks * rate) |
| `RateLimit.RefillExact` | core/src/main/jni/libevent/bufferevent_ratelim.c:92-105 | It does so exactly when the bucket is within its maximum, or what is added reaches the wrapped difference |
| `RateLimit.RefillAboveMaximum` | core/src/main/jni/libevent/bufferevent_ratelim.c:92-105 | A bucket above its maximum that grows on |
| `RateLimit.AdvanceSplits` | core/src/main/jni/libevent/bufferevent_ratelim.c:74-111 | Updates in between do not matter, also when the 32-bit tick counter wraps |
| `RateLimit.Conformance` | core/src/main/jni/libevent/bufferevent_ratelim.c:197-258 | A run whose transfers keep to the announced maximum moves at most the first limit plus rate times ticks |
| `RateLimit.ElapsedIsClock` | core/src/main/jni/libevent/bufferevent_ratelim.c:79-84 | The ticks that count lead from the first to the last update modulo 2^32 |
| `RateLimit.WaitExact` | core/src/main/jni/libevent/bufferevent_ratelim.c:74-111 | Whatever updates come, the limit is min(maximum, limit + ticks * rate) for the ticks since the tick the bucket stands at, and unchanged until that tick |
| `RateLimit.DueBehind` | core/src/main/jni/libevent/bufferevent_ratelim.c:79-84 | The bucket is refilled at once exactly when the wrapped difference to its last update is at most INT_MAX |
| `RateLimit.LongerTicksStall` | core/src/main/jni/libevent/bufferevent_ratelim.c:116-135 | Last updated in tick 1700000000 of one second, a bucket asked in ticks of ten seconds is not refilled for 1530000000 ticks |
| `Bufferevents.Bufferevent.UpdateBucket` | core/src/main/jni/libevent/bufferevent_ratelim.c:74-111 | Both directions advance as specified; nothing happens when no tick passed or the clock went back |
| `Bufferevents.Bufferevent.RlimMax` | core/src/main/jni/libevent/bufferevent_ratelim.c:198-258 | The exact maximum, never negative: the bucket or the size limit for single operations, cut to an equal part of the group's limit or the minimal share, whichever is more; no less is granted unless the own limit is less, and nothing while the group is suspended |
| `Bufferevents.ShareIs` | core/src/main/jni/libevent/bufferevent_ratelim.c:198-258 | The part of one member times the members is at most the limit and misses less than one each; mirrored for a negative limit |
| `Bufferevents.GrantedOnce` | core/src/main/jni/libevent/bufferevent_ratelim.c:198-258 | The bounds on what a group grants leave exactly one number |
| `Bufferevents.Group.AllMax` | core/src/main/jni/libevent/bufferevent_ratelim.c:198-258 | Asked one after the other, all members together may not move more than the bucket of the group holds, or the minimal share of each if that is more |
| `Bufferevents.Bufferevent.DecrementBuckets` | core/src/main/jni/libevent/bufferevent_ratelim.c:272-346 | Both buckets lose the bytes, and each is suspended exactly when it is empty |
| `Bufferevents.Bufferevent.DecrementLimit` | core/src/main/jni/libevent/bufferevent_ratelim.c:971-1026 | The same for the public functions, which look at the change of sign |
| `Bufferevents.Bufferevent.RefillCallback` | core/src/main/jni/libevent/bufferevent_ratelim.c:394-439 | A direction goes on exactly when its bucket is positive again, and the timer runs on exactly when one is not |
| `Bufferevents.Bufferevent.SetRateLimit` | core/src/main/jni/libevent/bufferevent_ratelim.c:560-636 | Exact new limits, suspensions and tick of the last update for the first, another, the same and no configuration; the timer is scheduled exactly if a direction is suspended |
| `Bufferevents.Bufferevent.WaitForRefill` | core/src/main/jni/libevent/bufferevent_ratelim.c:394-439 | Over any callbacks the limits are what the ticks since the tick the bucket stands at bring; the suspension has ended exactly when the last callback comes more than (-limit) / rate ticks after that tick, for both directions |
| `Bufferevents.Bufferevent.Run` | core/src/main/jni/libevent/bufferevent_ratelim.c:560-636 | Any run of configurations, transfers, callbacks and other suspensions keeps the invariant; while ticks keep their length and the clock does not go back, the bucket stands at a tick in the past |
| `Bufferevents.Bufferevent.NoStall` | core/src/main/jni/libevent/bufferevent_ratelim.c:560-636 | After any run with any changes of the configuration, callbacks end the suspension exactly under that condition; without a change in the length of ticks the tick the bucket stands at is in the past, so the wait is bounded by what is missing |
| `Bufferevents.Bufferevent.Stalled` | core/src/main/jni/libevent/bufferevent_ratelim.c:40-62 | A change from ticks of one second to ten seconds: the bucket stays suspended whatever callbacks come in the next 1530000000 ticks |
| `Bufferevents.Side.Suspend` | core/src/main/jni/libevent/bufferevent.c:67-76 | The backend listens exactly when the user wants it and no reason speaks against it |
| `Bufferevents.Side.Unsuspend` | core/src/main/jni/libevent/bufferevent.c:79-88 | The same after a reason is gone |
| `Bufferevents.Side.Enable` | core/src/main/jni/libevent/bufferevent.c:460-480 | The same after the user enabled a direction |
| `Bufferevents.Side.SetMaxSingle` | core/src/main/jni/libevent/bufferevent_ratelim.c:858-869 | The default stands for zero and for sizes that are too large |
| `Bufferevents.Group.Suspend` | core/src/main/jni/libevent/bufferevent_ratelim.c:350-371 | Every member that can be locked is suspended, whatever other reasons it has |
| `Bufferevents.Group.Unsuspend` | core/src/main/jni/libevent/bufferevent_ratelim.c:488-504 | Wherever the order starts, every member that can be locked goes on, and the rest is remembered exactly |
| `Bufferevents.Group.Take` | core/src/main/jni/libevent/bufferevent_ratelim.c:295-305 | The group is suspended exactly when its bucket is empty, and every suspended member will be resumed |
| `Bufferevents.Group.DecrementLimit` | core/src/main/jni/libevent/bufferevent_ratelim.c:1028-1045 | The same for the public functions, which look at the change of sign |
| `Bufferevents.Group.SetMinShare` | core/src/main/jni/libevent/bufferevent_ratelim.c:704-722 | The minimal share is never above what one tick brings |
| `Bufferevents.Group.RefillCallback` | core/src/main/jni/libevent/bufferevent_ratelim.c:529-557 | With at least the minimal share the suspension ends, and no member that can be locked is left behind |
| `Bufferevents.Group.SetCfg` | core/src/main/jni/libevent/bufferevent_ratelim.c:673-701 | Limits are cut to the new maximum and the minimal share to the new rates; the tick of the last update stays although the length of ticks changes |
| `Bufferevents.Group.Join` | core/src/main/jni/libevent/bufferevent_ratelim.c:736-780 | A member stays one; a member of another group leaves that one, which stays valid, and then joins |
| `Bufferevents.Group.Remove` | core/src/main/jni/libevent/bufferevent_ratelim.c:789-810 | A former member is not suspended for the group |
| `Bufferevents.Group.WaitForShare` | core/src/main/jni/libevent/bufferevent_ratelim.c:529-557 | Over any callbacks the limits are what the ticks since the tick the bucket stands at bring, and the suspension has ended exactly when they reach the minimal share |
| `Arc4.Stream.constructor` | core/src/main/jni/libevent/arc4random.c:97-105 | The array starts as the identity |
| `Arc4.Stream.AddRandom` | core/src/main/jni/libevent/arc4random.c:108-122 | The new state is the mixed one, the array stays a permutation, and both indices stand one place before where the first one was |
| `Arc4.Stream.MixIn` | core/src/main/jni/libevent/arc4random.c:114-121 | One turn moves the first index by one, the second by the entry there plus the byte of the seed, and exchanges the two entries |
| `Arc4.MixInvertible` | core/src/main/jni/libevent/arc4random.c:114-121 | A turn with a given byte can be taken back |
| `Arc4.MixTellsApart` | core/src/main/jni/libevent/arc4random.c:114-121 | Different bytes of the seed lead to different indices and different arrays |
| `Arc4.SeedsDiffer` | core/src/main/jni/libevent/arc4random.c:108-122 | Seeds that differ first in the byte for turn n lead to different states, and arrays, after that turn |
| `Arc4.LastByteCounts` | core/src/main/jni/libevent/arc4random.c:108-122 | Seeds of 256 bytes that differ in the last one never lead to the same state again, however many bytes are drawn |
| `Arc4.OnlyFirst256` | core/src/main/jni/libevent/arc4random.c:108-122 | Of a longer seed only the first 256 bytes count |
| `Arc4.Stream.AddAll` | core/src/main/jni/libevent/arc4random.c:466-480 | A long seed is mixed in 256 bytes at a time |
| `Arc4.SeededInParts` | core/src/main/jni/libevent/arc4random.c:466-480 | Seeds that follow each other are mixed in one after the other, in pieces of 256 bytes |
| `Arc4.Stream.GetByte` | core/src/main/jni/libevent/arc4random.c:426-437 | The first index moves by one, the second by the entry there, the two entries are exchanged, and the byte is the entry at the sum of the two, so the new state is the next one |
| `Arc4.Stream.GetWord` | core/src/main/jni/libevent/arc4random.c:440-450 | Four bytes of the stream, the first one in the highest place, the last one in the lowest |
| `Arc4.Stream.Stir` | core/src/main/jni/libevent/arc4random.c:372-409 | The state after mixing and 3072 discarded bytes |
| `Arc4.StepInvertible` | core/src/main/jni/libevent/arc4random.c:426-437 | A step can be taken back, and every state has one before it |
| `Arc4.StepsInjective` | core/src/main/jni/libevent/arc4random.c:426-437 | After any number of steps different states are still different |
| `Arc4.StepsKeep` | core/src/main/jni/libevent/arc4random.c:426-437 | Over any run the array stays a permutation |
| `Arc4.Stream.Fill` | core/src/main/jni/libevent/arc4random.c:498-509 | The bytes of the stream fill the buffer from its end, with a new seed exactly when the count runs out |
| `Arc4.DrawsInStream` | core/src/main/jni/libevent/arc4random.c:498-509 | Until the count runs out the bytes follow each other in the stream and no seed is taken |
| `Arc4.SeedsTaken` | core/src/main/jni/libevent/arc4random.c:498-509 | The first seed is taken when the count runs out, then one every 1600000 bytes, in order |
| `Arc4.Stream.Next` | core/src/main/jni/libevent/arc4random.c:485-494 | Four bytes of the stream, the first one highest, after a new seed if one is due |
| `Arc4.CutoffIs` | core/src/main/jni/libevent/arc4random.c:532-540 | The 32-bit computation gives 2^32 modulo the bound |
| `Arc4.Unbiased` | core/src/main/jni/libevent/arc4random.c:523-555 | Every result has the same number of accepted draws |
| `Arc4.MostAreUsed` | core/src/main/jni/libevent/arc4random.c:523-555 | More than half of the draws are accepted |
| `Arc4.Uniform` | core/src/main/jni/libevent/arc4random.c:523-555 | The first accepted draw decides, reduced to the bound |

## Left out

- `evbuffer_reserve_space`, `evbuffer_expand` and `evbuffer_peek`, which only combine what is there, and `evbuffer_add_iovec`.
- Pinned, immutable, reference and multicast chains, file segments and sendfile: they weaken the invariant and bring in memory of others.
- Callbacks of evbuffers and their counters, locks, reference counts, and user callbacks that call back into the library while an operation is under way.
- Running out of memory, other than the size limits that the code checks itself. Sizes are those of a 64-bit platform.
- EvbufferModel.Evbuffer.AddBuffer: the cached length is a mathematical number, so the wrap-around of the sum of two lengths beyond 2^64 is not modelled.
- EvbufferModel.Evbuffer.RemoveBuffer: when the two lengths add up to more than 2^64 the destination is not described, since the code then drops the bytes of the last part.
- EvbufferModel.Evbuffer.Pullup: `off` of the new first chain grows with every chain that is copied, not once at the end.
- EvbufferLines.Strspn: the count is a mathematical number, while the code counts in an `int`, which overflows at 2^31 line ends in a row.
- EvbufferRead.Read: the system call fills the vectors in order and returns how much it put there; FIONREAD and the received bytes are parameters.
- Tagging.DecodeTagInternal: a sixth byte of a tag is rejected before it is added to the number, not after; the result is the same.
- Tagging.UnmarshalFixed: the caller's memory is returned as a byte sequence.
- Rpcgen.RoundTrip: byte fields of no bytes come back only where `malloc(0)` returns a pointer; strings hold no NUL; payloads are shorter than 2^31 bytes, and strings shorter than 2^31 - 1 bytes.
- The parser of `event_rpcgen.py`, and the accessor functions that it generates besides marshal, unmarshal and complete.
- DnsNames.WriteItems: the data lengths that `evdns_server_request_format_response` fills in afterwards count as other bytes; section counts and records are not told apart.
- DnsQueries.RequestParse: the answer NOTIMPL for other operations is not modelled; the flags it looks at were masked away before.
- EvdnsRequests.Base.SearchNext: which name is tried next, and giving up, are not modelled.
- `reply_parse`, reverse lookups, search domains, hosts and resolver configuration files, TCP, and sending and receiving.
- Edge-triggered flags and signals in evmap and the changelist; epoll errors other than EEXIST and ENOENT; timerfd; `event_reinit`.
- EventQueues.Base.HeapTop: the min-heap is an abstract list from which the least element is taken; the heap's header is not part of this model.
- EventQueues.Base.EventAdd: the answer of evmap is a parameter; waiting for another thread to leave a callback is not modelled; signals are left out.
- EventQueues.Base.InitCommonTimeout: an interval is a number of microseconds, while the code compares seconds and microseconds; a `tv_usec` of exactly 1000000 is not normalized, so such an interval gets a list of its own.
- EventQueues.Base.Firings: it follows one event from each firing to the next; what other callbacks do in between is left out.
- EventQueues.Base.RunFirst: callbacks do nothing to the base themselves; the limits on time and number of callbacks of one turn are left out.
- EvdnsRequests.Base.Up: ending the probe of the server is not modelled.
- EvdnsRequests.Base.Finish: requests that are in no list, memory, handles, timers and deferred callbacks are left out.
- EvdnsRequests.Base.Pump: the transaction ids are a parameter, distinct and not in flight, as `transaction_id_pick` returns them.
- A bound on all requests in flight: probes are sent regardless of the limit.
- `evdns_base_clear_nameservers_and_suspend` and freeing an evdns base.
- Bufferevents.Bufferevent.DecrementBuckets: refunds are allowed as long as the limit stays within its maximum; larger ones leave the invariant.
- Bufferevents.Group.Unsuspend: the random start and the members whose locks are taken are parameters; the totals of a group are left out.
- The clock: the time is a parameter, in milliseconds; converting a `struct timeval` is left out, and so are ticks of less than a millisecond, for which the code divides by zero.
- Arc4.Stream.Stir: the platform always gives entropy; forked processes are left out.
