/** A sender and a receiver joined by a byte stream. */
module HttpEndToEnd {
  import opened Bytes
  import opened HttpWire
  import opened HttpParsing
  import opened HttpEncode
  import opened HttpReceive
  import opened HttpSend

  /** The send buffer takes the leader, its line end and (without headers) the empty line whole,
  with a byte to spare for a NUL. */
  predicate LeaderFits(leader: bytes, headers: seq<Header>) {
    |leader| + (if headers == [] then 4 else 2) < BUFFER_SIZE
  }

  /** The document's content; nothing without a document. */
  function Content(s: HttpSender): bytes {
    if s.document == null then [] else s.document.content
  }

  /** A body is sent in chunks if the headers say so and there is a document. */
  predicate SentChunked(s: HttpSender) {
    DeclaresChunked(s.headers) && s.document != null
  }

  /** The message that a sender is to send. */
  ghost function Message(s: HttpSender): bytes
    reads s`pieces
  {
    if SentChunked(s) then ChunkedMessage(s.leader, Kept(s.headers), s.pieces)
    else PlainMessage(s.leader, Kept(s.headers), Content(s))
  }

  /** The part of it behind the head. */
  ghost function Tail(s: HttpSender): bytes
    reads s`pieces
  {
    if SentChunked(s) then Chunks(s.pieces) + LAST_CHUNK else Content(s)
  }

  lemma MessageIsHeadAndTail(s: HttpSender)
    ensures Message(s) == Head(s.leader, Kept(s.headers)) + Tail(s)
  {
    hide DeclaresChunked, HeaderLines, Chunks, Kept;
  }

  /** A finished sender has written its message, whatever the document reads, blocks and partial
  writes were, exactly if the leader fitted into the buffer; otherwise the leader was clipped. */
  lemma SentIsMessage(s: HttpSender)
    requires s.AllSent()
    ensures s.network.sent == Message(s) <==> LeaderFits(s.leader, s.headers)
  {
    hide DeclaresChunked, HeaderLines, Chunks, Concat, Kept;
    HeadIsHead(s);
    MessageIsHeadAndTail(s);
    assert s.network.sent == s.HeadUpTo(|s.headers|) + Tail(s) by { BodyIsTail(s); }
  }

  lemma BodyIsTail(s: HttpSender)
    requires s.AllSent()
    ensures s.Body() == Tail(s)
  {
    if s.document == null {
      assert Chunks([]) + [] == [] && Concat([]) == [];
    }
  }

  lemma HeadIsHead(s: HttpSender)
    ensures if LeaderFits(s.leader, s.headers) then s.HeadUpTo(|s.headers|) == Head(s.leader, Kept(s.headers))
            else |s.HeadUpTo(|s.headers|)| < |Head(s.leader, Kept(s.headers))|
  {
    hide HeaderLines, Kept;
    assert s.headers[..|s.headers|] == s.headers;
    if s.headers == [] { NoHeaders(s); }
  }

  lemma NoHeaders(s: HttpSender)
    requires s.headers == []
    ensures HeaderLines(Kept(s.headers)) == []
  {
  }

  // ---------- when the two sides agree on the body, and when they do not ----------

  /** The body is sent the way it is read, and a plain body has the length that is announced. */
  predicate Agreed(s: HttpSender, f: Fields, size: Size) {
    if f.chunked then SentChunked(s) else !SentChunked(s) && size == |Content(s)| < SIZE_UNKNOWN
  }

  /** The reference parser ends with the last byte of `wire`, without error, and with this message. */
  ghost predicate EndsWith(cb: Callbacks, wire: bytes, leader: bytes, headers: seq<Header>, body: bytes) {
    exists fields :: Feed(cb, At(Reset, 0), wire)
                     == Parse(Machine(fields, Some(leader), headers, body), [], |wire|, Some(HE_NONE))
  }

  /** A body never grows faster than the input. */
  lemma {:induction false} BodyGrowsSlowly(cb: Callbacks, w: Parse, input: bytes)
    ensures |Feed(cb, w, input).m.body| <= |w.m.body| + |input|
  {
    if input != [] {
      hide LineStep;
      BodyGrowsSlowly(cb, w, input[..|input| - 1]);
    }
  }

  /** A plain body read as chunks is never itself: its first byte already belongs to a chunk size. */
  lemma PlainReadAsChunks(cb: Callbacks, m: Machine, size: Size, taken: nat, body: bytes)
    ensures var w := Feed(cb, At(BetweenChunks(m, size, []), taken), body);
      !(w.m.body == body && w.status == Some(HE_NONE))
  {
    var w0 := At(BetweenChunks(m, size, []), taken);
    if body == [] {
      FeedNothing(cb, w0);
    } else {
      var first, rest := [body[0]], body[1..];
      assert first + rest == body && first[..0] == [];
      FeedAppend(cb, w0, first, rest);
      assert Feed(cb, w0, first) == FeedByte(cb, w0, body[0]);
      BodyGrowsSlowly(cb, Feed(cb, w0, first), rest);
    }
  }

  /** A plain body takes every byte for itself. */
  lemma {:induction false} PlainTakesAll(cb: Callbacks, w: Parse, input: bytes)
    requires w.m.fields.state == StData && !w.m.fields.chunked
    ensures var w' := Feed(cb, w, input);
      && w'.m.fields.state == StData && !w'.m.fields.chunked
      && w'.taken - |w'.m.body| == w.taken - |w.m.body|
  {
    if input != [] {
      PlainTakesAll(cb, w, input[..|input| - 1]);
    }
  }

  /** Without an announced size it never ends. */
  lemma {:induction false} UnknownGoesOn(cb: Callbacks, m: Machine, taken: nat, data: bytes)
    requires m.fields.state == StData && m.fields.dataSize == SIZE_UNKNOWN
    ensures Feed(cb, At(m, taken), data) == At(m.(body := m.body + data), taken + |data|)
  {
    if data == [] {
      assert m.body + data == m.body;
    } else {
      var init := data[..|data| - 1];
      UnknownGoesOn(cb, m, taken, init);
      assert m.body + init + [data[|data| - 1]] == m.body + data;
    }
  }

  /** The chunks of a document are longer than the document. */
  lemma {:induction false} ChunksAreLonger(pieces: seq<bytes>)
    ensures |Concat(pieces)| <= |Chunks(pieces)|
  {
    if pieces != [] {
      ChunksAreLonger(pieces[..|pieces| - 1]);
    }
  }

  lemma ChunkedToChunked(cb: Callbacks, s: HttpSender, f: Fields, size: Size)
    requires s.AllSent() && Accepted(cb, s.leader, Kept(s.headers), f, size) && f.chunked && SentChunked(s)
    ensures EndsWith(cb, Message(s), s.leader, Kept(s.headers), Content(s))
  {
    hide DeclaresChunked, HeaderLines, Kept, Feed, Accepted, Chunks;
    ChunkedRoundTrip(cb, s.leader, Kept(s.headers), f, size, s.pieces);
  }

  lemma PlainToPlain(cb: Callbacks, leader: bytes, headers: seq<Header>, f: Fields, size: Size, body: bytes)
    requires Accepted(cb, leader, headers, f, size) && !f.chunked && size < SIZE_UNKNOWN
    ensures EndsWith(cb, PlainMessage(leader, headers, body), leader, headers, body) <==> size == |body|
  {
    hide HeaderLines, Feed, Accepted;
    PlainRoundTrip(cb, leader, headers, f, size, body);
  }

  /** Feeding a whole message is feeding its tail behind the accepted head. */
  lemma BehindHead(cb: Callbacks, leader: bytes, headers: seq<Header>, f: Fields, size: Size, tail: bytes)
    requires Accepted(cb, leader, headers, f, size)
    ensures var head := Head(leader, headers);
      var m := Machine(Fields(if f.chunked then StChunkSize else StData, f.chunked, size), Some(leader), headers, []);
      Feed(cb, At(Reset, 0), head + tail) == Feed(cb, Settle(At(m, |head|)), tail)
  {
    hide HeaderLines, Feed, Accepted;
    HeadReadsBack(cb, leader, headers, f, size);
    FeedAppend(cb, At(Reset, 0), Head(leader, headers), tail);
  }

  lemma PlainToChunked(cb: Callbacks, leader: bytes, headers: seq<Header>, f: Fields, size: Size, body: bytes)
    requires Accepted(cb, leader, headers, f, size) && f.chunked
    ensures !EndsWith(cb, Head(leader, headers) + body, leader, headers, body)
  {
    hide HeaderLines, Feed, Accepted, Head;
    BehindHead(cb, leader, headers, f, size, body);
    var m := Machine(Fields(StChunkSize, true, size), Some(leader), headers, []);
    PlainReadAsChunks(cb, m, size, |Head(leader, headers)|, body);
  }

  /** Read plainly, a tail that is longer than the document is not the document. */
  lemma ChunkedToPlain(cb: Callbacks, leader: bytes, headers: seq<Header>, f: Fields, size: Size,
                       tail: bytes, body: bytes)
    requires Accepted(cb, leader, headers, f, size) && !f.chunked && |body| < |tail|
    ensures !EndsWith(cb, Head(leader, headers) + tail, leader, headers, body)
  {
    hide HeaderLines, Feed, Accepted, Head;
    BehindHead(cb, leader, headers, f, size, tail);
    var m := Machine(Fields(StData, false, size), Some(leader), headers, []);
    PlainTakesAll(cb, Settle(At(m, |Head(leader, headers)|)), tail);
  }

  lemma UnknownToPlain(cb: Callbacks, leader: bytes, headers: seq<Header>, f: Fields, tail: bytes)
    requires Accepted(cb, leader, headers, f, SIZE_UNKNOWN) && !f.chunked
    ensures var head := Head(leader, headers);
      Feed(cb, At(Reset, 0), head + tail)
      == At(Machine(Fields(StData, false, SIZE_UNKNOWN), Some(leader), headers, tail), |head + tail|)
  {
    hide HeaderLines, Feed, Accepted, Head;
    BehindHead(cb, leader, headers, f, SIZE_UNKNOWN, tail);
    var m := Machine(Fields(StData, false, SIZE_UNKNOWN), Some(leader), headers, []);
    UnknownGoesOn(cb, m, |Head(leader, headers)|, tail);
    assert [] + tail == tail;
  }

  /** A message reads back, to its last byte, exactly if the two sides agree on the body. */
  lemma MessageReadsBack(cb: Callbacks, s: HttpSender, f: Fields, size: Size)
    requires s.AllSent() && Accepted(cb, s.leader, Kept(s.headers), f, size)
    ensures EndsWith(cb, Message(s), s.leader, Kept(s.headers), Content(s)) <==> Agreed(s, f, size)
  {
    hide DeclaresChunked, HeaderLines, Kept, Feed, Accepted, Chunks, Head, EndsWith;
    var leader, headers, content := s.leader, Kept(s.headers), Content(s);
    MessageIsHeadAndTail(s);
    if f.chunked {
      if SentChunked(s) {
        ChunkedToChunked(cb, s, f, size);
      } else {
        PlainToChunked(cb, leader, headers, f, size, content);
      }
    } else if SentChunked(s) {
      ChunksAreLonger(s.pieces);
      ChunkedToPlain(cb, leader, headers, f, size, Tail(s), content);
    } else if size == SIZE_UNKNOWN {
      UnknownToPlain(cb, leader, headers, f, content);
      NeverEnds(cb, Message(s), leader, headers, content);
    } else {
      PlainToPlain(cb, leader, headers, f, size, content);
    }
  }

  lemma NeverEnds(cb: Callbacks, wire: bytes, leader: bytes, headers: seq<Header>, body: bytes)
    requires Feed(cb, At(Reset, 0), wire).status.None?
    ensures !EndsWith(cb, wire, leader, headers, body)
  {
  }

  // ---------- end to end ----------

  /** The receiver has ended the message without error, has nothing left, and has reported this. */
  ghost predicate Delivered(r: HttpReceiver, leader: bytes, headers: seq<Header>, body: bytes)
    reads r, r.parser, r.stream, r.parser.document
  {
    && r.Ended(HE_NONE) && r.len == 0
    && r.parser.leader == Some(leader) && r.parser.headers == headers && r.parser.body == body
    && (r.parser.document != null ==> r.parser.document.contents == body)
  }

  /** What a receiver that can do no more has delivered is decided by the reference parser. */
  lemma DeliveredIsFed(r: HttpReceiver, error: HttpError, leader: bytes, headers: seq<Header>, body: bytes)
    requires r.Accounted() && (r.Drained() || r.Ended(error))
    ensures Delivered(r, leader, headers, body)
            <==> EndsWith(r.parser.cb, r.stream.delivered, leader, headers, body)
  {
    hide Feed;
    var cb, wire := r.parser.cb, r.stream.delivered;
    assert wire[..|wire|] == wire;
    if Delivered(r, leader, headers, body) {
      assert r.parser.total == |wire|;
    }
    if EndsWith(cb, wire, leader, headers, body) {
      var fields :| Feed(cb, At(Reset, 0), wire)
                    == Parse(Machine(fields, Some(leader), headers, body), [], |wire|, Some(HE_NONE));
      var status := if r.Drained() then None else Some(error);
      SplitIndependence(cb, wire, r.parser.M(), r.parser.total, status,
                        Machine(fields, Some(leader), headers, body), |wire|, Some(HE_NONE));
    }
  }

  /** The end-to-end guarantee: if a receiver was delivered exactly what a finished sender wrote, in
  any pieces, then once it can do no more it has ended the message without error, has nothing left
  in its buffer, and has reported the sender's leader, the headers that fit, and the document,
  exactly if both sides read the headers alike: chunked, or plain with the right length.  (Chunks
  are declared in vain without a document: then only the head is sent, and the receiver goes on.) */
  lemma EndToEnd(s: HttpSender, r: HttpReceiver, f: Fields, size: Size, error: HttpError)
    requires s.AllSent() && LeaderFits(s.leader, s.headers)
    requires Accepted(r.parser.cb, s.leader, Kept(s.headers), f, size)
    requires r.Accounted() && r.stream.delivered == s.network.sent
    requires r.Drained() || r.Ended(error)
    ensures Delivered(r, s.leader, Kept(s.headers), Content(s)) <==> Agreed(s, f, size)
  {
    hide *;
    SentIsMessage(s);
    MessageReadsBack(r.parser.cb, s, f, size);
    DeliveredIsFed(r, error, s.leader, Kept(s.headers), Content(s));
  }

  /** A body without an announced size is ended by the close of the connection: a receiver at which
  everything has arrived takes a clean close for success, with the document for the body, exactly
  if its buffer is empty. */
  lemma ClosedBody(s: HttpSender, r: HttpReceiver, f: Fields)
    requires s.AllSent() && LeaderFits(s.leader, s.headers) && !SentChunked(s)
    requires Accepted(r.parser.cb, s.leader, Kept(s.headers), f, SIZE_UNKNOWN) && !f.chunked
    requires r.Valid() && r.stream.delivered == s.network.sent
    ensures r.HandleStreamClose(0) == HE_NONE && r.parser.body == Content(s) <==> r.len == 0
    ensures r.len == 0 ==> r.parser.leader == Some(s.leader) && r.parser.headers == Kept(s.headers)
  {
    hide DeclaresChunked, HeaderLines, Kept, Feed, Accepted, Head;
    SentIsMessage(s);
    MessageIsHeadAndTail(s);
    UnknownToPlain(r.parser.cb, s.leader, Kept(s.headers), f, Content(s));
    var wire := r.stream.delivered;
    if r.len == 0 {
      assert r.parser.total == |wire|;
      assert wire[..|wire|] == wire;
    }
    if r.HandleStreamClose(0) == HE_NONE {
      CleanCloseKeepsBody(r);
    }
  }

  // ---------- what the two sides make of the headers ----------

  /** The transfer codings declared, in order. */
  function Codings(headers: seq<Header>): seq<bytes> {
    if headers == [] then []
    else
      var init, last := Codings(headers[..|headers| - 1]), headers[|headers| - 1];
      if EqualsIgnoreCase(last.name, TRANSFER_ENCODING) then init + [last.value] else init
  }

  lemma {:induction false} CodingsCons(h: Header, rest: seq<Header>)
    ensures Codings([h] + rest)
            == (if EqualsIgnoreCase(h.name, TRANSFER_ENCODING) then [h.value] else []) + Codings(rest)
  {
    hide EqualsIgnoreCase;
    var all := [h] + rest;
    if rest == [] {
      assert all[..|all| - 1] == [] && Codings([]) == [];
    } else {
      CodingsCons(h, rest[..|rest| - 1]);
      assert all[..|all| - 1] == [h] + rest[..|rest| - 1];
    }
  }

  lemma {:induction false} DeclaredByFirst(headers: seq<Header>)
    ensures DeclaresChunked(headers) <==> Codings(headers) != [] && Codings(headers)[0] == CHUNKED
  {
    if headers != [] {
      hide EqualsIgnoreCase, Codings;
      DeclaredByFirst(headers[1..]);
      CodingsCons(headers[0], headers[1..]);
      assert [headers[0]] + headers[1..] == headers;
    }
  }

  lemma {:induction false} ReadByLast(headers: seq<Header>)
    requires HeaderEffects(Fields(StHeaders, false, SIZE_UNKNOWN), headers).Some?
    ensures var codings := Codings(headers);
      HeaderEffects(Fields(StHeaders, false, SIZE_UNKNOWN), headers).value.chunked
      <==> codings != [] && EqualsIgnoreCase(codings[|codings| - 1], CHUNKED)
  {
    if headers != [] {
      CodingIsNotLength(headers[|headers| - 1].name);
      ChunkedIsNotIdentity(headers[|headers| - 1].value);
      hide EqualsIgnoreCase, Strtoul;
      ReadByLast(headers[..|headers| - 1]);
    }
  }

  lemma CodingIsNotLength(name: bytes)
    ensures EqualsIgnoreCase(name, TRANSFER_ENCODING) ==> !EqualsIgnoreCase(name, CONTENT_LENGTH)
  {
    assert |TRANSFER_ENCODING| == 17 && |CONTENT_LENGTH| == 14;
  }

  lemma ChunkedIsNotIdentity(value: bytes)
    ensures EqualsIgnoreCase(value, CHUNKED) ==> !EqualsIgnoreCase(value, IDENTITY)
  {
    assert |CHUNKED| == 7 && |IDENTITY| == 8;
  }

  /** The sender goes by the first transfer coding, to the letter; the receiver by the last one that
  reached it, ignoring case.  They agree that a body is chunked exactly if these two say the same. */
  lemma CodingUnderstoodAlike(headers: seq<Header>, f: Fields)
    requires HeaderEffects(Fields(StHeaders, false, SIZE_UNKNOWN), Kept(headers)) == Some(f)
    ensures var declared, read := Codings(headers), Codings(Kept(headers));
      f.chunked == DeclaresChunked(headers)
      <==> ((declared != [] && declared[0] == CHUNKED)
            == (read != [] && EqualsIgnoreCase(read[|read| - 1], CHUNKED)))
  {
    hide Kept, Codings, HeaderEffects, DeclaresChunked, EqualsIgnoreCase;
    DeclaredByFirst(headers);
    ReadByLast(Kept(headers));
  }

  // ---------- where it goes wrong ----------

  lemma CodingFits(value: bytes)
    requires |value| < 100
    ensures Fits(Header(TRANSFER_ENCODING, value))
  {
    assert |TRANSFER_ENCODING| == 17;
  }

  lemma CodingEffect(f: Fields, value: bytes)
    requires EqualsIgnoreCase(value, CHUNKED) || EqualsIgnoreCase(value, IDENTITY)
    ensures HeaderEffect(f, Header(TRANSFER_ENCODING, value))
            == Some(f.(chunked := EqualsIgnoreCase(value, CHUNKED)))
  {
    CodingIsNotLength(TRANSFER_ENCODING);
    ChunkedIsNotIdentity(value);
    assert EqualsIgnoreCase(TRANSFER_ENCODING, TRANSFER_ENCODING);
    hide EqualsIgnoreCase, Strtoul;
  }

  const CAPITAL_CHUNKED: bytes := Ascii("Chunked")

  lemma Spelling()
    ensures CAPITAL_CHUNKED != CHUNKED && EqualsIgnoreCase(CAPITAL_CHUNKED, CHUNKED) && |CAPITAL_CHUNKED| == 7
    ensures EqualsIgnoreCase(IDENTITY, IDENTITY) && |IDENTITY| == 8
    ensures EqualsIgnoreCase(CHUNKED, CHUNKED) && |CHUNKED| == 7
  {
    assert CAPITAL_CHUNKED[0] == 67 && CHUNKED[0] == 99;
  }

  /** A coding that the receiver reads as chunks and the sender does not. */
  lemma CapitalChunked()
    ensures var headers := [Header(TRANSFER_ENCODING, CAPITAL_CHUNKED)];
      !DeclaresChunked(headers) && Kept(headers) == headers
      && HeaderEffects(Fields(StHeaders, false, SIZE_UNKNOWN), headers) == Some(Fields(StHeaders, true, SIZE_UNKNOWN))
  {
    var f, h := Fields(StHeaders, false, SIZE_UNKNOWN), Header(TRANSFER_ENCODING, CAPITAL_CHUNKED);
    Spelling();
    CodingFits(h.value);
    CodingEffect(f, h.value);
    hide Fits, HeaderEffect, EqualsIgnoreCase;
    AllKept([h]);
    DeclaredByFirst([h]);
    assert DeclaresChunked([h]) ==> h.value == CHUNKED;
    assert HeaderEffects(f, [h]) == HeaderEffect(f, h) by { assert HeaderEffects(f, []) == Some(f); }
  }

  /** Two codings of which the sender goes by the first and the receiver by the last. */
  lemma TwoCodings()
    ensures var headers := [Header(TRANSFER_ENCODING, CHUNKED), Header(TRANSFER_ENCODING, IDENTITY)];
      DeclaresChunked(headers) && Kept(headers) == headers
      && HeaderEffects(Fields(StHeaders, false, SIZE_UNKNOWN), headers) == Some(Fields(StHeaders, false, SIZE_UNKNOWN))
  {
    var h1, h2 := Header(TRANSFER_ENCODING, CHUNKED), Header(TRANSFER_ENCODING, IDENTITY);
    var f0, f1 := Fields(StHeaders, false, SIZE_UNKNOWN), Fields(StHeaders, true, SIZE_UNKNOWN);
    Spelling();
    CodingFits(h1.value);
    CodingFits(h2.value);
    CodingEffect(f0, h1.value);
    CodingEffect(f1, h2.value);
    ChunkedIsNotIdentity(IDENTITY);
    assert EqualsIgnoreCase(h1.name, TRANSFER_ENCODING);
    hide Fits, HeaderEffect, EqualsIgnoreCase;
    AllKept([h1, h2]);
    PairEffects(f0, h1, h2);
  }

  lemma {:induction false} AllKept(headers: seq<Header>)
    requires forall i :: 0 <= i < |headers| ==> Fits(headers[i])
    ensures Kept(headers) == headers
  {
    hide Fits;
    if headers != [] {
      AllKept(headers[..|headers| - 1]);
    }
  }

  lemma PairEffects(f: Fields, h1: Header, h2: Header)
    requires HeaderEffect(f, h1).Some?
    ensures HeaderEffects(f, [h1, h2]) == HeaderEffect(HeaderEffect(f, h1).value, h2)
  {
    hide HeaderEffect;
    assert [h1, h2][..1] == [h1] && [h1][..0] == [];
    assert HeaderEffects(f, []) == Some(f);
    assert HeaderEffects(f, [h1]) == HeaderEffect(f, h1);
  }

  /** Read plainly with its length announced, a chunked body can start with the document, namely if
  the document looks like its own chunk size; but the message then ends before its last byte. */
  lemma LooksLikeItsChunk(cb: Callbacks, m: Machine, taken: nat)
    requires m.fields == Fields(StData, false, 5) && m.body == []
    ensures var document: bytes := [48, 48, 48, 48, 48];
      var tail := Chunks([document]) + LAST_CHUNK;
      Feed(cb, At(m, taken), tail)
      == Parse(m.(fields := Fields(StData, false, 0), body := document), [], taken + 5, Some(HE_NONE))
      && 5 < |tail|
  {
    var document: bytes := [48, 48, 48, 48, 48];
    var tail := Chunks([document]) + LAST_CHUNK;
    FiveInHex();
    assert Chunks([document]) == Chunk(document) by { ChunksSnoc([], document); assert [] + [document] == [document]; }
    assert tail[..5] == document;
    hide Feed, Chunks, Hex;
    FeedData(cb, m, taken, document);
    assert document + tail[5..] == tail && [] + document == document;
    FeedAppend(cb, At(m, taken), document, tail[5..]);
    FeedComplete(cb, Settle(At(TakeData(m, document), taken + 5)), tail[5..]);
  }

  lemma FiveInHex()
    ensures Hex(5, CHUNK_DIGITS)[..5] == [48, 48, 48, 48, 48]
  {
    assert Hex(0, 4) == [48, 48, 48, 48] && Hex(0, 5) == [48, 48, 48, 48, 48];
    assert Hex(5, 8) == Hex(0, 7) + [53] && Hex(0, 7) == Hex(0, 6) + [48] && Hex(0, 6) == Hex(0, 5) + [48];
  }

  /** Callbacks that accept everything and leave the size to the headers. */
  const PERMISSIVE: Callbacks := Callbacks(_ => HE_NONE, (_, _, _, size) => (HE_NONE, size))

  /** A receiver can stand behind an empty head with a byte of the body still in its buffer; a clean
  close at that moment counts as success, and the byte is lost. */
  lemma ByteLost() returns (input: bytes, here: Parse)
    ensures InSync(PERMISSIVE, input, here) && here.taken + 1 == |input|
    ensures here.m.fields.state == StData && here.m.fields.dataSize == SIZE_UNKNOWN
    ensures here.m.body == [] && Feed(PERMISSIVE, At(Reset, 0), input).m.body == [65]
  {
    var f := Fields(StHeaders, false, SIZE_UNKNOWN);
    var head := Head([], []);
    input := head + [65];
    assert Accepted(PERMISSIVE, [], [], f, SIZE_UNKNOWN);
    HeadReadsBack(PERMISSIVE, [], [], f, SIZE_UNKNOWN);
    here := At(Machine(Fields(StData, false, SIZE_UNKNOWN), Some([]), [], []), |head|);
    assert input[..|head|] == head;
    UnknownToPlain(PERMISSIVE, [], [], f, [65]);
  }
}
