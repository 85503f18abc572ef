/** What a sender puts on the wire, and that the parser reads it back.

The encoding is the chunked transfer coding of section 3.6.1 of RFC 2616 and section 4.1 of
RFC 7230, with the chunk sizes written as eight hexadecimal digits. */
module HttpEncode {
  import opened Bytes
  import opened HttpWire

  const CHUNK_DIGITS: nat := 8

  // ---------- the encoding ----------

  function HexDigit(d: nat): byte
    requires d < 16
  {
    if d < 10 then 48 + d else 87 + d
  }

  /** `%.*x` with `digits` digits. */
  function Hex(n: nat, digits: nat): (r: bytes)
    ensures |r| == digits
  {
    if digits == 0 then [] else Hex(n / 16, digits - 1) + [HexDigit(n % 16)]
  }

  function Chunk(piece: bytes): bytes {
    Hex(|piece|, CHUNK_DIGITS) + CRLF + piece + CRLF
  }

  function Chunks(pieces: seq<bytes>): bytes {
    if pieces == [] then [] else Chunks(pieces[..|pieces| - 1]) + Chunk(pieces[|pieces| - 1])
  }

  /** The empty chunk and the empty trailers. */
  const LAST_CHUNK: bytes := [48, 13, 10, 13, 10]

  /** `%.*s` stops at a NUL. */
  function UpToNul(s: bytes): (r: bytes)
    ensures r <= s && 0 !in r
    ensures 0 !in s ==> r == s
  {
    if s == [] || s[0] == 0 then [] else [s[0]] + UpToNul(s[1..])
  }

  function HeaderLine(h: Header): bytes {
    UpToNul(h.name) + [COLON, SPACE] + UpToNul(h.value) + CRLF
  }

  /** A longer header line never fits into the send buffer and is discarded. */
  predicate Fits(h: Header) {
    |HeaderLine(h)| < BUFFER_SIZE - 3
  }

  function Kept(headers: seq<Header>): seq<Header> {
    if headers == [] then []
    else
      var init, last := Kept(headers[..|headers| - 1]), headers[|headers| - 1];
      if Fits(last) then init + [last] else init
  }

  function HeaderLines(headers: seq<Header>): bytes {
    if headers == [] then []
    else HeaderLines(headers[..|headers| - 1]) + HeaderLine(headers[|headers| - 1])
  }

  lemma KeptSnoc(headers: seq<Header>, k: nat)
    requires k < |headers|
    ensures Kept(headers[..k + 1]) == if Fits(headers[k]) then Kept(headers[..k]) + [headers[k]] else Kept(headers[..k])
    ensures HeaderLines(Kept(headers[..k + 1]))
            == if Fits(headers[k]) then HeaderLines(Kept(headers[..k])) + HeaderLine(headers[k])
               else HeaderLines(Kept(headers[..k]))
  {
    assert headers[..k + 1][..k] == headers[..k];
    var kept := Kept(headers[..k]);
    assert (kept + [headers[k]])[..|kept|] == kept;
  }

  lemma ChunksSnoc(pieces: seq<bytes>, piece: bytes)
    ensures Chunks(pieces + [piece]) == Chunks(pieces) + Chunk(piece)
  {
    assert (pieces + [piece])[..|pieces|] == pieces;
  }

  /** A whole message with a chunked body. */
  function ChunkedMessage(leader: bytes, headers: seq<Header>, pieces: seq<bytes>): bytes {
    leader + CRLF + HeaderLines(headers) + CRLF + Chunks(pieces) + LAST_CHUNK
  }

  /** A whole message whose body is sent as it is. */
  function PlainMessage(leader: bytes, headers: seq<Header>, body: bytes): bytes {
    leader + CRLF + HeaderLines(headers) + CRLF + body
  }

  // ---------- numbers read back ----------

  function Pow16(k: nat): nat {
    if k == 0 then 1 else 16 * Pow16(k - 1)
  }

  lemma {:induction false} HexReadsBack(n: nat, digits: nat)
    requires n < Pow16(digits)
    ensures DigitsValue(Hex(n, digits), 16) == n
    ensures forall k :: 0 <= k < digits ==> IsDigit(Hex(n, digits)[k], 16)
  {
    if digits > 0 {
      assert n / 16 < Pow16(digits - 1);
      HexReadsBack(n / 16, digits - 1);
      var r := Hex(n, digits);
      assert r[..|r| - 1] == Hex(n / 16, digits - 1);
    }
  }

  lemma NothingTrimmed(s: bytes)
    requires s != [] ==> !IsSpace(s[0])
    ensures TrimLeft(s) == s
  {
  }

  /** `strtoul` of a string without white space, sign or radix prefix in front. */
  lemma StrtoulPlain(s: bytes, radix: nat, end: nat)
    requires s != [] ==> !IsSpace(s[0]) && s[0] != 45 && s[0] != 43
    requires radix == 16 && |s| > 1 ==> Lower(s[1]) != 120
    requires end == DigitsEnd(s, 0, radix)
    ensures var value := DigitsValue(s[0..end], radix);
      Strtoul(s, radix) == if end == 0 then (0, 0) else (if value > ULONG_MAX then ULONG_MAX else value, end)
  {
    NothingTrimmed(s);
    hide DigitsValue, DigitsEnd, TrimLeft, IsSpace, IsDigit, Lower;
  }

  lemma AllDigits(s: bytes, radix: nat)
    requires forall k :: 0 <= k < |s| ==> IsDigit(s[k], radix)
    ensures DigitsEnd(s, 0, radix) == |s| && s[0..|s|] == s
  {
    hide IsDigit;
  }

  /** `strtoul` takes a string of digits as the number it spells, and reads all of it. */
  lemma StrtoulOfDigits(s: bytes)
    requires s != [] && (forall k :: 0 <= k < |s| ==> IsDigit(s[k], 16))
    requires DigitsValue(s, 16) <= ULONG_MAX
    ensures Strtoul(s, 16) == (DigitsValue(s, 16), |s|)
  {
    assert IsDigit(s[0], 16) && (|s| > 1 ==> IsDigit(s[1], 16));
    AllDigits(s, 16);
    hide DigitsValue, DigitsEnd, Strtoul;
    StrtoulPlain(s, 16, |s|);
  }

  lemma ChunkDigits(n: nat)
    requires n < 0x1_0000_0000
    ensures var s := Hex(n, CHUNK_DIGITS);
      DigitsValue(s, 16) == n && forall k :: 0 <= k < CHUNK_DIGITS ==> IsDigit(s[k], 16)
  {
    hide Hex, DigitsValue, IsDigit;
    assert Pow16(4) == 0x1_0000;
    assert Pow16(8) == 16 * (16 * (16 * (16 * Pow16(4))));
    HexReadsBack(n, CHUNK_DIGITS);
  }

  /** `strtoul` reads a chunk size back, and reads all of it. */
  lemma ChunkSizeReadsBack(n: nat)
    requires n < 0x1_0000_0000
    ensures Strtoul(Hex(n, CHUNK_DIGITS), 16) == (n, CHUNK_DIGITS)
  {
    hide Hex, DigitsValue, Strtoul, IsDigit;
    ChunkDigits(n);
    StrtoulOfDigits(Hex(n, CHUNK_DIGITS));
  }

  // ---------- lines read back ----------

  lemma {:induction false} TrimRightOfSpaces(s: bytes, spaces: bytes)
    requires s == [] || !IsSpace(s[|s| - 1])
    requires forall k :: 0 <= k < |spaces| ==> IsSpace(spaces[k])
    ensures TrimRight(s + spaces) == s
  {
    if spaces == [] {
      assert s + spaces == s;
    } else {
      var init := spaces[..|spaces| - 1];
      TrimRightOfSpaces(s, init);
      assert (s + spaces)[..|s + spaces| - 1] == s + init;
    }
  }

  /** Feeding a line that ends in CR LF. */
  lemma FeedCrLf(cb: Callbacks, m: Machine, taken: nat, line: bytes)
    requires m.fields.state != StData && LF !in line
    requires line == [] || !IsSpace(line[|line| - 1])
    ensures var r := LineStep(cb, m, line);
      Feed(cb, At(m, taken), line + CRLF) == Settle(Parse(r.m, [], taken + |line| + 2, r.status))
  {
    hide LineStep, Feed;
    var raw := line + [CR];
    TrimRightOfSpaces(line, [CR]);
    FeedLine(cb, m, taken, raw);
    assert raw + [LF] == line + CRLF;
  }

  // ---------- the body read back ----------

  /** Between chunks: the machine `m` with `body` collected. */
  function BetweenChunks(m: Machine, size: Size, body: bytes): Machine {
    m.(fields := Fields(StChunkSize, true, size), body := body)
  }

  ghost predicate GoodPieces(pieces: seq<bytes>) {
    forall i :: 0 <= i < |pieces| ==> 0 < |pieces[i]| < 0x1_0000_0000
  }

  lemma ChunkReadsBack(cb: Callbacks, m: Machine, size: Size, body: bytes, taken: nat, piece: bytes)
    requires 0 < |piece| < 0x1_0000_0000
    ensures Feed(cb, At(BetweenChunks(m, size, body), taken), Chunk(piece))
            == At(BetweenChunks(m, 0, body + piece), taken + |Chunk(piece)|)
  {
    hide Feed, Strtoul, Hex;
    var digits := Hex(|piece|, CHUNK_DIGITS);
    var m0 := BetweenChunks(m, size, body);
    var m1 := m0.(fields := Fields(StData, true, |piece|));
    var m2 := m0.(fields := Fields(StChunkTerm, true, 0), body := body + piece);
    var m3 := BetweenChunks(m, 0, body + piece);
    assert LF !in digits && !IsSpace(digits[7]) by {
      HexReadsBackDigits(|piece|);
    }
    assert Feed(cb, At(m0, taken), digits + CRLF) == At(m1, taken + 10) by {
      ChunkSizeReadsBack(|piece|);
      FeedCrLf(cb, m0, taken, digits);
    }
    assert Feed(cb, At(m1, taken + 10), piece) == At(m2, taken + 10 + |piece|) by {
      FeedData(cb, m1, taken + 10, piece);
    }
    assert Feed(cb, At(m2, taken + 10 + |piece|), CRLF) == At(m3, taken + 12 + |piece|) by {
      FeedCrLf(cb, m2, taken + 10 + |piece|, []);
      assert [] + CRLF == CRLF;
    }
    FeedAppend(cb, At(m0, taken), digits + CRLF, piece);
    FeedAppend(cb, At(m0, taken), digits + CRLF + piece, CRLF);
  }

  lemma HexReadsBackDigits(n: nat)
    requires n < 0x1_0000_0000
    ensures var digits := Hex(n, CHUNK_DIGITS); LF !in digits && !IsSpace(digits[7])
  {
    hide Hex, DigitsValue;
    ChunkDigits(n);
    var digits := Hex(n, CHUNK_DIGITS);
    assert IsDigit(digits[7], 16);
  }

  lemma {:induction false} ChunksReadBack(cb: Callbacks, m: Machine, size: Size, taken: nat, pieces: seq<bytes>)
    returns (left: Size)
    requires GoodPieces(pieces)
    ensures Feed(cb, At(BetweenChunks(m, size, []), taken), Chunks(pieces))
            == At(BetweenChunks(m, left, Concat(pieces)), taken + |Chunks(pieces)|)
  {
    hide Feed, Chunk;
    if pieces == [] {
      left := size;
      FeedNothing(cb, At(BetweenChunks(m, size, []), taken));
    } else {
      var init, last := pieces[..|pieces| - 1], pieces[|pieces| - 1];
      left := ChunksReadBack(cb, m, size, taken, init);
      ChunkReadsBack(cb, m, left, Concat(init), taken + |Chunks(init)|, last);
      FeedAppend(cb, At(BetweenChunks(m, size, []), taken), Chunks(init), Chunk(last));
      left := 0;
    }
  }

  lemma LastChunkReadsBack(cb: Callbacks, m: Machine, size: Size, body: bytes, taken: nat)
    ensures Feed(cb, At(BetweenChunks(m, size, body), taken), LAST_CHUNK)
            == Parse(m.(fields := Fields(StTrailers, true, 0), body := body), [], taken + 5, Some(HE_NONE))
  {
    hide Feed, Strtoul;
    var m0 := BetweenChunks(m, size, body);
    var m1 := m0.(fields := Fields(StTrailers, true, 0));
    assert Strtoul([48], 16) == (0, 1) by { ZeroReadsBack(); }
    FeedCrLf(cb, m0, taken, [48]);
    assert Feed(cb, At(m0, taken), [48] + CRLF) == At(m1, taken + 3);
    FeedCrLf(cb, m1, taken + 3, []);
    FeedAppend(cb, At(m0, taken), [48] + CRLF, [] + CRLF);
    assert [48] + CRLF + ([] + CRLF) == LAST_CHUNK;
  }

  lemma ZeroReadsBack()
    ensures Strtoul([48], 16) == (0, 1)
  {
    hide Strtoul, TrimLeft;
    var s: bytes := [48];
    assert IsDigit(s[0], 16);
    assert DigitsValue(s, 16) == 0 by {
      assert s[..0] == [] && DigitsValue(s[..0], 16) == 0;
    }
    StrtoulOfDigits(s);
  }

  // ---------- the head read back ----------

  /** A header whose text survives the trip: no colon, newline or NUL in the name; no newline, NUL
  or surrounding white space in the value. */
  predicate Clean(h: Header) {
    && COLON !in h.name && LF !in h.name && 0 !in h.name
    && LF !in h.value && 0 !in h.value
    && (h.value != [] ==> !IsSpace(h.value[0]) && !IsSpace(h.value[|h.value| - 1]))
  }

  lemma {:induction false} FindColonAfter(name: bytes, rest: bytes, i: nat)
    requires COLON !in name && 0 !in name && i <= |name|
    ensures FindColon(name + [COLON] + rest, i) == Some(|name|)
    decreases |name| - i
  {
    if i < |name| {
      FindColonAfter(name, rest, i + 1);
    }
  }

  /** The line of a header without its line end and trailing blank. */
  function HeaderText(h: Header): bytes {
    if h.value == [] then h.name + [COLON] else h.name + [COLON] + ([SPACE] + h.value)
  }

  lemma BlankTrimmed(value: bytes)
    requires value != [] ==> !IsSpace(value[0])
    ensures TrimLeft([SPACE] + value) == value
  {
    assert ([SPACE] + value)[1..] == value;
  }

  lemma HeaderSplitsBack(h: Header)
    requires Clean(h)
    ensures SplitHeader(HeaderText(h)) == Some(h)
  {
    hide FindColon, TrimLeft;
    var rest := if h.value == [] then [] else [SPACE] + h.value;
    var text := h.name + [COLON] + rest;
    assert text == HeaderText(h);
    FindColonAfter(h.name, rest, 0);
    assert text[..|h.name|] == h.name && text[|h.name| + 1..] == rest;
    BlankTrimmed(h.value);
  }

  lemma HeaderReadsBack(cb: Callbacks, m: Machine, taken: nat, h: Header, f: Fields)
    requires m.fields.state == StHeaders && Clean(h) && HeaderEffect(m.fields, h) == Some(f)
    ensures Feed(cb, At(m, taken), HeaderLine(h))
            == At(m.(fields := f, headers := m.headers + [h]), taken + |HeaderLine(h)|)
  {
    hide Feed, HeaderEffect;
    var text := HeaderText(h);
    var spaces := if h.value == [] then [SPACE, CR] else [CR];
    var raw := text + spaces;
    assert raw + [LF] == HeaderLine(h);
    assert LF !in raw;
    TrimRightOfSpaces(text, spaces);
    HeaderSplitsBack(h);
    FeedLine(cb, m, taken, raw);
    assert LineStep(cb, m, text) == HeaderStep(m, text);
  }

  /** What a list of headers does to the parser's fields. */
  function HeaderEffects(f: Fields, headers: seq<Header>): (r: Option<Fields>)
    ensures r.Some? ==> r.value.state == f.state
  {
    if headers == [] then Some(f)
    else
      match HeaderEffects(f, headers[..|headers| - 1])
      case None => None
      case Some(f') => HeaderEffect(f', headers[|headers| - 1])
  }

  lemma {:induction false} HeadersReadBack(cb: Callbacks, m: Machine, taken: nat, headers: seq<Header>)
    requires m.fields.state == StHeaders && m.headers == []
    requires forall i :: 0 <= i < |headers| ==> Clean(headers[i])
    requires HeaderEffects(m.fields, headers).Some?
    ensures Feed(cb, At(m, taken), HeaderLines(headers))
            == At(m.(fields := HeaderEffects(m.fields, headers).value, headers := headers),
                  taken + |HeaderLines(headers)|)
  {
    hide Feed, HeaderEffect, HeaderLine;
    if headers == [] {
      FeedNothing(cb, At(m, taken));
    } else {
      var init, last := headers[..|headers| - 1], headers[|headers| - 1];
      HeadersReadBack(cb, m, taken, init);
      var f := HeaderEffects(m.fields, init).value;
      var f' := HeaderEffects(m.fields, headers).value;
      var mid, n := m.(fields := f, headers := init), taken + |HeaderLines(init)|;
      assert Feed(cb, At(mid, n), HeaderLine(last))
             == At(mid.(fields := f', headers := headers), n + |HeaderLine(last)|)
      by {
        HeaderReadsBack(cb, mid, n, last, f');
        assert init + [last] == headers;
      }
      FeedAppend(cb, At(m, taken), HeaderLines(init), HeaderLine(last));
    }
  }

  /** The callbacks accept this head: the leader, then these headers, which leave the parser with
  fields `f`, and the body is allowed to start with the size `size`. */
  ghost predicate Accepted(cb: Callbacks, leader: bytes, headers: seq<Header>, f: Fields, size: Size) {
    && LF !in leader && (leader == [] || !IsSpace(leader[|leader| - 1]))
    && cb.parseLeader(leader) == HE_NONE
    && (forall i :: 0 <= i < |headers| ==> Clean(headers[i]))
    && HeaderEffects(Fields(StHeaders, false, SIZE_UNKNOWN), headers) == Some(f)
    && cb.onHeaderComplete(Some(leader), headers, f.chunked, f.dataSize) == (HE_NONE, size)
  }

  function Head(leader: bytes, headers: seq<Header>): bytes {
    leader + CRLF + HeaderLines(headers) + CRLF
  }

  lemma HeadReadsBack(cb: Callbacks, leader: bytes, headers: seq<Header>, f: Fields, size: Size)
    requires Accepted(cb, leader, headers, f, size)
    ensures Feed(cb, At(Reset, 0), Head(leader, headers))
            == Settle(At(Machine(Fields(if f.chunked then StChunkSize else StData, f.chunked, size),
                                 Some(leader), headers, []), |Head(leader, headers)|))
  {
    hide Feed, HeaderEffects, HeaderLines;
    var m1 := Reset.(fields := Fields(StHeaders, false, SIZE_UNKNOWN), leader := Some(leader));
    var m2 := m1.(fields := f, headers := headers);
    var n1 := |leader| + 2;
    var n2 := n1 + |HeaderLines(headers)|;
    assert Feed(cb, At(Reset, 0), leader + CRLF) == At(m1, n1) by {
      FeedCrLf(cb, Reset, 0, leader);
    }
    assert Feed(cb, At(m1, n1), HeaderLines(headers)) == At(m2, n2) by {
      HeadersReadBack(cb, m1, n1, headers);
    }
    FeedCrLf(cb, m2, n2, []);
    assert [] + CRLF == CRLF;
    FeedAppend(cb, At(Reset, 0), leader + CRLF, HeaderLines(headers));
    FeedAppend(cb, At(Reset, 0), leader + CRLF + HeaderLines(headers), CRLF);
  }

  // ---------- whole messages read back ----------

  /** The chunked round trip: a message the receiver accepts as chunked parses to exactly its
  leader, its headers and the concatenation of its pieces, with no byte left over. */
  lemma ChunkedRoundTrip(cb: Callbacks, leader: bytes, headers: seq<Header>, f: Fields, size: Size,
                         pieces: seq<bytes>)
    requires Accepted(cb, leader, headers, f, size) && f.chunked && GoodPieces(pieces)
    ensures var wire := ChunkedMessage(leader, headers, pieces);
      Feed(cb, At(Reset, 0), wire)
      == Parse(Machine(Fields(StTrailers, true, 0), Some(leader), headers, Concat(pieces)), [], |wire|, Some(HE_NONE))
  {
    hide Feed, HeaderEffects, HeaderLines, Chunks;
    var head := Head(leader, headers);
    HeadReadsBack(cb, leader, headers, f, size);
    var m := Machine(Fields(StChunkSize, true, size), Some(leader), headers, []);
    var left := ChunksReadBack(cb, m, size, |head|, pieces);
    LastChunkReadsBack(cb, m, left, Concat(pieces), |head| + |Chunks(pieces)|);
    FeedAppend(cb, At(Reset, 0), head, Chunks(pieces));
    FeedAppend(cb, At(Reset, 0), head + Chunks(pieces), LAST_CHUNK);
  }

  /** The plain round trip: with an announced size the message parses back to its body exactly when
  that size is the body's. */
  lemma PlainRoundTrip(cb: Callbacks, leader: bytes, headers: seq<Header>, f: Fields, size: Size, body: bytes)
    requires Accepted(cb, leader, headers, f, size) && !f.chunked && size < SIZE_UNKNOWN
    ensures var wire := PlainMessage(leader, headers, body);
      Feed(cb, At(Reset, 0), wire)
      == Parse(Machine(Fields(StData, false, 0), Some(leader), headers, body), [], |wire|, Some(HE_NONE))
      <==> size == |body|
    ensures var wire := PlainMessage(leader, headers, body);
      var w := Feed(cb, At(Reset, 0), wire);
      w.status == Some(HE_NONE) && w.taken == |wire| ==> size == |body|
  {
    hide Feed, HeaderEffects, HeaderLines;
    var head := Head(leader, headers);
    HeadReadsBack(cb, leader, headers, f, size);
    var m := Machine(Fields(StData, false, size), Some(leader), headers, []);
    FeedAppend(cb, At(Reset, 0), head, body);
    if size == 0 {
      FeedComplete(cb, Settle(At(m, |head|)), body);
    } else if |body| <= size {
      FeedData(cb, m, |head|, body);
      assert [] + body == body;
    } else {
      var mine, over := body[..size], body[size..];
      FeedData(cb, m, |head|, mine);
      assert mine + over == body && [] + mine == mine;
      FeedAppend(cb, At(m, |head|), mine, over);
      FeedComplete(cb, Settle(At(TakeData(m, mine), |head| + size)), over);
    }
  }

  /** Any headers without a length, of which exactly one declares a transfer coding, namely
  "chunked", make the parser expect chunks. */
  lemma {:induction false} OneChunkedHeader(headers: seq<Header>, k: nat)
    requires k < |headers|
    requires forall i :: 0 <= i < |headers| ==> !EqualsIgnoreCase(headers[i].name, CONTENT_LENGTH)
    requires forall i :: 0 <= i < |headers| ==> (EqualsIgnoreCase(headers[i].name, TRANSFER_ENCODING) <==> i == k)
    requires EqualsIgnoreCase(headers[k].value, CHUNKED)
    ensures HeaderEffects(Fields(StHeaders, false, SIZE_UNKNOWN), headers)
            == Some(Fields(StHeaders, true, SIZE_UNKNOWN))
  {
    hide EqualsIgnoreCase, Strtoul;
    NeutralHeaders(Fields(StHeaders, false, SIZE_UNKNOWN), headers[..k]);
    assert headers[..k + 1][..k] == headers[..k];
    LaterHeaders(headers, k, |headers|);
    assert headers[..|headers|] == headers;
  }

  lemma {:induction false} NeutralHeaders(f: Fields, headers: seq<Header>)
    requires forall i :: 0 <= i < |headers| ==> !EqualsIgnoreCase(headers[i].name, CONTENT_LENGTH)
    requires forall i :: 0 <= i < |headers| ==> !EqualsIgnoreCase(headers[i].name, TRANSFER_ENCODING)
    ensures HeaderEffects(f, headers) == Some(f)
  {
    hide EqualsIgnoreCase, Strtoul;
    if headers != [] {
      NeutralHeaders(f, headers[..|headers| - 1]);
    }
  }

  lemma {:induction false} LaterHeaders(headers: seq<Header>, k: nat, n: nat)
    requires k < n <= |headers|
    requires forall i :: k < i < n ==> !EqualsIgnoreCase(headers[i].name, CONTENT_LENGTH)
    requires forall i :: k < i < n ==> !EqualsIgnoreCase(headers[i].name, TRANSFER_ENCODING)
    requires HeaderEffects(Fields(StHeaders, false, SIZE_UNKNOWN), headers[..k + 1])
             == Some(Fields(StHeaders, true, SIZE_UNKNOWN))
    ensures HeaderEffects(Fields(StHeaders, false, SIZE_UNKNOWN), headers[..n])
            == Some(Fields(StHeaders, true, SIZE_UNKNOWN))
  {
    hide EqualsIgnoreCase, Strtoul;
    if n > k + 1 {
      LaterHeaders(headers, k, n - 1);
      assert headers[..n][..n - 1] == headers[..n - 1];
    }
  }

  /** Heads that a receiver accepts as chunked: any single-line leader, and one transfer coding. */
  lemma ChunkedHeadHappens(cb: Callbacks, leader: bytes)
    requires LF !in leader && (leader == [] || !IsSpace(leader[|leader| - 1]))
    requires cb.parseLeader(leader) == HE_NONE
    requires forall headers :: cb.onHeaderComplete(Some(leader), headers, true, SIZE_UNKNOWN) == (HE_NONE, SIZE_UNKNOWN)
    ensures var headers := [Header(TRANSFER_ENCODING, CHUNKED)];
      Accepted(cb, leader, headers, Fields(StHeaders, true, SIZE_UNKNOWN), SIZE_UNKNOWN)
  {
    var headers := [Header(TRANSFER_ENCODING, CHUNKED)];
    assert |TRANSFER_ENCODING| == 17 && |CONTENT_LENGTH| == 14;
    OneChunkedHeader(headers, 0);
    hide HeaderEffects;
    assert Clean(headers[0]) by {
      assert forall i :: 0 <= i < |TRANSFER_ENCODING| ==> TRANSFER_ENCODING[i] > COLON || TRANSFER_ENCODING[i] == 45;
      assert forall i :: 0 <= i < |CHUNKED| ==> CHUNKED[i] > COLON;
    }
  }
}
