/** What a stream of bytes means to the HTTP parser, one byte at a time.

`Feed` is the reference: it consumes a byte string left to right, with no buffer, no partial
writes and no interruptions.  The buffered parser (HttpParser.dfy) and the receive loop
(HttpReceive.dfy) are proved to agree with it however the bytes are split up. */
module HttpWire {
  import opened Bytes

  datatype HttpError =
    | HE_NONE | HE_PROTOCOL | HE_DISCONNECTED | HE_OVERFLOW | HE_CONNECT_FAILED | HE_SOCKET_ERROR
    | HE_SHUTDOWN | HE_OPERATION_CANCELLED | HE_AUTH | HE_CERTIFICATE_EXPIRED | HE_STREAM | HE_CACHE
    | HE_DEFAULT

  datatype State = StLeader | StHeaders | StChunkSize | StChunkTerm | StTrailers | StData

  /** The size of the buffer that HttpBase sends and receives through. */
  const BUFFER_SIZE: int := 32 * 1024

  const SIZE_UNKNOWN: int := 0xFFFF_FFFF_FFFF_FFFF

  /** A `size_t`; its largest value doubles as "unknown". */
  type Size = n: nat | n <= SIZE_UNKNOWN

  /** The three fields of the parser. */
  datatype Fields = Fields(state: State, chunked: bool, dataSize: Size)

  datatype Header = Header(name: bytes, value: bytes)

  /** A parser together with everything it has reported so far. */
  datatype Machine = Machine(fields: Fields, leader: Option<bytes>, headers: seq<Header>, body: bytes)

  /** The callbacks whose answers steer the parser: `parseLeader` judges the first line, and
  `onHeaderComplete` sees the headers and may overrule the body size. */
  datatype Callbacks = Callbacks(
    parseLeader: bytes -> HttpError,
    onHeaderComplete: (Option<bytes>, seq<Header>, bool, Size) -> (HttpError, Size))

  const Reset := Machine(Fields(StLeader, false, SIZE_UNKNOWN), None, [], [])

  // ---------- numbers ----------

  function DigitValue(b: byte): nat {
    if 48 <= b <= 57 then b - 48
    else if 65 <= b <= 90 then b - 55
    else if 97 <= b <= 122 then b - 87
    else 99
  }

  predicate IsDigit(b: byte, radix: nat) {
    DigitValue(b) < radix
  }

  /** The end of the run of digits that starts at `i`. */
  function DigitsEnd(s: bytes, i: nat, radix: nat): (e: nat)
    requires i <= |s|
    ensures i <= e <= |s|
    ensures forall k :: i <= k < e ==> IsDigit(s[k], radix)
    ensures e < |s| ==> !IsDigit(s[e], radix)
    decreases |s| - i
  {
    if i < |s| && IsDigit(s[i], radix) then DigitsEnd(s, i + 1, radix) else i
  }

  function DigitsValue(s: bytes, radix: nat): nat {
    if s == [] then 0 else DigitsValue(s[..|s| - 1], radix) * radix + DigitValue(s[|s| - 1])
  }

  const ULONG_MAX: int := 0xFFFF_FFFF_FFFF_FFFF

  /** `strtoul`: the value, and where the conversion stopped (0 when nothing was converted). */
  function Strtoul(s: bytes, radix: nat): (r: (Size, nat))
    ensures r.1 <= |s|
  {
    var start := |s| - |TrimLeft(s)|;
    var negative := start < |s| && s[start] == 45;
    var unsigned := if start < |s| && (s[start] == 45 || s[start] == 43) then start + 1 else start;
    var first :=
      if radix == 16 && unsigned + 2 < |s| && s[unsigned] == 48 && Lower(s[unsigned + 1]) == 120
         && IsDigit(s[unsigned + 2], 16)
      then unsigned + 2 else unsigned;
    var end := DigitsEnd(s, first, radix);
    var value := DigitsValue(s[first..end], radix);
    if end == first then (0, 0)
    else if value > ULONG_MAX then (ULONG_MAX, end)
    else if negative && value > 0 then (ULONG_MAX + 1 - value, end)
    else (value, end)
  }

  // ---------- one line ----------

  /** `strchrn(line, len, ':')`: the first colon, not looking past a NUL. */
  function FindColon(line: bytes, i: nat := 0): (r: Option<nat>)
    requires i <= |line|
    ensures r.Some? ==> i <= r.value < |line| && line[r.value] == COLON
    ensures r.Some? ==> forall k :: i <= k < r.value ==> line[k] != COLON && line[k] != 0
    decreases |line| - i
  {
    if i == |line| || line[i] == 0 then None
    else if line[i] == COLON then Some(i)
    else FindColon(line, i + 1)
  }

  const CONTENT_LENGTH: bytes := Ascii("Content-Length")
  const TRANSFER_ENCODING: bytes := Ascii("Transfer-Encoding")
  const CHUNKED: bytes := Ascii("chunked")
  const IDENTITY: bytes := Ascii("identity")

  /** What one header does to the parser's fields; None is a protocol error. */
  function HeaderEffect(f: Fields, h: Header): (r: Option<Fields>)
    ensures r.Some? ==> r.value.state == f.state
  {
    if EqualsIgnoreCase(h.name, CONTENT_LENGTH) then
      var (value, end) := Strtoul(h.value, 10);
      if end == 0 then None else Some(f.(dataSize := value % 0x1_0000_0000))
    else if EqualsIgnoreCase(h.name, TRANSFER_ENCODING) then
      if EqualsIgnoreCase(h.value, CHUNKED) then Some(f.(chunked := true))
      else if EqualsIgnoreCase(h.value, IDENTITY) then Some(f.(chunked := false))
      else None
    else Some(f)
  }

  /** A machine after one more line, and the error the message completes with, if it does. */
  datatype LineResult = LineResult(m: Machine, status: Option<HttpError>)

  function Unless(e: HttpError): Option<HttpError> {
    if e == HE_NONE then None else Some(e)
  }

  function LeaderStep(cb: Callbacks, m: Machine, line: bytes): LineResult {
    LineResult(m.(fields := m.fields.(state := StHeaders), leader := Some(line)), Unless(cb.parseLeader(line)))
  }

  /** `name: value`, cut at the first colon. */
  function SplitHeader(line: bytes): Option<Header> {
    match FindColon(line)
    case None => None
    case Some(colon) => Some(Header(line[..colon], TrimLeft(line[colon + 1..])))
  }

  function HeaderStep(m: Machine, line: bytes): LineResult {
    match SplitHeader(line)
    case None => LineResult(m, Some(HE_PROTOCOL))
    case Some(h) =>
      match HeaderEffect(m.fields, h)
      case None => LineResult(m, Some(HE_PROTOCOL))
      case Some(f) => LineResult(m.(fields := f, headers := m.headers + [h]), None)
  }

  function HeadersEndStep(cb: Callbacks, m: Machine): LineResult {
    var f := m.fields;
    var (e, size) := cb.onHeaderComplete(m.leader, m.headers, f.chunked, f.dataSize);
    LineResult(m.(fields := Fields(if f.chunked then StChunkSize else StData, f.chunked, size)), Unless(e))
  }

  function ChunkSizeStep(m: Machine, line: bytes): LineResult {
    var (size, end) := Strtoul(line, 16);
    if line == [] then LineResult(m, Some(HE_PROTOCOL))
    else if end != |line| then LineResult(m.(fields := m.fields.(dataSize := size)), Some(HE_PROTOCOL))
    else
      LineResult(m.(fields := m.fields.(state := if size == 0 then StTrailers else StData, dataSize := size)), None)
  }

  function ChunkTermStep(m: Machine, line: bytes): LineResult {
    if line != [] then LineResult(m, Some(HE_PROTOCOL))
    else LineResult(m.(fields := m.fields.(state := if m.fields.chunked then StChunkSize else StData)), None)
  }

  /** The meaning of one complete line (already trimmed), outside the body. */
  function LineStep(cb: Callbacks, m: Machine, line: bytes): LineResult
    requires m.fields.state != StData
  {
    match m.fields.state
    case StLeader => LeaderStep(cb, m, line)
    case StHeaders => if line == [] then HeadersEndStep(cb, m) else HeaderStep(m, line)
    case StChunkSize => ChunkSizeStep(m, line)
    case StChunkTerm => ChunkTermStep(m, line)
    case StTrailers => LineResult(m, if line == [] then Some(HE_NONE) else None)
  }

  // ---------- one byte ----------

  /** A parse in progress: the machine, the line being collected, the bytes taken so far, and the
  final error once the message is complete (HE_NONE for success). */
  datatype Parse = Parse(m: Machine, line: bytes, taken: nat, status: Option<HttpError>)

  /** Between lines, nothing pending. */
  function At(m: Machine, taken: nat): Parse {
    Parse(m, [], taken, None)
  }

  /** The transitions that need no input: an exhausted chunk or body. */
  function Settle(w: Parse): Parse {
    if w.status.None? && w.m.fields.state == StData && w.m.fields.dataSize == 0 then
      if w.m.fields.chunked then w.(m := w.m.(fields := w.m.fields.(state := StChunkTerm)))
      else w.(status := Some(HE_NONE))
    else w
  }

  function AfterLine(cb: Callbacks, m: Machine, line: bytes, taken: nat): Parse
    requires m.fields.state != StData
  {
    var r := LineStep(cb, m, TrimRight(line));
    Settle(Parse(r.m, [], taken, r.status))
  }

  function Shrink(size: Size, n: nat): Size
    requires n <= size
  {
    if size == SIZE_UNKNOWN then size else size - n
  }

  function TakeData(m: Machine, data: bytes): Machine
    requires |data| <= m.fields.dataSize
  {
    m.(fields := m.fields.(dataSize := Shrink(m.fields.dataSize, |data|)), body := m.body + data)
  }

  function FeedByte(cb: Callbacks, w: Parse, b: byte): Parse {
    if w.status.Some? then w
    else if w.m.fields.state == StData then
      if w.m.fields.dataSize == 0 then w  // never after Settle
      else Settle(w.(m := TakeData(w.m, [b]), taken := w.taken + 1))
    else if b == LF then AfterLine(cb, w.m, w.line, w.taken + 1)
    else w.(line := w.line + [b], taken := w.taken + 1)
  }

  /** The reference parser. */
  function Feed(cb: Callbacks, w: Parse, input: bytes): Parse {
    if input == [] then w
    else FeedByte(cb, Feed(cb, w, input[..|input| - 1]), input[|input| - 1])
  }

  lemma FeedNothing(cb: Callbacks, w: Parse)
    ensures Feed(cb, w, []) == w
  {
  }

  lemma {:induction false} FeedAppend(cb: Callbacks, w: Parse, a: bytes, b: bytes)
    ensures Feed(cb, w, a + b) == Feed(cb, Feed(cb, w, a), b)
  {
    hide FeedByte;
    if b == [] {
      assert a + b == a;
    } else {
      var init := b[..|b| - 1];
      FeedAppend(cb, w, a, init);
      assert (a + b)[..|a + b| - 1] == a + init;
    }
  }

  lemma FeedExtend(cb: Callbacks, w: Parse, input: bytes, start: nat, more: bytes)
    requires start + |more| <= |input| && more == input[start..start + |more|]
    ensures Feed(cb, w, input[..start + |more|]) == Feed(cb, Feed(cb, w, input[..start]), more)
  {
    hide Feed;
    FeedAppend(cb, w, input[..start], more);
    assert input[..start] + more == input[..start + |more|];
  }

  /** Once complete, a parse takes nothing more. */
  lemma {:induction false} FeedComplete(cb: Callbacks, w: Parse, input: bytes)
    requires w.status.Some?
    ensures Feed(cb, w, input) == w
  {
    if input != [] {
      FeedComplete(cb, w, input[..|input| - 1]);
    }
  }

  /** An unfinished line is only collected. */
  lemma {:induction false} FeedPartialLine(cb: Callbacks, w: Parse, input: bytes)
    requires w.status.None? && w.m.fields.state != StData
    requires LF !in input
    ensures Feed(cb, w, input) == w.(line := w.line + input, taken := w.taken + |input|)
  {
    if input == [] {
      assert w.line + input == w.line;
    } else {
      var init := input[..|input| - 1];
      FeedPartialLine(cb, w, init);
      assert w.line + init + [input[|input| - 1]] == w.line + input;
    }
  }

  lemma FeedLine(cb: Callbacks, m: Machine, taken: nat, line: bytes)
    requires m.fields.state != StData && LF !in line
    ensures Feed(cb, At(m, taken), line + [LF]) == AfterLine(cb, m, line, taken + |line| + 1)
  {
    var w := Feed(cb, At(m, taken), line);
    assert w == Parse(m, line, taken + |line|, None) by {
      FeedPartialLine(cb, At(m, taken), line);
      assert [] + line == line;
    }
    var input := line + [LF];
    assert input[..|input| - 1] == line && input[|input| - 1] == LF;
    assert Feed(cb, At(m, taken), input) == FeedByte(cb, w, LF);
  }

  /** Body bytes that fit in the announced size are taken as they are. */
  lemma {:induction false} FeedData(cb: Callbacks, m: Machine, taken: nat, data: bytes)
    requires m.fields.state == StData && 0 < m.fields.dataSize && |data| <= m.fields.dataSize
    ensures Feed(cb, At(m, taken), data) == Settle(At(TakeData(m, data), taken + |data|))
  {
    if data == [] {
      assert m.body + data == m.body;
    } else {
      var init := data[..|data| - 1];
      FeedData(cb, m, taken, init);
      assert m.body + init + [data[|data| - 1]] == m.body + data;
    }
  }
}
