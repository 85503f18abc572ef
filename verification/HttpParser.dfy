/** The buffered HTTP parser: `HttpParser::Process` and the document it writes to. */
module HttpParsing {
  import opened Bytes
  import opened HttpWire

  datatype ProcessResult = PR_CONTINUE | PR_BLOCK | PR_COMPLETE

  datatype StreamResult = SR_SUCCESS | SR_BLOCK | SR_EOS | SR_ERROR

  /** The document a body is written to.  How much of a write is accepted, and whether the stream
  blocks or fails, is up to the environment. */
  class DocumentSink {
    ghost var contents: bytes
    // How often it has blocked, and failed.
    ghost var blocks: nat
    ghost var failures: nat

    constructor ()
      ensures contents == []
    {
      contents, blocks, failures := [], 0, 0;
    }

    method Write(data: bytes) returns (result: StreamResult, written: nat)
      requires 0 < |data|
      modifies this
      ensures result == SR_SUCCESS ==> 0 < written <= |data| && contents == old(contents) + data[..written]
      ensures result != SR_SUCCESS ==> written == 0 && contents == old(contents)
      ensures blocks == old(blocks) + if result == SR_BLOCK then 1 else 0
      ensures failures == old(failures) + if result == SR_EOS || result == SR_ERROR then 1 else 0
    {
      if * {
        var n: nat :| 0 < n <= |data|;
        contents := contents + data[..n];
        return SR_SUCCESS, n;
      }
      result, written := *, 0;
      if result == SR_SUCCESS { result := SR_BLOCK; }
      if result == SR_BLOCK {
        blocks := blocks + 1;
      } else {
        failures := failures + 1;
      }
    }
  }

  class HttpParser {
    const cb: Callbacks
    const document: DocumentSink?
    var state: State
    var chunked: bool
    var dataSize: Size
    // What has been reported through the callbacks, and the bytes processed in all.
    var leader: Option<bytes>
    var headers: seq<Header>
    ghost var body: bytes
    ghost var total: nat

    constructor (cb: Callbacks, document: DocumentSink?)
      requires document != null ==> document.contents == []
      ensures this.cb == cb && this.document == document
      ensures Here() == At(Reset, 0) && InStep()
    {
      this.cb, this.document := cb, document;
      state, chunked, dataSize := StLeader, false, SIZE_UNKNOWN;
      leader, headers, body, total := None, [], [], 0;
    }

    ghost function M(): Machine
      reads this
    {
      Machine(Fields(state, chunked, dataSize), leader, headers, body)
    }

    ghost function Here(): Parse
      reads this
    {
      At(M(), total)
    }

    predicate InHead()
      reads this`state
    {
      state == StLeader || state == StHeaders
    }

    ghost function Blocks(): nat
      reads document
    {
      if document == null then 0 else document.blocks
    }

    ghost function Failures(): nat
      reads document
    {
      if document == null then 0 else document.failures
    }

    /** The document holds exactly the body reported so far. */
    ghost predicate InStep()
      reads this, document
    {
      document != null ==> document.contents == body
    }

    /** The outcome of a line, seen as a LineResult. */
    ghost function Outcome(result: ProcessResult, error: HttpError): LineResult
      reads this
    {
      LineResult(M(), if result == PR_COMPLETE then Some(error) else None)
    }

    /** A line `name: value`. */
    method ProcessHeaderLine(line: bytes) returns (result: ProcessResult, error: HttpError)
      modifies this
      ensures Outcome(result, error) == HeaderStep(old(M()), line)
      ensures result != PR_BLOCK && body == old(body) && total == old(total)
    {
      hide HeaderEffect, SplitHeader;
      result, error := PR_CONTINUE, HE_NONE;
      var split := SplitHeader(line);
      if split.None? {
        return PR_COMPLETE, HE_PROTOCOL;
      }
      var h := split.value;
      var effect := HeaderEffect(Fields(state, chunked, dataSize), h);
      if effect.None? {
        return PR_COMPLETE, HE_PROTOCOL;
      }
      chunked, dataSize := effect.value.chunked, effect.value.dataSize;
      headers := headers + [h];
    }

    /** The empty line after the headers.  The callback may hand the document to a new reader; the
    parser then asks to be interrupted, since its I/O model has just changed. */
    method ProcessHeadersEnd() returns (result: ProcessResult, error: HttpError)
      modifies this
      ensures Outcome(result, error) == HeadersEndStep(cb, old(M()))
      ensures body == old(body) && total == old(total)
    {
      result := PR_CONTINUE;
      var answer := cb.onHeaderComplete(leader, headers, chunked, dataSize);
      state := if chunked then StChunkSize else StData;
      error, dataSize := answer.0, answer.1;
      if error != HE_NONE {
        result := PR_COMPLETE;
      } else if * {
        result := PR_BLOCK;
      }
    }

    method ProcessChunkSize(line: bytes) returns (result: ProcessResult, error: HttpError)
      modifies this
      ensures Outcome(result, error) == ChunkSizeStep(old(M()), line)
      ensures result != PR_BLOCK && body == old(body) && total == old(total)
    {
      if |line| == 0 {
        return PR_COMPLETE, HE_PROTOCOL;
      }
      var converted := Strtoul(line, 16);
      dataSize := converted.0;
      if converted.1 != |line| {
        return PR_COMPLETE, HE_PROTOCOL;
      }
      state := if dataSize == 0 then StTrailers else StData;
      return PR_CONTINUE, HE_NONE;
    }

    /** `ProcessLine`: carries out LineStep. */
    method ProcessLine(line: bytes) returns (result: ProcessResult, error: HttpError)
      requires state != StData
      modifies this
      ensures Outcome(result, error) == LineStep(cb, old(M()), line)
      ensures result == PR_BLOCK ==> old(state) == StHeaders && line == [] && !InHead()
      ensures !old(InHead()) ==> !InHead()
      ensures body == old(body) && total == old(total)
    {
      result, error := PR_CONTINUE, HE_NONE;
      match state {
        case StLeader =>
          state := StHeaders;
          leader := Some(line);
          error := cb.parseLeader(line);
          if error != HE_NONE { result := PR_COMPLETE; }
        case StHeaders =>
          if |line| > 0 {
            result, error := ProcessHeaderLine(line);
          } else {
            result, error := ProcessHeadersEnd();
          }
        case StChunkSize =>
          result, error := ProcessChunkSize(line);
        case StChunkTerm =>
          if |line| > 0 {
            return PR_COMPLETE, HE_PROTOCOL;
          }
          state := if chunked then StChunkSize else StData;
        case StTrailers =>
          if |line| == 0 {
            return PR_COMPLETE, HE_NONE;
          }
      }
    }

    /** `ProcessData`. */
    method ProcessData(data: bytes) returns (result: ProcessResult, read: nat, error: HttpError)
      requires state == StData && 0 < |data| <= dataSize && InStep()
      modifies this`body, document
      ensures InStep()
      ensures result == PR_CONTINUE ==> 0 < read <= |data| && body == old(body) + data[..read]
      ensures result != PR_CONTINUE ==> body == old(body)
      ensures result == PR_COMPLETE ==> error == HE_STREAM
      ensures Blocks() == old(Blocks()) + if result == PR_BLOCK then 1 else 0
      ensures Failures() == old(Failures()) + if result == PR_COMPLETE then 1 else 0
    {
      error := HE_NONE;
      if document == null {
        body := body + data;
        assert data[..|data|] == data;
        return PR_CONTINUE, |data|, HE_NONE;
      }
      var r, n := document.Write(data);
      read := n;
      match r {
        case SR_SUCCESS => result := PR_CONTINUE; body := body + data[..n];
        case SR_BLOCK => result := PR_BLOCK;
        case SR_EOS => result, error := PR_COMPLETE, HE_STREAM;
        case SR_ERROR => result, error := PR_COMPLETE, HE_STREAM;
      }
    }

    /** One round of the loop in `Process`, outside the body: the line `raw` and its newline. */
    method TakeLine(raw: bytes) returns (result: ProcessResult, error: HttpError)
      requires state != StData && LF !in raw && InStep()
      modifies this
      ensures InStep() && total == old(total) + |raw| + 1
      ensures result == PR_BLOCK ==> old(InHead()) && !InHead()
      ensures !old(InHead()) ==> !InHead()
      ensures Feed(cb, old(Here()), raw + [LF])
              == if result == PR_COMPLETE then Here().(status := Some(error)) else Settle(Here())
    {
      FeedLine(cb, M(), total, raw);
      hide LineStep, Feed;
      result, error := ProcessLine(TrimRight(raw));
      total := total + |raw| + 1;
    }

    /** The same, for the line of the buffer from `start` up to the newline at `pos`. */
    method TakeLineOf(buffer: bytes, start: nat, pos: nat, ghost w0: Parse)
      returns (result: ProcessResult, error: HttpError)
      requires state != StData && InStep() && start <= pos < |buffer|
      requires LF !in buffer[start..pos] && buffer[pos] == LF
      requires Feed(cb, w0, buffer[..start]) == Settle(Here())
      modifies this
      ensures InStep() && total == old(total) + (pos + 1 - start)
      ensures result == PR_BLOCK ==> old(InHead()) && !InHead()
      ensures !old(InHead()) ==> !InHead()
      ensures Feed(cb, w0, buffer[..pos + 1])
              == if result == PR_COMPLETE then Here().(status := Some(error)) else Settle(Here())
    {
      hide Feed, HttpParser.InHead;
      var raw := buffer[start..pos];
      FeedExtend(cb, w0, buffer, start, raw + [LF]);
      result, error := TakeLine(raw);
    }

    /** An exhausted chunk. */
    method EndChunk()
      requires state == StData && dataSize == 0 && chunked
      modifies this`state
      ensures state == StChunkTerm && Settle(Here()) == old(Settle(Here()))
    {
      state := StChunkTerm;
    }

    /** One round of the loop in `Process`, inside the body. */
    method TakeBody(data: bytes) returns (read: nat, result: ProcessResult, error: HttpError)
      requires state == StData && 0 < |data| <= dataSize && InStep()
      modifies this, document
      ensures InStep() && read <= |data| && total == old(total) + read && state == old(state)
      ensures Blocks() == old(Blocks()) + if result == PR_BLOCK then 1 else 0
      ensures Failures() == old(Failures()) + if result == PR_COMPLETE then 1 else 0
      ensures result == PR_CONTINUE ==> 0 < read && Feed(cb, old(Here()), data[..read]) == Settle(Here())
      ensures result != PR_CONTINUE ==> read == 0 && Here() == old(Here())
      ensures result == PR_COMPLETE ==> error == HE_STREAM
    {
      hide Feed;
      ghost var before := M();
      result, read, error := ProcessData(data);
      if result != PR_CONTINUE {
        return 0, result, error;
      }
      FeedData(cb, before, total, data[..read]);
      if dataSize != SIZE_UNKNOWN {
        dataSize := dataSize - read;
      }
      total := total + read;
    }

    /** The same, with the bytes of the body that the buffer has from `start` on. */
    method TakeAvailable(buffer: bytes, start: nat, ghost w0: Parse)
      returns (read: nat, result: ProcessResult, error: HttpError)
      requires state == StData && 0 < dataSize && start < |buffer| <= SIZE_UNKNOWN && InStep()
      requires Feed(cb, w0, buffer[..start]) == Settle(Here())
      modifies this, document
      ensures InStep() && start + read <= |buffer| && total == old(total) + read && state == old(state)
      ensures Feed(cb, w0, buffer[..start + read]) == Settle(Here())
      ensures Blocks() == old(Blocks()) + if result == PR_BLOCK then 1 else 0
      ensures Failures() == old(Failures()) + if result == PR_COMPLETE then 1 else 0
      ensures if result == PR_CONTINUE then 0 < read else read == 0
      ensures result == PR_COMPLETE ==> error == HE_STREAM
    {
      hide Feed, HttpParser.Blocks, HttpParser.Failures;
      var available := |buffer| - start;
      if dataSize != SIZE_UNKNOWN && available > dataSize {
        available := dataSize;
      }
      var data := buffer[start..start + available];
      read, result, error := TakeBody(data);
      FeedExtend(cb, w0, buffer, start, data[..read]);
      if result != PR_CONTINUE {
        assert buffer[..start + read] == buffer[..start];
      }
    }

    /** The end of the line that starts at `start`, or of the buffer. */
    method FindNewline(buffer: bytes, start: nat) returns (pos: nat)
      requires start <= |buffer|
      ensures start <= pos <= |buffer| && LF !in buffer[start..pos]
      ensures pos < |buffer| ==> buffer[pos] == LF
    {
      pos := start;
      while pos < |buffer| && buffer[pos] != LF
        invariant start <= pos <= |buffer|
        invariant LF !in buffer[start..pos]
      {
        pos := pos + 1;
      }
    }

    /** `Process`: whatever it consumes, it consumes as the reference parser would; when it asks
    for more, what is left is an unfinished line or nothing; it is interrupted only by the document
    or at the end of the headers. */
    method Process(buffer: bytes) returns (processed: nat, result: ProcessResult, error: HttpError)
      requires InStep() && |buffer| <= SIZE_UNKNOWN
      modifies this, document
      ensures InStep() && processed <= |buffer| && total == old(total) + processed
      ensures !old(InHead()) ==> !InHead()
      ensures result == PR_BLOCK ==> Blocks() > old(Blocks()) || (old(InHead()) && !InHead())
      ensures Blocks() >= old(Blocks()) && Failures() >= old(Failures())
      ensures var w := Feed(cb, Settle(old(Here())), buffer[..processed]);
        match result
        case PR_CONTINUE => w == Settle(Here()) == Here() && LF !in buffer[processed..] &&
                            (state == StData ==> processed == |buffer|)
        case PR_BLOCK => w == Settle(Here())
        case PR_COMPLETE => w == Here().(status := Some(error)) ||
                            (w == Settle(Here()) && error == HE_STREAM && Failures() > old(Failures()))
    {
      hide Feed, HttpParser.Blocks, HttpParser.Failures;
      processed, error := 0, HE_NONE;
      ghost var w0 := Settle(Here());
      FeedNothing(cb, w0);
      while true
        invariant InStep() && processed <= |buffer| && total == old(total) + processed
        invariant Blocks() == old(Blocks()) && Failures() == old(Failures())
        invariant !old(InHead()) ==> !InHead()
        invariant Feed(cb, w0, buffer[..processed]) == Settle(Here())
        decreases |buffer| - processed, state == StData
      {
        if state != StData {
          var pos := FindNewline(buffer, processed);
          if pos >= |buffer| {
            return processed, PR_CONTINUE, HE_NONE;
          }
          result, error := TakeLineOf(buffer, processed, pos, w0);
          processed := pos + 1;
          if result != PR_CONTINUE {
            return;
          }
        } else if dataSize == 0 {
          if chunked {
            EndChunk();
          } else {
            return processed, PR_COMPLETE, HE_NONE;
          }
        } else {
          if |buffer| - processed <= 0 {
            return processed, PR_CONTINUE, HE_NONE;
          }
          var read;
          read, result, error := TakeAvailable(buffer, processed, w0);
          processed := processed + read;
          if result != PR_CONTINUE {
            return;
          }
        }
      }
    }
  }
}
