/** The receive side of `HttpBase`: a 32 KB sliding buffer between the network and the parser. */
module HttpReceive {
  import opened Bytes
  import opened HttpWire
  import opened HttpParsing

  const MAX_READ_COUNT: int := 20
  const SOCKET_EACCES: int := 13
  const SEC_E_CERT_EXPIRED: int := -2146893016

  /** The network stream.  It delivers whatever it likes, in whatever pieces it likes. */
  class NetworkSource {
    ghost var delivered: bytes
    // How often it was read, and what the last read said of its end.
    ghost var polls: nat
    ghost var end: Option<int>

    method Read(room: nat) returns (result: StreamResult, data: bytes, error: int)
      requires 0 < room
      modifies this
      ensures result == SR_SUCCESS ==> 0 < |data| <= room
      ensures result == SR_SUCCESS ==> delivered == old(delivered) + data
      ensures result != SR_SUCCESS ==> delivered == old(delivered)
      ensures polls == old(polls) + 1
      ensures end == match result
                     case SR_EOS => Some(0)
                     case SR_ERROR => Some(error)
                     case _ => None
    {
      polls, end := polls + 1, None;
      error := *;
      if * {
        data := *;
        if 0 < |data| <= room {
          delivered := delivered + data;
          return SR_SUCCESS, data, error;
        }
      }
      result, data := *, [];
      if result == SR_SUCCESS { result := SR_BLOCK; }
      if result == SR_EOS {
        end := Some(0);
      } else if result == SR_ERROR {
        end := Some(error);
      }
    }
  }

  /** Why the receive loop returned: the network has nothing more for now, or it yields (the
  document blocked, or it has read often enough), or it wants the message completed. */
  datatype Ending = NeedsInput | Yielding | StreamClosed(code: int) | Overflow | MessageEnded | DocumentFailed

  /** Where a receiver can be after being offered `input`: `taken` bytes processed, the rest buffered. */
  ghost predicate InSync(cb: Callbacks, input: bytes, here: Parse) {
    here.taken <= |input| && Feed(cb, At(Reset, 0), input[..here.taken]) == Settle(here)
  }

  class HttpReceiver {
    const buffer: array<byte>
    const parser: HttpParser
    const stream: NetworkSource
    var len: nat

    constructor (cb: Callbacks, document: DocumentSink?, stream: NetworkSource)
      requires stream.delivered == [] && (document != null ==> document.contents == [])
      ensures Valid() && fresh(buffer) && fresh(parser) && this.stream == stream
      ensures parser.cb == cb && parser.document == document
    {
      buffer := new byte[BUFFER_SIZE];
      parser := new HttpParser(cb, document);
      this.stream := stream;
      len := 0;
      new;
      FeedNothing(cb, At(Reset, 0));
    }

    /** Bytes read are bytes processed plus bytes buffered, in order; and the document holds the
    body bytes among those processed. */
    ghost predicate Accounted()
      reads this, buffer, parser, stream, parser.document
    {
      && buffer.Length == BUFFER_SIZE && len <= BUFFER_SIZE
      && parser.InStep()
      && parser.total <= |stream.delivered|
      && buffer[..len] == stream.delivered[parser.total..]
    }

    /** The receiver while the message is incomplete. */
    ghost predicate Valid()
      reads this, buffer, parser, stream, parser.document
    {
      Accounted() && InSync(parser.cb, stream.delivered, parser.Here())
    }

    /** The message ended with `error` after the bytes processed so far. */
    ghost predicate Ended(error: HttpError)
      reads this, parser, stream
    {
      Stopped(parser.cb, stream.delivered, parser.M(), parser.total, Some(error))
    }

    /** Everything processable in what was delivered has been processed, and the message goes on. */
    ghost predicate Drained()
      reads this, parser, stream
    {
      Stopped(parser.cb, stream.delivered, parser.M(), parser.total, None)
    }

    ghost predicate UnfinishedLine()
      reads this, buffer, parser
      requires len <= buffer.Length
    {
      parser.state != StData && LF !in buffer[..len]
    }

    /** `HandleStreamClose`, while receiving. */
    function HandleStreamClose(code: int): (error: HttpError)
      reads parser
    {
      if code == 0 then
        if parser.state == StData && parser.dataSize == SIZE_UNKNOWN then HE_NONE else HE_DISCONNECTED
      else if code == SOCKET_EACCES then HE_AUTH
      else if code == SEC_E_CERT_EXPIRED then HE_CERTIFICATE_EXPIRED
      else HE_SOCKET_ERROR
    }

    /** Runs the parser over the buffer and drops what it processed. */
    method ProcessBuffered() returns (result: ProcessResult, error: HttpError)
      requires Valid()
      modifies this, buffer, parser, parser.document
      ensures Accounted()
      ensures result != PR_COMPLETE ==> Valid()
      ensures result == PR_CONTINUE ==> Drained()
      ensures result == PR_COMPLETE ==>
        || Ended(error)
        || (Valid() && error == HE_STREAM && parser.Failures() > old(parser.Failures()))
      ensures !old(parser.InHead()) ==> !parser.InHead()
      ensures result == PR_BLOCK ==>
        parser.Blocks() > old(parser.Blocks()) || (old(parser.InHead()) && !parser.InHead())
      ensures parser.Blocks() >= old(parser.Blocks()) && parser.Failures() >= old(parser.Failures())
    {
      hide Feed, Settle;
      ghost var cb, input, start, before := parser.cb, stream.delivered, parser.total, parser.Here();
      var data := buffer[..len];
      var processed;
      processed, result, error := parser.Process(data);
      FeedExtend(cb, At(Reset, 0), input, start, data[..processed]);
      len := DropFrom(buffer, len, processed);
    }

    /** One read into what room the buffer has. */
    method ReadMore() returns (result: StreamResult, error: int)
      requires Valid() && len < BUFFER_SIZE
      modifies this`len, buffer, stream
      ensures Valid() && old(stream.delivered) <= stream.delivered && stream.polls == old(stream.polls) + 1
      ensures result != SR_SUCCESS ==> stream.delivered == old(stream.delivered)
      ensures result == SR_EOS ==> stream.end == Some(0)
      ensures result == SR_ERROR ==> stream.end == Some(error)
    {
      hide Feed, Settle, InSync;
      ghost var before := stream.delivered;
      var data;
      result, data, error := stream.Read(BUFFER_SIZE - len);
      if result == SR_SUCCESS {
        Received(parser.cb, before, data, parser.Here());
        len := AppendTo(buffer, len, data);
      }
    }

    /** A full buffer that cannot be processed is a line that does not end. */
    lemma FullOfLine()
      requires Valid() && Drained() && len >= BUFFER_SIZE
      ensures len == BUFFER_SIZE && UnfinishedLine()
    {
    }

    /** `DoReceiveLoop`.  `ending` is a record of which exit was taken. */
    method DoReceiveLoop() returns (done: bool, error: HttpError, ghost ending: Ending)
      requires Valid()
      modifies this, buffer, parser, parser.document, stream
      ensures Accounted() && old(stream.delivered) <= stream.delivered
      ensures ending == MessageEnded || Valid()
      ensures done == !(ending.NeedsInput? || ending.Yielding?)
      ensures ending == NeedsInput ==> Drained()
      ensures ending == Overflow ==> error == HE_OVERFLOW && len == BUFFER_SIZE && UnfinishedLine()
      ensures ending == MessageEnded ==> Ended(error)
      ensures ending == DocumentFailed ==> error == HE_STREAM && parser.Failures() > old(parser.Failures())
      ensures ending.StreamClosed? ==>
        error == HandleStreamClose(ending.code) && stream.end == Some(ending.code) && stream.polls > old(stream.polls)
      ensures ending == Yielding ==>
        || parser.Blocks() > old(parser.Blocks())
        || (old(parser.InHead()) && !parser.InHead())
        || stream.polls >= old(stream.polls) + MAX_READ_COUNT
    {
      hide Feed, Settle, HttpParser.Blocks, HttpParser.Failures, InSync, HttpReceiver.Accounted, HttpReceiver.Ended,
        HttpReceiver.UnfinishedLine, Stopped;
      var loopCount := 0;
      var processRequiresMoreData := false;
      error, ending := HE_NONE, Yielding;
      while loopCount <= MAX_READ_COUNT
        invariant Valid() && old(stream.delivered) <= stream.delivered
        invariant processRequiresMoreData ==> Drained()
        invariant loopCount <= MAX_READ_COUNT + 1
        invariant stream.polls >= old(stream.polls) + if processRequiresMoreData then loopCount - 1 else loopCount
        invariant loopCount > 0 <==> processRequiresMoreData
        invariant parser.Blocks() >= old(parser.Blocks()) && parser.Failures() >= old(parser.Failures())
        invariant !old(parser.InHead()) ==> !parser.InHead()
      {
        if len < BUFFER_SIZE {
          var result, readError := ReadMore();
          match result {
            case SR_SUCCESS =>
            case SR_BLOCK =>
              if processRequiresMoreData {
                return false, HE_NONE, NeedsInput;
              }
            case SR_EOS =>
              return true, HandleStreamClose(0), StreamClosed(0);
            case SR_ERROR =>
              return true, HandleStreamClose(readError), StreamClosed(readError);
          }
        } else if processRequiresMoreData {
          FullOfLine();
          return true, HE_OVERFLOW, Overflow;
        }
        var result;
        result, error := ProcessBuffered();
        match result {
          case PR_CONTINUE => processRequiresMoreData := true;
          case PR_BLOCK => return false, HE_NONE, Yielding;
          case PR_COMPLETE =>
            return true, error, if Ended(error) then MessageEnded else DocumentFailed;
        }
        loopCount := loopCount + 1;
      }
      return false, HE_NONE, Yielding;
    }
  }

  /** More input does not disturb what has been processed. */
  lemma Received(cb: Callbacks, input: bytes, data: bytes, here: Parse)
    requires InSync(cb, input, here)
    ensures InSync(cb, input + data, here)
    ensures (input + data)[here.taken..] == input[here.taken..] + data
  {
    assert (input + data)[..here.taken] == input[..here.taken];
  }

  /** A close without an error ends the message well exactly where the body runs to the end of the
  stream; EACCES and an expired certificate have errors of their own. */
  lemma CloseCodes(r: HttpReceiver)
    ensures r.HandleStreamClose(0) == HE_NONE
            <==> r.parser.state == StData && r.parser.dataSize == 0xFFFF_FFFF_FFFF_FFFF
    ensures r.HandleStreamClose(0) != HE_NONE ==> r.HandleStreamClose(0) == HE_DISCONNECTED
    ensures r.HandleStreamClose(13) == HE_AUTH
    ensures r.HandleStreamClose(0x8009_0328 - 0x1_0000_0000) == HE_CERTIFICATE_EXPIRED
    ensures forall code :: code !in {0, 13, 0x8009_0328 - 0x1_0000_0000} ==>
      r.HandleStreamClose(code) == HE_SOCKET_ERROR
  {
  }

  // ---------- the same bytes, however split ----------

  /** A parser that has been offered `input` and can do no more with it: it has processed `taken`
  bytes and either ended the message or is left with nothing but an unfinished line. */
  ghost predicate Stopped(cb: Callbacks, input: bytes, m: Machine, taken: nat, status: Option<HttpError>) {
    && taken <= |input|
    && Feed(cb, At(Reset, 0), input[..taken]) == Parse(m, [], taken, status)
    && (status.None? ==> LF !in input[taken..] && (m.fields.state == StData ==> taken == |input|))
  }

  /** A stopped parser cannot be one that stopped later with more bytes taken. */
  lemma StopsOnce(cb: Callbacks, input: bytes, m: Machine, taken: nat, status: Option<HttpError>, later: nat)
    requires Stopped(cb, input, m, taken, status)
    requires taken < later <= |input|
    ensures var w := Feed(cb, At(Reset, 0), input[..later]); w.line != [] || w.taken != later
  {
    hide Feed;
    var more := input[taken..later];
    FeedExtend(cb, At(Reset, 0), input, taken, more);
    var w := Parse(m, [], taken, status);
    if status.Some? {
      FeedComplete(cb, w, more);
    } else {
      assert more == input[taken..][..later - taken];
      FeedPartialLine(cb, w, more);
    }
  }

  /** However the same bytes were cut into reads, and however often the document blocked: two
  parsers that can do no more with them have taken the same number of bytes, reported the same
  leader, headers and body, are in the same state, and ended with the same error or not at all. */
  lemma SplitIndependence(cb: Callbacks, input: bytes,
                          m1: Machine, taken1: nat, status1: Option<HttpError>,
                          m2: Machine, taken2: nat, status2: Option<HttpError>)
    requires Stopped(cb, input, m1, taken1, status1) && Stopped(cb, input, m2, taken2, status2)
    ensures m1 == m2 && taken1 == taken2 && status1 == status2
  {
    if taken1 < taken2 {
      StopsOnce(cb, input, m1, taken1, status1, taken2);
    } else if taken2 < taken1 {
      StopsOnce(cb, input, m2, taken2, status2, taken1);
    }
  }

  /** The receive loop reads before it processes, so a clean close is acted on while bytes may
  still be waiting in the buffer (the document having blocked).  For a body that runs to the end
  of the stream the close then counts as success, and the body is the whole of what arrived
  exactly when the buffer was empty. */
  lemma CleanCloseKeepsBody(r: HttpReceiver)
    requires r.Valid() && r.HandleStreamClose(0) == HE_NONE
    ensures Feed(r.parser.cb, At(Reset, 0), r.stream.delivered).m.body == r.parser.body <==> r.len == 0
  {
    var input, taken := r.stream.delivered, r.parser.total;
    var rest := input[taken..];
    FeedExtend(r.parser.cb, At(Reset, 0), input, taken, rest);
    assert input[..taken + |rest|] == input;
    FeedData(r.parser.cb, r.parser.M(), taken, rest);
  }
}
