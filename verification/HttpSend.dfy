/** The send side of `HttpBase`: headers and document packed into a 32 KB buffer and written out
in whatever pieces the network takes. */
module HttpSend {
  import opened Bytes
  import opened HttpWire
  import opened HttpParsing
  import opened HttpEncode

  /** The document being sent: fixed contents, read in pieces of the environment's choosing. */
  class DocumentSource {
    const content: bytes
    var pos: nat
    // How often it has blocked, and failed.
    ghost var blocks: nat
    ghost var failures: nat

    constructor (content: bytes)
      ensures this.content == content && pos == 0
    {
      this.content, pos, blocks, failures := content, 0, 0, 0;
    }

    method Read(room: nat) returns (result: StreamResult, data: bytes)
      requires 0 < room && pos <= |content|
      modifies this
      ensures old(pos) <= pos <= |content| && data == content[old(pos)..pos]
      ensures if result == SR_SUCCESS then 0 < |data| <= room else data == []
      ensures result == SR_EOS ==> pos == |content|
      ensures blocks == old(blocks) + if result == SR_BLOCK then 1 else 0
      ensures failures == old(failures) + if result == SR_ERROR then 1 else 0
    {
      var n: nat := *;
      if 0 < n <= room && pos + n <= |content| {
        pos := pos + n;
        return SR_SUCCESS, content[pos - n..pos];
      }
      result, data := *, [];
      if result == SR_SUCCESS || (result == SR_EOS && pos < |content|) {
        result := SR_BLOCK;
      }
      blocks := blocks + if result == SR_BLOCK then 1 else 0;
      failures := failures + if result == SR_ERROR then 1 else 0;
    }
  }

  class NetworkSink {
    ghost var sent: bytes
    ghost var blocks: nat
    ghost var failures: nat

    constructor ()
      ensures sent == []
    {
      sent, blocks, failures := [], 0, 0;
    }

    method Write(data: bytes) returns (result: StreamResult, written: nat)
      requires 0 < |data|
      modifies this
      ensures if result == SR_SUCCESS then 0 < written <= |data| else written == 0
      ensures sent == old(sent) + data[..written]
      ensures blocks == old(blocks) + if result == SR_BLOCK then 1 else 0
      ensures failures == old(failures) + if result == SR_ERROR then 1 else 0
      ensures result != SR_EOS
    {
      var n: nat := *;
      if 0 < n <= |data| {
        sent := sent + data[..n];
        return SR_SUCCESS, n;
      }
      result, written := *, 0;
      if result == SR_SUCCESS || result == SR_EOS {
        result := SR_BLOCK;
      }
      blocks := blocks + if result == SR_BLOCK then 1 else 0;
      failures := failures + if result == SR_ERROR then 1 else 0;
    }
  }

  /** `hasHeader(HH_TRANSFER_ENCODING, &encoding) && (encoding == "chunked")`. */
  function DeclaresChunked(headers: seq<Header>): bool {
    if headers == [] then false
    else if EqualsIgnoreCase(headers[0].name, TRANSFER_ENCODING) then headers[0].value == CHUNKED
    else DeclaresChunked(headers[1..])
  }

  /** `strcpyn` and `sprintfn` at offset `len` keep one byte of the buffer for a NUL. */
  function Clip(len: nat, s: bytes): (r: bytes)
    ensures r <= s
    ensures len < BUFFER_SIZE ==> len + |r| < BUFFER_SIZE
    ensures len >= BUFFER_SIZE ==> r == []
    ensures len + |s| < BUFFER_SIZE ==> r == s
  {
    if len + |s| < BUFFER_SIZE then s
    else if len < BUFFER_SIZE then s[..BUFFER_SIZE - 1 - len]
    else []
  }

  /** How a call to `flush_data` ends: the message is complete, the network or the document is to
  signal when to go on, one of them failed, or (only without a document) it is still spinning. */
  datatype Flush = Completed | Waiting | DocumentError | NetworkError | Spinning

  class HttpSender {
    const leader: bytes
    const headers: seq<Header>
    const document: DocumentSource?
    const network: NetworkSink
    const buffer: array<byte>
    var len: nat
    var next: nat  // header_
    var chunkData: bool
    // The document reads that have been queued.
    ghost var pieces: seq<bytes>

    /** The leader and its line end, clipped to the buffer. */
    ghost function Start(): bytes {
      var l := Clip(0, leader);
      l + Clip(|l|, CRLF)
    }

    /** The leader and the first `k` headers as queued, with the empty line once `k` is all of them. */
    ghost function HeadUpTo(k: nat): bytes
      requires k <= |headers|
    {
      Start() + HeaderLines(Kept(headers[..k]))
      + (if k < |headers| then [] else if headers == [] then Clip(|Start()|, CRLF) else CRLF)
    }

    /** The part of the body that has been queued. */
    ghost function Body(): bytes
      reads this`pieces, this`chunkData
    {
      if DeclaresChunked(headers) then Chunks(pieces) + (if chunkData then [] else LAST_CHUNK) else Concat(pieces)
    }

    /** What has been queued so far, sent or not. */
    ghost function Queued(): bytes
      reads this`next, this`pieces, this`chunkData
      requires next <= |headers|
    {
      HeadUpTo(next) + Body()
    }

    /** The pieces are what has been read of the document, and the last chunk waits for its end. */
    ghost predicate DocumentInStep()
      reads this`pieces, this`chunkData, document
    {
      && (chunkData ==> DeclaresChunked(headers))
      && GoodPieces(pieces)
      && (document == null ==> pieces == [] && chunkData == DeclaresChunked(headers))
      && (document != null ==>
        && document.pos <= |document.content|
        && Concat(pieces) == document.content[..document.pos]
        && (DeclaresChunked(headers) && !chunkData ==> document.pos == |document.content|))
    }

    ghost predicate Valid()
      reads this, network, buffer, document
    {
      && buffer.Length == BUFFER_SIZE && len <= BUFFER_SIZE && next <= |headers|
      && (next < |headers| ==> len < BUFFER_SIZE && Body() == [])
      && network.sent + buffer[..len] == Queued()
      && DocumentInStep()
    }

    /** Everything has been written, and (with a document) the document has been read to its end. */
    ghost predicate AllSent()
      reads this, network, document
    {
      && next == |headers|
      && network.sent == Queued()
      && GoodPieces(pieces)
      && (document != null ==> Concat(pieces) == document.content && !chunkData)
      && (document == null ==> pieces == [] && chunkData == DeclaresChunked(headers))
    }

    /** `send`, up to the first `flush_data`. */
    constructor (leader: bytes, headers: seq<Header>, document: DocumentSource?, network: NetworkSink)
      requires network.sent == [] && (document != null ==> document.pos == 0)
      ensures Valid() && fresh(buffer)
      ensures this.leader == leader && this.headers == headers
      ensures this.document == document && this.network == network
    {
      this.leader, this.headers, this.document, this.network := leader, headers, document, network;
      buffer := new byte[BUFFER_SIZE];
      len, next := 0, 0;
      chunkData := DeclaresChunked(headers);
      pieces := [];
      new;
      hide Clip, HeaderLines, DeclaresChunked, Chunks, Concat, Kept, HttpSender.HeadUpTo;
      QueueLeader();
      KeptNothing();
    }

    /** The leader and its line end, and the empty line if there are no headers. */
    method QueueLeader()
      requires len == 0 && buffer.Length == BUFFER_SIZE
      modifies this`len, buffer
      ensures len <= BUFFER_SIZE && buffer[..len] == HeadUpTo(0) && (headers != [] ==> len < BUFFER_SIZE)
    {
      hide Clip, HeaderLines, Kept;
      KeptNothing();
      len := AppendTo(buffer, len, Clip(0, leader));
      len := AppendTo(buffer, len, Clip(len, CRLF));
      assert buffer[..len] == Start();
      if headers == [] {
        len := AppendTo(buffer, len, Clip(len, CRLF));
      }
      assert headers[..0] == [];
    }

    /** `queue_headers`: true when the buffer must be written out before the next header fits. */
    method QueueHeaders() returns (full: bool)
      requires Valid() && next < |headers|
      modifies this`len, this`next, buffer
      ensures Valid() && old(next) <= next
      ensures if full then next < |headers| && 0 < len else next == |headers| && 0 < len
      ensures Backlog(headers[next..]) + len + (if next < |headers| then 2 else 0)
              <= Backlog(headers[old(next)..]) + old(len) + 2
    {
      hide HeaderLines, Kept, Fits, HeaderLine, Backlog, DeclaresChunked, HttpSender.Start, HttpSender.Body,
        HttpSender.DocumentInStep;
      ghost var sent, start := network.sent, Start();
      while next < |headers|
        invariant old(next) <= next <= |headers| && len < BUFFER_SIZE
        invariant next == |headers| ==> len < BUFFER_SIZE - 3
        invariant sent + buffer[..len] == start + HeaderLines(Kept(headers[..next]))
        invariant Backlog(headers[next..]) + len <= Backlog(headers[old(next)..]) + old(len)
      {
        KeptSnoc(headers, next);
        FitsWhen(headers[next]);
        BacklogStep(headers, next);
        ghost var before, lines := buffer[..len], HeaderLines(Kept(headers[..next]));
        var line := HeaderLine(headers[next]);
        if len + |line| < BUFFER_SIZE - 3 {
          len := AppendTo(buffer, len, line);
          Regroup(sent, before, start, lines, line);
          next := next + 1;
        } else if len == 0 {
          next := next + 1;  // too long: discarded
        } else {
          return true;
        }
      }
      len := AppendTo(buffer, len, CRLF);
      return false;
    }

    /** Queues one document read, as a chunk if the body is chunked. */
    method QueuePiece(data: bytes)
      requires buffer.Length == BUFFER_SIZE && next == |headers| && 0 < |data| <= BUFFER_SIZE
      requires len + |data| + (if chunkData then CHUNK_DIGITS + 4 else 0) <= BUFFER_SIZE
      requires network.sent + buffer[..len] == Queued() && GoodPieces(pieces)
      requires chunkData == DeclaresChunked(headers)
      modifies this`len, this`pieces, buffer
      ensures len == old(len) + |data| + if chunkData then CHUNK_DIGITS + 4 else 0
      ensures network.sent + buffer[..len] == Queued() && GoodPieces(pieces)
      ensures pieces == old(pieces) + [data]
    {
      hide Chunks, Concat, HttpSender.HeadUpTo, DeclaresChunked;
      ghost var added := if chunkData then Chunk(data) else data;
      ghost var before, buffered := Body(), buffer[..len];
      ChunksSnoc(pieces, data);
      ConcatSnoc(pieces, data);
      if chunkData {
        len := AppendTo(buffer, len, Chunk(data));
      } else {
        len := AppendTo(buffer, len, data);
      }
      pieces := pieces + [data];
      assert Body() == before + added;
      Regroup(network.sent, buffered, HeadUpTo(next), before, added);
    }

    /** Queues the last chunk. */
    method QueueEnd()
      requires buffer.Length == BUFFER_SIZE && next == |headers| && len + 5 <= BUFFER_SIZE
      requires network.sent + buffer[..len] == Queued() && chunkData && DeclaresChunked(headers)
      modifies this`len, this`chunkData, buffer
      ensures len == old(len) + 5
      ensures network.sent + buffer[..len] == Queued() && !chunkData
    {
      hide Chunks, HttpSender.HeadUpTo, DeclaresChunked;
      ghost var before, buffered := Body(), buffer[..len];
      len := AppendTo(buffer, len, LAST_CHUNK);
      chunkData := false;
      assert Body() == before + LAST_CHUNK;
      Regroup(network.sent, buffered, HeadUpTo(next), before, LAST_CHUNK);
    }

    /** One read of the document into the buffer, chunk-encoded if need be.  `full`: nothing more
    can be queued before the network has taken something. */
    method QueueDocument() returns (full: bool, result: StreamResult)
      requires Valid() && next == |headers| && document != null
      modifies this`len, this`chunkData, this`pieces, buffer, document
      ensures Valid()
      ensures !full ==> result == SR_SUCCESS && 0 < len
      ensures result == SR_EOS ==> document.pos == |document.content| && !chunkData
      ensures result == SR_BLOCK && old(len) == 0 ==> document.blocks > old(document.blocks)
      ensures result == SR_ERROR ==> document.failures > old(document.failures)
      ensures document.blocks >= old(document.blocks) && document.failures >= old(document.failures)
      ensures full <==> result != SR_SUCCESS
      ensures old(len) <= len
      ensures Potential() <= old(Potential()) && (!full ==> Potential() < old(Potential()))
    {
      hide Chunks, Concat, HttpSender.HeadUpTo, DeclaresChunked, Backlog, HttpSender.Body;
      var reserve := if chunkData then len + CHUNK_DIGITS + 4 else len;
      if reserve >= BUFFER_SIZE {
        return true, SR_BLOCK;
      }
      ghost var start, read := document.pos, document.content[..document.pos];
      assert DeclaresChunked(headers) && !chunkData ==> start == |document.content|;
      var data;
      result, data := document.Read(BUFFER_SIZE - reserve);
      full := result != SR_SUCCESS;
      match result {
        case SR_SUCCESS =>
          ConcatSnoc(pieces, data);
          QueuePiece(data);
          assert read + data == document.content[..document.pos];
        case SR_EOS =>
          if chunkData {
            QueueEnd();
          }
        case SR_BLOCK =>
        case SR_ERROR =>
      }
    }

    /** The first half of a round in `flush_data`: queue headers, then a read of the document.  `full`:
    the network has to take something first. */
    method Fill() returns (full: bool, result: StreamResult)
      requires Valid()
      modifies this`len, this`next, this`chunkData, this`pieces, buffer, document
      ensures Valid() && Potential() <= old(Potential())
      ensures !full && document != null ==> Potential() < old(Potential())
      ensures !full ==> next == |headers|
      ensures next < |headers| ==> 0 < len
      ensures document == null ==> result == SR_SUCCESS && (full ==> 0 < len)
      ensures document != null ==>
        && document.blocks >= old(document.blocks) && document.failures >= old(document.failures)
        && (result == SR_BLOCK && len == 0 ==> document.blocks > old(document.blocks))
        && (result == SR_ERROR ==> document.failures > old(document.failures))
        && (result == SR_EOS ==> document.pos == |document.content| && !chunkData && next == |headers|)
        && (result == SR_SUCCESS ==> 0 < len)
    {
      hide HttpSender.HeadUpTo, HttpSender.Body, HttpSender.DocumentInStep, DeclaresChunked, Backlog, HeaderLine, Fits;
      full, result := false, SR_SUCCESS;
      ghost var before := Potential();
      if next < |headers| {
        full := QueueHeaders();
      }
      assert Potential() <= before;
      if !full && document != null {
        full, result := QueueDocument();
      }
    }

    /** An upper bound on the work left: what is still to be queued and written. */
    ghost function Potential(): int
      reads this, document
      requires next <= |headers|
    {
      len + Backlog(headers[next..]) + (if next < |headers| then 2 else 0) + (if chunkData then 5 else 0)
      + if document == null then 0 else 14 * (|document.content| - document.pos)
    }

    lemma PotentialIsNatural()
      requires Valid()
      ensures 0 <= Potential()
    {
    }

    /** One write to the network. */
    method WriteOut() returns (result: StreamResult)
      requires Valid() && 0 < len
      modifies this`len, buffer, network
      ensures Valid() && len <= old(len) && old(network.sent) <= network.sent
      ensures result == SR_SUCCESS ==> len < old(len)
      ensures result != SR_EOS
      ensures network.blocks == old(network.blocks) + if result == SR_BLOCK then 1 else 0
      ensures network.failures == old(network.failures) + if result == SR_ERROR then 1 else 0
    {
      hide HttpSender.HeadUpTo, HttpSender.Body, HttpSender.DocumentInStep, HttpSender.Queued;
      var data := buffer[..len];
      ghost var sent := network.sent;
      var written;
      result, written := network.Write(data);
      len := DropFrom(buffer, len, written);
      assert buffer[..len] == data[written..];
      Resplit(sent, data, written);
    }

    lemma Finished()
      requires Valid() && next == |headers| && len == 0
      requires document != null ==> document.pos == |document.content| && !chunkData
      ensures AllSent()
    {
      assert network.sent + buffer[..len] == network.sent;
    }

    /** `flush_data`.  With a document every call ends, whatever the network does; without one the
    loop spins while the network blocks, and `spins` bounds how long that is followed. */
    method FlushData(spins: nat) returns (flush: Flush)
      requires Valid()
      modifies this`len, this`next, this`chunkData, this`pieces, buffer, network, document
      ensures Valid() && old(network.sent) <= network.sent
      ensures flush == Completed ==> AllSent()
      ensures flush == Waiting ==>
        network.blocks > old(network.blocks) || (document != null && document.blocks > old(document.blocks))
      ensures flush == DocumentError ==> document != null && document.failures > old(document.failures)
      ensures flush == NetworkError ==> network.failures > old(network.failures)
      ensures flush == Spinning ==> document == null && network.blocks > old(network.blocks) + spins
    {
      hide HttpSender.HeadUpTo, HttpSender.Body, HttpSender.AllSent, HttpSender.DocumentInStep, DeclaresChunked,
        Backlog, HeaderLine, Fits, HttpSender.Queued;
      var sendRequired := len >= BUFFER_SIZE;
      var patience: nat := spins;
      while true
        invariant Valid() && old(network.sent) <= network.sent
        invariant sendRequired ==> 0 < len
        invariant document != null ==>
          document.blocks >= old(document.blocks) && document.failures >= old(document.failures)
        invariant network.blocks >= old(network.blocks) + (spins - patience)
        invariant network.failures >= old(network.failures)
        invariant patience <= spins
        decreases Potential(), patience
      {
        PotentialIsNatural();
        if !sendRequired {
          var result;
          sendRequired, result := Fill();
          if result == SR_EOS && len == 0 {
            Finished();
            return Completed;
          } else if result == SR_ERROR {
            return DocumentError;
          }
        }
        if len == 0 {
          if document == null { Finished(); }
          return if document == null then Completed else Waiting;
        }
        var result := WriteOut();
        if result == SR_SUCCESS {
          sendRequired := false;
        } else if result == SR_BLOCK {
          if sendRequired {
            return Waiting;
          } else if document == null {
            if patience == 0 {
              return Spinning;
            }
            patience := patience - 1;
          }
        } else {
          return NetworkError;
        }
      }
    }
  }

  lemma Regroup(a: bytes, b: bytes, c: bytes, d: bytes, more: bytes)
    requires a + b == c + d
    ensures a + (b + more) == c + (d + more)
  {
    assert a + (b + more) == (a + b) + more;
  }

  lemma KeptNothing()
    ensures HeaderLines(Kept([])) == [] && Concat([]) == [] && Chunks([]) == []
  {
  }

  lemma FitsWhen(h: Header)
    ensures Fits(h) <==> |HeaderLine(h)| < BUFFER_SIZE - 3
  {
  }

  function Backlog(headers: seq<Header>): nat {
    if headers == [] then 0 else |HeaderLine(headers[0])| + Backlog(headers[1..])
  }

  lemma BacklogStep(headers: seq<Header>, k: nat)
    requires k < |headers|
    ensures Backlog(headers[k..]) == |HeaderLine(headers[k])| + Backlog(headers[k + 1..])
  {
    assert headers[k..][1..] == headers[k + 1..];
  }
}
