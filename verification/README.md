# Proofs about libjingle's base library

This project models the self-contained state machines, codecs and data structures of the libjingle
`base` library in Dafny and proves what they are for. Code that changes state in place is modelled
as classes and loops and proved against specification functions; what the code promises is then
proved about these functions and about the states they keep.

- **HTTP wire engine.** `HttpWire` is a byte-at-a-time reference parser; `HttpParser` and
  `HttpReceive` are the buffered parser and the receive loop, proved to agree with it however the
  network cuts the bytes up; `HttpEncode`, `HttpSend` and `HttpEndToEnd` are the sender, and the
  round trip through both; `HttpLaws` says in bytes what each kind of line means.
- **HTTP above the wire.** `HttpAttributes`: attribute lists and quoting; `HttpClient`: retries,
  redirects and proxy authentication, which responses lead to them, and that they come to an end.
- **Lock-free queue.** `LockFreeQueue`: single producer, single consumer, every interleaving, and
  counters that wrap.
- **Packets over TCP.** `TcpFraming`: length-prefixed packets under partial sends and arbitrary
  segmentation.
- **NAT simulator.** `NatWire`, `NatServer`: mapping and filtering over whole packet histories.
- **Message queue.** `MessageHeap`, `MessageQueue`: ready list, delayed heap, peek slot, Clear.
- **linked_ptr.** `LinkedPtr`: rings of pointers on the heap, and when the object is deleted.
- **Codecs.** `Md5`, `Crc32`, and `Base64`, with `Base64Laws` (what decoding means under each
  combination of its options) and `Base64Options` (what the options change).
- **Streams and caches.** `Multipart`: parts read as one string; `DiskCache`: locks, eviction and
  accounting.
- `Bytes` holds what they share.

`dafny verify dfyconfig.toml` checks the whole project.

Places where the code does not do what its documentation or its users would expect are stated as
they are, each with the exact condition under which it does and an input at which it does not; the
table calls them findings.

## Model

| member | source | states |
|---|---|---|
| `HttpWire.FeedAppend` | base/httpbase.cc:79-142 | Feeding two byte strings one after the other is feeding their concatenation: the reference parser has no hidden state between reads |
| `HttpWire.FeedPartialLine` | base/httpbase.cc:92-99 | An unfinished line is only collected, whatever the state outside the body |
| `HttpWire.FeedLine` | base/httpbase.cc:92-111 | A line and its newline have exactly the effect of LineStep on the line without its trailing white space |
| `HttpWire.FeedData` | base/httpbase.cc:118-139 | Body bytes within the announced size are reported unchanged and in order, and the size counts down (unless unknown) |
| `HttpWire.FeedComplete` | base/httpbase.cc:85-88 | A completed message takes no further byte |
| `HttpParsing.HttpParser.ProcessLine` | base/httpbase.cc:144-233 | The line machine over its fields carries out the reference step: leader, headers, chunk sizes, chunk ends, trailers, and every protocol error; only the end of the headers can interrupt it |
| `HttpParsing.HttpParser.ProcessHeaderLine` | base/httpbase.cc:155-190 | A header line sets size or coding, is reported, or is a protocol error, as the reference step says, whose meaning LengthAnnounced, CodingMeans, OtherHeaders and ColonMissing state in bytes |
| `HttpParsing.HttpParser.ProcessChunkSize` | base/httpbase.cc:196-209 | A chunk-size line gives the next state, or the protocol error with the size already overwritten |
| `HttpParsing.HttpParser.ProcessData` | base/httpbase.cc:866-889 | What the document accepts is what is reported; it blocks or fails only if the document did |
| `HttpParsing.HttpParser.Process` | base/httpbase.cc:79-142 | Whatever is consumed is consumed as by the byte-at-a-time reference; PR_CONTINUE leaves only an unfinished line; PR_BLOCK neither loses nor repeats a byte and is caused by the document or the end of the headers |
| `Bytes.AppendTo` | base/asynctcpsocket.cc:184-188 | A memcpy behind what a buffer holds appends exactly the bytes, in all three buffers that work this way |
| `Bytes.DropFrom` | base/httpbase.cc:575-576 | A memmove to the front drops exactly the given number of bytes and keeps the rest in order |
| `HttpReceive.HttpReceiver.ProcessBuffered` | base/httpbase.cc:571-588 | Bytes read stay bytes processed plus bytes buffered, and the message ended as the reference says, or the document failed |
| `HttpReceive.HttpReceiver.DoReceiveLoop` | base/httpbase.cc:514-593 | Every exit of the loop keeps the account of bytes; HE_OVERFLOW from the buffer check means a full buffer with one unfinished line and no newline; it waits only when all that can be processed is; it yields only for the document, the end of the headers, or 20 reads |
| `HttpReceive.StopsOnce` | base/httpbase.cc:79-142 | A parser that can do no more at one point cannot be one that stopped cleanly at a later one |
| `HttpReceive.SplitIndependence` | base/httpbase.cc:514-593 | Two receivers offered the same bytes in any two ways of cutting them, with any blocking, agree on leader, headers, body, state, bytes consumed and result once they can do no more |
| `HttpReceive.CleanCloseKeepsBody` | base/httpbase.cc:531-555 | Finding: a clean close is acted on before buffered bytes are processed, so a body that ends with the stream is complete exactly if the buffer was empty |
| `HttpReceive.CloseCodes` | base/httpbase.cc:495-512 | A close without error ends the message well exactly in a body of unknown size, and otherwise is a disconnection; EACCES, an expired certificate and all other codes have their errors |
| `HttpEncode.HexReadsBack` | base/httpbase.cc:655-656 | The digits that %.*x writes are hexadecimal digits and spell the number |
| `HttpEncode.ChunkSizeReadsBack` | base/httpbase.cc:196-203 | strtoul reads an eight-digit chunk size back and consumes all of it |
| `HttpEncode.ChunkReadsBack` | base/httpbase.cc:651-662 | One encoded chunk parses back to exactly its bytes and leaves the parser between chunks |
| `HttpEncode.ChunksReadBack` | base/httpbase.cc:626-662 | Any list of non-empty pieces, chunked, parses back to their concatenation |
| `HttpEncode.LastChunkReadsBack` | base/httpbase.cc:666-673 | The empty chunk and empty trailers complete the message without error, with nothing left over |
| `HttpEncode.HeaderReadsBack` | base/httpbase.cc:727-733 | A header line as sent is reported back with the same name and value, and has its effect on size and coding |
| `HttpEncode.HeadersReadBack` | base/httpbase.cc:724-745 | So is a whole list of headers, in order |
| `HttpEncode.ChunkedRoundTrip` | base/httpbase.cc:603-721 | A chunked message parses to exactly its leader, headers and document, HE_NONE, no byte left (section 4.1 of RFC 7230) |
| `HttpEncode.PlainRoundTrip` | base/httpbase.cc:603-721 | An unchunked message parses to exactly its body if and only if the announced size is the body's |
| `HttpEncode.ChunkedHeadHappens` | base/httpbase.cc:145-190 | There are a receiver and a head for which the chunked round trip speaks: one transfer coding, chunked |
| `HttpEncode.OneChunkedHeader` | base/httpbase.cc:169-189 | Headers with one transfer coding, chunked in any case, and no length make the parser expect chunks |
| `HttpLaws.DecimalReadsBack` | base/httpbase.cc:173-174 | The decimal numeral of a number is read as that number and used up, up to the largest unsigned long |
| `HttpLaws.StrtoulOfHexadecimal` | base/httpbase.cc:198-199 | A hexadecimal numeral in upper or lower case is read as its number, clipped at the largest unsigned long, and used up |
| `HttpLaws.HexDigitIs` | base/httpbase.cc:655-656 | A chunk size is written in the digits 0123456789abcdef |
| `HttpLaws.HeaderLineMeans` | base/httpbase.cc:155-189 | A header line is split at its first colon, blanks and tabs around its value are dropped, and it is reported with its effect or ends the message |
| `HttpLaws.LengthAnnounced` | base/httpbase.cc:168-178 | Content-Length, in any case, sets the size to its decimal numeral modulo 2^32, whatever comes behind the numeral, and nothing else |
| `HttpLaws.LengthReadsBack` | base/httpbase.cc:168-178 | Feeding Content-Length, in any case, with the decimal numeral of n < 2^32 leaves the size n and the coding unchanged |
| `HttpLaws.LengthMissing` | base/httpbase.cc:174-177 | A length that does not begin with a digit or a sign is a protocol error |
| `HttpLaws.CodingMeans` | base/httpbase.cc:179-188 | Transfer-Encoding, in any case: chunked sets, identity clears, anything else is a protocol error |
| `HttpLaws.OtherHeaders` | base/httpbase.cc:155-189 | Any other header is reported and changes nothing |
| `HttpLaws.ColonMissing` | base/httpbase.cc:157-161 | A header line without a colon is a protocol error |
| `HttpLaws.ChunkSizeMeans` | base/httpbase.cc:196-204 | A chunk size in hexadecimal numerals of either case announces that many bytes; size 0 leads to the trailers |
| `HttpLaws.ChunkSizeRefused` | base/httpbase.cc:200-208 | An empty line, or one that does not end in a hexadecimal digit (a chunk extension), is a protocol error instead of a chunk size |
| `HttpLaws.ChunkEndRefused` | base/httpbase.cc:211-218 | Anything but a line end behind the bytes of a chunk is a protocol error |
| `HttpLaws.TrailersMean` | base/httpbase.cc:220-225 | Any number of trailers is skipped, and the empty line behind them ends the message without error |
| `HttpLaws.LeaderMeans` | base/httpbase.cc:151-153 | The first line is reported as it is; the callback's error ends the message |
| `HttpLaws.HeadersEnd` | base/httpbase.cc:190-193 | The empty line behind the headers leads to chunks or to a body of the size the callback says; its error, or the size 0, ends the message |
| `HttpLaws.UnknownSize` | base/httpbase.cc:122-137 | A body of unknown size takes every byte there is |
| `HttpLaws.HeaderLineIs` | base/httpbase.cc:727-741 | A header is sent as name, colon, blank, value, CR LF, exactly if name and value have at most 32760 bytes |
| `HttpLaws.AnnouncedRoundTrip` | base/httpbase.cc:603-721 | A plain message whose length is announced by one of its headers, in any case, and left alone by the callbacks parses back to its body if and only if the number announced is its length |
| `HttpSend.HttpSender.constructor` | base/httpbase.cc:419-450 | send() starts with the leader and its line end, clipped to the buffer, and with the account of queued bytes in order |
| `HttpSend.HttpSender.QueueHeaders` | base/httpbase.cc:724-745 | Exactly the headers that fit into an empty buffer are queued, in order; it stops only when the buffer has to go out first |
| `HttpSend.HttpSender.QueuePiece` | base/httpbase.cc:649-662 | A document read is queued as it is, or as one chunk |
| `HttpSend.HttpSender.QueueDocument` | base/httpbase.cc:626-688 | One read of the document keeps sent + buffered = head + encoded pieces; the last chunk is queued exactly at the end of the document; the remaining work does not grow |
| `HttpSend.HttpSender.WriteOut` | base/httpbase.cc:699-713 | A partial write moves exactly the written bytes from the buffer to the network |
| `HttpSend.HttpSender.FlushData` | base/httpbase.cc:603-721 | For every pattern of document reads, partial writes and blocks: bytes sent + buffered are always the message so far; it completes only when all of it is sent; with a document every call terminates |
| `HttpEndToEnd.SentIsMessage` | base/httpbase.cc:419-453 | What a finished sender has written is its message if and only if the leader fitted into the buffer |
| `HttpEndToEnd.PlainReadAsChunks` | base/httpbase.cc:196-209 | A plain body read as chunks never ends without error with itself for the body |
| `HttpEndToEnd.ChunkedToPlain` | base/httpbase.cc:118-139 | A chunked body read plainly, with whatever size, never ends at its last byte with the document |
| `HttpEndToEnd.MessageReadsBack` | base/httpbase.cc:603-721 | A message, with or without a document, reads back to its last byte if and only if both sides agree: chunked on both, or plain on both with the announced length right |
| `HttpEndToEnd.EndToEnd` | base/httpbase.cc:514-721 | For every document (or none) and every pattern of reads, partial writes and network blocks, a receiver that can do no more has reported exactly the sender's leader, fitting headers and document, without error and with nothing left in its buffer, if and only if both sides agree on the body |
| `HttpEndToEnd.ClosedBody` | base/httpbase.cc:495-502 | A body without an announced size that a clean close ends is the document, and counted as success, if and only if the buffer is empty at the close |
| `HttpEndToEnd.ByteLost` | base/httpbase.cc:531-555 | Finding: a position in which a clean close counts as success and loses the buffered last byte of the body |
| `HttpEndToEnd.DeclaredByFirst` | base/httpbase.cc:437-441 | The sender sends chunks if and only if the first transfer coding is, to the letter, chunked |
| `HttpEndToEnd.ReadByLast` | base/httpbase.cc:179-189 | The receiver reads chunks if and only if the last transfer coding is chunked, ignoring case |
| `HttpEndToEnd.CodingUnderstoodAlike` | base/httpbase.cc:437-441 | Finding: for any list of headers, sender and receiver agree on chunking if and only if the first coding declared and the last one that fits say the same |
| `HttpEndToEnd.CapitalChunked` | base/httpbase.cc:179-182 | Finding: with the coding Chunked the receiver expects chunks and the sender does not send them |
| `HttpEndToEnd.TwoCodings` | base/httpbase.cc:179-185 | Finding: with the codings chunked, identity the sender sends chunks and the receiver does not expect them |
| `HttpEndToEnd.LooksLikeItsChunk` | base/httpbase.cc:118-139 | Finding: a chunked document that looks like its own chunk size is reported whole by a plain reading, which then ends before the last byte of the message |
| `HttpAttributes.ParseAttributes` | base/httpcommon.cc:268-316 | The three nested loops compute AttributesFrom, whose every round makes progress |
| `HttpAttributes.Quote` | base/httpcommon.cc:722-732 | quote() escapes quotes and backslashes and nothing else |
| `HttpAttributes.OnlyGoodNames` | base/httpcommon.cc:226-239 | On every input the names found have no white space, and equals signs only at their ends |
| `HttpAttributes.QuotedReadsBack` | base/httpcommon.cc:291-303 | A quoted value reads back, whatever it is, and the parser stops behind its closing quote |
| `HttpAttributes.RoundTrip` | base/httpcommon.cc:268-316 | A list of name=quote(value), for any value, and name=value, for values that need no quotes, joined by commas parses back to itself if and only if its names are of that form (section 3.2.6 of RFC 7230) |
| `HttpAttributes.ChallengeReadsBack` | base/httpcommon.cc:268-316 | A method, a blank and such a list parse to the method as a name without value and then the list |
| `HttpClients.AnswersOnce` | base/httpcommon.cc:769-805 | Basic and Digest answer a challenge only when there is no context yet, and then set one; otherwise the context stays |
| `HttpClients.HttpClient.AnswerChallenges` | base/httpclient.cc:782-814 | The loop over the challenges: the first one that is not ignored decides |
| `HttpClients.HttpClient.OnHttpComplete` | base/httpclient.cc:726-824 | onHttpComplete over the client's fields carries out Step, whose meaning ErrorsEnd, RedirectsFollowed, ProxyAsks and FinishesOnce state in numbers and verbs |
| `HttpClients.ErrorsEnd` | base/httpclient.cc:726-745 | An error ends the request with that error, unless it is a broken connection, the response still is the initial 500 and attempts are left; then the request is sent again, if its document can be rewound |
| `HttpClients.RedirectsFollowed` | base/httpclient.cc:458-469 | A response is followed elsewhere if and only if its code is 300 to 399, it has a location, fewer than 5 redirects were followed, and the action is ALWAYS, or DEFAULT with 303, GET or HEAD, and a document to be sent again can be rewound; 303 makes it a GET without document, and attempts and credentials start anew |
| `HttpClients.FinishesOnce` | base/httpclient.cc:726-824 | Connected, sent, any number of responses 100 to 199, and another response that is neither to be followed nor asks for credentials: the request is sent once over one connection and finishes without error |
| `HttpClients.FirstKnownDecides` | base/httpcommon.cc:769-805 | The first challenge whose method is basic or digest in any case (and the one answered before, if any) decides: it is answered if there is a user and no answer was given before, and given up on otherwise; others are ignored |
| `HttpClients.MethodOfChallenge` | base/httpcommon.cc:753-767 | The method of a challenge is the word it begins with |
| `HttpClients.ProxyAsks` | base/httpclient.cc:780-817 | A 407 of an HTTPS proxy makes the client connect again if and only if it has an answer and can rewind the document; otherwise it is done |
| `HttpClients.StepDecreases` | base/httpclient.cc:726-824 | Every reconnection uses up a potential made of redirects left, context unset and attempts left; nothing brings it back |
| `HttpClients.RequestsBounded` | base/httpclient.cc:353-412 | Whatever is reported, a request asks for at most 2 * (kMaxRedirects + 1) * (retries + 1) connections |
| `HttpClients.BoundIsMet` | base/httpclient.cc:458-469 | Some run asks for exactly that many |
| `LockFreeQueue.ProducerKeeps` | base/atomicops.h:92-106 | Each load, slot write and increment of PushBack keeps the invariant, wherever the consumer is |
| `LockFreeQueue.ConsumerKeeps` | base/atomicops.h:112-134 | So does each step of PeekFront and PopFront, with a stale copy of pushed_count_; the invariant holds what was peeked at as well as what was popped |
| `LockFreeQueue.SlotsDiffer` | base/atomicops.h:101-101 | Values that can be in the queue together have different slots across the wrap of the counters if the capacity divides 2^32 |
| `LockFreeQueue.Safety` | base/atomicops.h:92-151 | In every interleaving, pops are a prefix of pushes, Size() is the number held and at most capacity, no unread slot is written, the front slot holds the oldest value |
| `LockFreeQueue.TakesFront` | base/atomicops.h:112-134 | In every interleaving a PeekFront changes nothing but to return the oldest unread value, and a PopFront takes just that value; both succeed if there was a value when they started and fail if there is still none when they return |
| `LockFreeQueue.PushesBack` | base/atomicops.h:92-106 | In every interleaving a PushBack adds just its value, at the back, or nothing; it succeeds if there was room when it started and fails if there is still none when it returns |
| `LockFreeQueue.PeekThenPop` | base/atomicops.h:112-134 | What a PeekFront returned is what is popped from that place, whenever that happens |
| `LockFreeQueue.PeekRuns` | base/atomicops.h:112-123 | An undisturbed PeekFront of a queue that is not empty returns the value in front |
| `LockFreeQueue.PopRuns` | base/atomicops.h:128-134 | An undisturbed PopFront of a queue that is not empty takes the value in front |
| `LockFreeQueue.EmptyRuns` | base/atomicops.h:117-119 | Peeking and popping on an empty queue change nothing |
| `LockFreeQueue.FullRuns` | base/atomicops.h:97-99 | Pushing on a full queue changes nothing |
| `LockFreeQueue.WrapBreaksOrder` | base/atomicops.h:92-106 | Finding: for any other capacity a run is constructed that pops a value out of order after 2^32 pushes |
| `LockFreeQueue.FifoForever` | base/atomicops.h:92-134 | First in, first out in all runs, if and only if the capacity divides 2^32 |
| `LockFreeQueue.SizeOnOwnThread` | base/atomicops.h:149-151 | Size() called on the producer's or the consumer's thread is in [0, capacity], whatever the other does between its loads |
| `LockFreeQueue.SizeAnywhere` | base/atomicops.h:149-151 | Called on a third thread it is in range if and only if nothing pushed after its first load has been popped by its second (for fewer than 2^32 - capacity such values) |
| `LockFreeQueue.SizeFromOutside` | base/atomicops.h:149-151 | Finding: a run in which a third thread sees a size above capacity |
| `TcpFraming.UnframeFrames` | base/asynctcpsocket.cc:291-310 | Unframing the frames of any packets gives back exactly these packets, and then what follows |
| `TcpFraming.UnframeRefolds` | base/asynctcpsocket.cc:291-310 | What has been unframed, framed again, and the rest are the bytes there were |
| `TcpFraming.FrameRoundTrip` | base/asynctcpsocket.cc:279-281 | A packet survives framing if and only if its length fits in 16 bits (section 2 of RFC 4571) |
| `TcpFraming.FrameIs` | base/asynctcpsocket.cc:279-281 | A frame is the length modulo 2^16, more significant byte first, and the packet |
| `TcpFraming.Sender.Send` | base/asynctcpsocket.cc:265-289 | A packet is accepted whole or dropped whole, in exactly the stated cases, and the stream plus the buffer are the accepted packets, framed |
| `TcpFraming.Sender.FlushOutBuffer` | base/asynctcpsocket.cc:167-182 | A partial send moves exactly the sent bytes |
| `TcpFraming.Sender.OnWriteEvent` | base/asynctcpsocket.cc:233-243 | Ready to send exactly when everything accepted has been carried |
| `TcpFraming.Receiver.ProcessInput` | base/asynctcpsocket.cc:291-310 | Exactly the complete packets are signalled, the rest is kept, and less than one maximal frame remains |
| `TcpFraming.Receiver.OnReadEvent` | base/asynctcpsocket.cc:194-231 | After any segmentation the packets signalled are those of all bytes received; the overflow branch is not reached |
| `TcpFraming.EndToEnd` | base/asynctcpsocket.cc:265-310 | For any schedule the receiver's packets are a prefix of the packets not dropped, and all of them once the bytes have drained |
| `NatWire.SameRouteMeans` | base/natserver.cc:34-55 | What neither RouteCmp order separates: same source, and for symmetric NATs same destination |
| `NatWire.SamePeerMeans` | base/natserver.cc:57-81 | What AddrCmp does not separate, for each NAT type |
| `NatWire.StrictWeakOrders` | base/natserver.cc:44-81 | Both comparators are strict weak orders, as the containers require |
| `NatWire.AddressReadsBack` | base/natsocketfactory.cc:39-81 | A packed IPv4 or IPv6 address reads back from the front of any packet and leaves its data |
| `NatWire.HeaderIs` | base/natsocketfactory.cc:39-58 | The header of the IPv4 address a.b.c.d:port is 0, 2, the port and a, b, c, d in network order |
| `NatWire.HeaderRefused` | base/natsocketfactory.cc:63-81 | A packet has no header if and only if it is too short or does not begin with a zero byte |
| `NatServer.NATServer.Translate` | base/natserver.cc:163-175 | A new mapping enters both maps |
| `NatServer.NATServer.OnInternalPacket` | base/natserver.cc:108-131 | Both maps describe the same entries, the packet leaves from its mapping's address with its header removed, and the whole history keeps its mapping and filtering rules; it is dropped only without a header or a socket |
| `NatServer.NATServer.OnExternalPacket` | base/natserver.cc:133-161 | An outside packet is forwarded, with its sender's address in front, exactly as the history of invitations says |
| `NatServer.TransEntry.WhitelistInsert` | base/natserver.cc:193-196 | After an insertion the address is found, and a whitelist with one address per class that the comparator does not separate stays one |
| `NatServer.FilteringByKind` | base/natserver.cc:133-201 | In every run an outside packet reaches host s if and only if s earlier sent through that mapping to anyone / to that IP / to that address and port (section 5 of RFC 3489) |
| `NatServer.MappingByKind` | base/natserver.cc:108-175 | Two outgoing packets leave from one address if and only if they have the same source (and, for symmetric NATs, destination) (section 4.1 of RFC 4787) |
| `NatServer.AnswersGetIn` | base/natserver.cc:108-161 | Every NAT type lets an answer back in, to the host that asked |
| `MessageHeap.TimeIsLaterMeans` | base/timeutils.cc:175-188 | Times no more than 2^31 ms apart compare as real ones |
| `MessageHeap.TopIsFirst` | base/messagequeue.h:163-181 | Nothing in a heap is before its top in the order (trigger, number) |
| `MessageHeap.PriorityQueue.Push` | base/messagequeue.cc:309-330 | push keeps the heap and adds exactly one element |
| `MessageHeap.PriorityQueue.Pop` | base/messagequeue.cc:223-225 | pop keeps the heap and removes exactly a first element |
| `MessageHeap.PriorityQueue.Reheap` | base/messagequeue.h:244-248 | reheap makes any arrangement a heap of the same elements |
| `MessageQueues.OnePlace` | base/messagequeue.cc:186-395 | Every message that became ready is in exactly one place: the list (in order), the peek slot, delivered, disposed of, or cleared |
| `MessageQueues.DelayedOnePlace` | base/messagequeue.cc:309-330 | Every accepted delayed message is in exactly one of heap, line, cleared |
| `MessageQueues.FirstInFirstOut` | base/messagequeue.cc:228-234 | When an entry has been delivered, everything that became ready before it has left the list before it |
| `MessageQueues.ReadyInOrder` | base/messagequeue.h:163-181 | Of two delayed messages pending together, the one with the smaller trigger, or the same and posted first, becomes ready first |
| `MessageQueues.NeverEarly` | base/messagequeue.cc:219-222 | At every time, a delayed message is due if and only if that time is up to 2^31 ms past the end of the delay, modulo 2^32: never early, ready on time, and (a finding) early again when more than 2^31 ms overdue |
| `MessageQueues.NoneHeldBack` | base/messagequeue.cc:219-226 | Every due message is released if and only if no clock wrap lies between a due and a not-due pending one |
| `MessageQueues.HeldBack` | base/messagequeue.h:172-175 | Finding: a due message stuck behind one that is due later, because operator< compares raw 32-bit times |
| `MessageQueues.SameEpoch` | base/messagequeue.h:172-175 | Triggers in the same 2^32 ms as now never hold each other back |
| `MessageQueues.MessageQueue.Post` | base/messagequeue.cc:288-307 | A post goes to the end of the list, or nowhere on a queue that is quitting |
| `MessageQueues.MessageQueue.DoDelayPost` | base/messagequeue.cc:309-330 | A delayed post joins the heap with the next number |
| `MessageQueues.MessageQueue.ReleaseDue` | base/messagequeue.cc:215-227 | The due messages, in order and none early, join the list; the first one left is not due |
| `MessageQueues.MessageQueue.TakeReady` | base/messagequeue.cc:228-253 | Disposals at the front are carried out and skipped; the first other message is taken |
| `MessageQueues.MessageQueue.Pass` | base/messagequeue.cc:198-254 | One pass hands out the first message, to be handed out, of the list followed by what is due |
| `MessageQueues.MessageQueue.Get` | base/messagequeue.cc:186-283 | The peeked message first; then what is ready is delivered before Get waits, times out or stops; it waits exactly to the next trigger or to the end of its time, and times out only, and always, when the clock says the time given is over |
| `MessageQueues.MessageQueue.Peek` | base/messagequeue.cc:174-184 | A peeked message stays and is what the next Peek or Get returns |
| `MessageQueues.MessageQueue.Clear` | base/messagequeue.cc:348-395 | Removed from peek slot, list and heap, in this order, and handed over or deleted, are exactly: the handler's messages (id MQID_ANY), the handler's messages with the id, everybody's with the id (handler NULL), or all; the others keep their order, and the heap is a heap |
| `MessageQueues.MatchMeans` | base/messagequeue.h:152-155 | Match is true of exactly those messages, 0xFFFFFFFF standing for every id and NULL for every handler |
| `MessageQueues.ThoseMeans` | base/messagequeue.cc:359-375 | What Clear keeps and what it removes of the list: the messages hit, and the others |
| `LinkedPtrs.Pointers.Construct` | base/linked_ptr.h:60-61 | A pointer constructed from an object that no pointer had, or from null, is alone in its ring |
| `LinkedPtrs.Pointers.Copy` | base/linked_ptr.h:64-65 | A copy joins the ring of its original, right behind it, null or not |
| `LinkedPtrs.Pointers.Assign` | base/linked_ptr.h:66-73 | Assignment moves a pointer between rings, deletes what it alone held, and leaves self-assignment alone |
| `LinkedPtrs.Pointers.Acquire` | base/linked_ptr.h:99-110 | The pointer surgery of acquire keeps every ring a doubly linked circle |
| `LinkedPtrs.Pointers.Release` | base/linked_ptr.h:127-136 | release deletes the object exactly if no one else holds it |
| `LinkedPtrs.HoldersFormOneRing` | base/linked_ptr.h:96-136 | The live pointers to one object are exactly the members of one circular doubly linked list |
| `LinkedPtrs.UniqueMeansAlone` | base/linked_ptr.h:92-92 | unique() is true if and only if no other live pointer holds the object |
| `LinkedPtrs.DeletedWhenLastIsGone` | base/linked_ptr.h:127-136 | An object is deleted if and only if no live pointer holds it, and once |
| `Md5.FoldBlock` | base/md5.cc:70-84 | Appending a block to the message applies the block function once more |
| `Md5.InitialIs` | base/md5.cc:40-47 | The initial words are 01 23 45 67 89 ab cd ef fe dc ba 98 76 54 32 10, low-order bytes first (section 3.3 of RFC 1321) |
| `Md5.PaddedIs` | base/md5.cc:90-114 | A padded message byte by byte: the message, 0x80, as few zeros as make whole blocks, and the bit length in 64 bits, low-order byte first |
| `Md5.PaddingIsInjective` | base/md5.cc:90-114 | Messages below 2^61 bytes that pad alike are alike |
| `Md5.MD5Context.Count` | base/md5.cc:53-58 | The two counter words stay the bit length modulo 2^64, carries included |
| `Md5.CountAdds` | base/md5.cc:53-58 | The words' addition with carry adds bit lengths modulo 2^64 |
| `Md5.MD5Context.Update` | base/md5.cc:50-87 | After any split into updates the context is the block fold of all whole blocks so far, and holds the rest |
| `Md5.MD5Context.Final` | base/md5.cc:90-125 | The digest is the block fold over the message padded as in sections 3.1 to 3.4 of RFC 1321 |
| `Base64.EncodeFromArray` | base/base64.cc:98-136 | The encoding loop computes the canonical encoding (section 4 of RFC 4648) |
| `Base64.EncodedLength` | base/base64.cc:100-102 | The result has the size reserved for it |
| `Base64.GetNextQuantum` | base/base64.cc:138-190 | The scanning loop finds the quantum the specification describes, for every parse flag |
| `Base64.QuantumAdvances` | base/base64.cc:138-190 | A quantum lies behind as many characters as it has values, pads rolled back included |
| `Base64.DecodeFromArray` | base/base64.cc:205-258 | The decoding loop computes Decode for all 27 flag combinations; DecodeMeans and the rows of Base64Options say what that is |
| `Base64.BitsOfSextets` | base/base64.cc:213-235 | The values of a quantum come back from its bytes if no bit is wasted |
| `Base64.StrictOnlyEncoded` | base/base64.cc:205-258 | Whatever strict decoding accepts is the encoding of its result |
| `Base64.StrictIsInverse` | base/base64.cc:98-258 | Strict decoding succeeds on exactly the strings EncodeFromArray produces, and inverts it |
| `Base64Laws.AlphabetIs` | base/base64.cc:32-35 | The alphabet is A to Z, a to z, 0 to 9, plus and slash (section 4 of RFC 4648) |
| `Base64Laws.SameBits` | base/base64.cc:222-235 | Four values and the three bytes they are decoded to have the same 24 bits |
| `Base64Laws.Foobar` | base/base64.cc:98-136 | The test vector of section 10 of RFC 4648: foobar is encoded as Zm9vYmFy |
| `Base64Laws.DecodeMeans` | base/base64.cc:138-258 | For every combination of flags and every string, going from quantum to quantum gives what a description of the whole string says: the values that can be reached, the pads behind the last of them, the characters used, and success |
| `Base64Laws.BodyIs` | base/base64.cc:149-174 | The values decoded are those of all alphabet characters up to the first character that is neither one nor passed over |
| `Base64Options.TermOnlyJudges` | base/base64.cc:236-251 | The term flag changes neither result nor used: TermBuffer accepts what TermChar accepts and is used up, TermChar what TermAny accepts with no bit unused |
| `Base64Options.ResultIsValues` | base/base64.cc:138-258 | The result depends on the parse flag only: it is the bytes of the values that can be reached |
| `Base64Options.ParseAnyTakesAll` | base/base64.cc:144-176 | With ParseAny these are all alphabet characters of the string |
| `Base64Options.PadsOptional` | base/base64.cc:240-242 | What PadYes accepts PadAny accepts, with the same result and used |
| `Base64Options.PadsAllowed` | base/base64.cc:145-148 | What PadNo accepts PadAny accepts with the same result, but for exactly the ParseAny and TermBuffer strings that end in too few pads |
| `Base64Options.TooFewPads` | base/base64.cc:180-188 | Finding: Zg= is such a string |
| `Base64Options.LaxerParsing` | base/base64.cc:144-176 | What one parse flag accepts and uses up, each laxer one accepts with the same result |
| `Base64Options.ReadsOn` | base/base64.cc:144-176 | Finding: without being used up this fails, for Zg!Z |
| `Base64Options.EncodingsDecode` | base/base64.cc:98-258 | Under all 27 combinations an encoding is decoded to what was encoded, and it is accepted unless pads are disallowed, left over, and to be used up |
| `Base64Options.DroppedIsTransparent` | base/base64.cc:149-152 | For every string, white space (with ParseAny, anything but pads) can be taken out without changing the result, nor the success, but for exactly this case: pads are wanted, none is needed, and the string ends in such a character |
| `Base64Options.SpacedEncodings` | base/base64.cc:138-258 | An encoding with white space (with ParseAny, anything but pads) put in anywhere is decoded to what was encoded, and the exact condition under which it is accepted |
| `Base64Options.LinesOfFoobar` | base/sslidentity.cc:77-79 | With the flags of PemToDer two lines Zm9v and YmFy give foobar, nine characters used |
| `Base64Options.UsedIsAccepted` | base/base64.cc:248-255 | What TermChar reports as used of a string it accepts is a string that TermBuffer accepts, with the same result |
| `Base64Options.PadsNotRequired` | base/base64.cc:138-258 | With PadAny and PadNo, strict parsing to the end accepts exactly the encodings (PadAny only), the encodings without their pads, and (a finding) encodings of complete groups with an A behind |
| `Crc32.StepIsLinear` | base/crc32.cc:41-55 | Polynomial division is linear |
| `Crc32.ByteStep` | base/crc32.cc:60-63 | Eight division steps are one table step |
| `Crc32.Table.EnsureInited` | base/crc32.cc:41-55 | The table holds eight division steps of each byte, however often it is asked for |
| `Crc32.Table.Update` | base/crc32.cc:57-66 | The table-driven loop computes bit-at-a-time reflected division on every input (section 8 of RFC 1952) |
| `Crc32.CrcIsRemainder` | base/crc32.cc:57-66 | The checksum is a polynomial remainder of the message, by Horner's rule over its bits |
| `Crc32.CheckValue` | base/crc32.cc:57-66 | The check value of this checksum: 123456789 gives 0xCBF43926 |
| `Crc32.CrcAppend` | base/crc32.cc:57-66 | Updating piece by piece is one update over the concatenation |
| `Crc32.DetectsBursts` | base/crc32.cc:57-66 | Messages that differ only within four consecutive bytes have different checksums |
| `Multipart.MultipartStream.AddData` | base/multipart.cc:69-91 | A part is its boundary, its headers and its data |
| `Multipart.MultipartStream.EndParts` | base/multipart.cc:93-109 | The closing boundary is the last part; reading is in step exactly if every part was handed over at its start |
| `Multipart.MultipartStream.GetPartSize` | base/multipart.cc:111-131 | The announced size is the size that AddPart adds |
| `Multipart.MultipartStream.GetEndPartSize` | base/multipart.cc:133-140 | The announced size is the size that EndParts adds |
| `Multipart.MultipartStream.Read` | base/multipart.cc:153-172 | Reads return the next bytes of the concatenated parts and move the position by as many; the end is only at the end |
| `Multipart.MultipartStream.SetPosition` | base/multipart.cc:192-217 | Unless a part refuses, it succeeds exactly for the positions of bytes (not at the end), and the cursor is there; after a refusal the cursor is intact if and only if the current part has not moved |
| `Multipart.MultipartStream.GetAvailable` | base/multipart.cc:240-255 | What is available is the size minus the position |
| `Multipart.PieceOfContents` | base/multipart.cc:153-172 | Bytes of a part are bytes of the concatenation at the part's offset |
| `Multipart.SplitsBack` | base/multipart.cc:59-109 | A body whose delimiter (section 5.1.1 of RFC 2046) is in no part, with a boundary without CR, splits at the delimiter into exactly its parts, each with its headers, an empty line and its data, and the closing dashes |
| `Multipart.ContentsAre` | base/multipart.cc:153-172 | What the stream holds is the texts of its parts one after the other |
| `DiskCaches.NoReaderBesideWriter` | base/diskcache.cc:114-186 | Readers and writers never coexist on one resource |
| `DiskCaches.DiskCache.LockResource` | base/diskcache.cc:114-126 | The result and the new state for every state: refused when locked or being read; got at once within the limit; otherwise decided by which idle entries are evicted, refused only if that gives up, and dangling if the resource is one of them |
| `DiskCaches.CanDangle` | base/diskcache.cc:114-126 | Finding: some eviction takes the resource that is being locked if and only if the cache is overfull, the resource is new or idle, and the resources in use fit into the limit |
| `DiskCaches.GoOn` | base/diskcache.cc:240-263 | An eviction that has begun can go on until the limit is met, if what is in use fits into it |
| `DiskCaches.Overfill` | base/diskcache.cc:331-349 | A run into an overfull cache with an idle resource: another one, locked, has grown over the limit |
| `DiskCaches.DanglingHappens` | base/diskcache.cc:119-124 | Finding: in that cache, locking the idle resource can evict it |
| `DiskCaches.DiskCache.WriteResource` | base/diskcache.cc:128-154 | A writer is opened exactly on a locked resource, and entry and totals are adjusted |
| `DiskCaches.DiskCache.ReadResource` | base/diskcache.cc:171-186 | A reader is opened exactly on an unlocked resource with that stream |
| `DiskCaches.DiskCache.UnlockResource` | base/diskcache.cc:156-169 | Unlocking waits for open writers |
| `DiskCaches.DiskCache.DeleteResource` | base/diskcache.cc:203-227 | A resource in use is not deleted; an idle one leaves map and totals even if its files stay |
| `DiskCaches.DiskCache.CheckLimit` | base/diskcache.cc:229-264 | The entries that go are idle ones, one by one while the cache is overfull; success means the limit is met; it fails only when everything is in use or a deletion fails; the loop ends |
| `DiskCaches.DiskCache.ReleaseResource` | base/diskcache.cc:331-360 | The entry of an open adapter is there; the totals stay the sums; the last writer unlocks |
| `DiskCaches.DiskCache.Purge` | base/diskcache.cc:98-112 | Finding: after Purge the account is right if and only if the total size was zero |
| `DiskCaches.PurgeMiscounts` | base/diskcache.cc:98-112 | Finding: a run that purges a quiet cache and leaves a wrong total |
| `DiskCaches.CloseIsGuarded` | base/diskcache.cc:331-360 | Closing any one adapter keeps the guards of all resources |

## Left out

- Sockets, files, clocks, DNS, proxies and stream pools: streams and sockets answer as they like within their interface (a stream that returns SR_SUCCESS for a non-empty request moves at least one byte), and times, file sizes and lookups are parameters or arbitrary values.
- HTTP number parsing: `strtoul` and `sscanf("%u")` are taken as in glibc with a 64-bit unsigned long, the value of %u reduced modulo 2^32; chunk sizes written by the sender are below 2^32.
- HTTP callbacks: the answers of `ProcessLeader` and `onHttpHeaderComplete` are arbitrary functions; `DocumentStream` (reading a response by pulling) and the signals are not modelled.
- HttpEncode.ChunkedRoundTrip: is about heads that the receiver's callbacks accept and whose headers contain no line ends, NULs, colons in names or outer white space in values, since others are different messages on the wire.
- HttpEndToEnd.CodingUnderstoodAlike: headers are a list in the order in which they are sent, and `hasHeader` finds the first of several with one name.
- HttpSend.HttpSender.FlushData: without a document and with a network that blocks, the loop of the source spins; the model follows it for a given number of rounds only.
- HttpClients.RequestsBounded: is about Basic and Digest; Negotiate and NTLM (Windows only) answer more than once per context.
- HttpClients.HttpClient.OnHttpComplete: the cache's own states, the host and path of a redirect, and the text of the credentials are not modelled.
- LockFreeQueue.Safety: memory is sequentially consistent; `size_t` has 32 bits; `ClearAndResizeUnsafe` is not modelled.
- TcpFraming.Sender.Send: the failing assertion for sizes of 65536 and more is a result of its own; `SendRaw`, listening and closing are not modelled.
- NatServer.NATServer.OnInternalPacket: outside sockets are obtained with addresses not in use; addresses have no host names; failed assertions drop the packet.
- NATSocket and the translators of natsocketfactory.cc: not modelled beyond the header they pack and unpack.
- MessageHeap.PriorityQueue.Push: `push`, `pop` and `make_heap` are textbook heap operations; the arrangement of a heap in the original's standard library may differ, its order of removal does not, unless two messages have the same trigger and number.
- MessageQueues.MessageQueue.Get: other threads act while it waits (any number of posts, clears, quits and restarts), not between its own critical sections; the wait is followed for a given number of rounds; `ReceiveSends` does nothing in the base class; late-delivery warnings are not modelled.
- MessageQueues.DelayedOnePlace: for at most 2^32 delayed posts, after which their numbers repeat.
- linked_ptr's template conversions and `get`: nothing new happens there.
- Md5.MD5Context.Final: `MD5Transform` is an arbitrary block function; words are little-endian.
- Base64Options.PadsNotRequired: is about strict parsing; what white space and other characters add to that is in DroppedIsTransparent. `IsBase64Encoded` and `GetNextBase64Char` are not modelled.
- DiskCaches.DiskCache.CheckLimit: which entry its scan picks is left open, so no claim about age is made, and `some eviction` in CanDangle means some order of picks; the scan's step past the last entry of the map is not modelled.
- DiskCaches.DiskCache.LockResource: what the source does with the pointer to an entry it has just evicted is reported as the result Dangling, without effect.
- ByteBuffer, HttpServer, HTTP caching rules, dates, BandwidthSmoother, network merging, IP address arithmetic, AsyncInvoker and the platform code: not modelled.
