# Verified models of Synciga's byte-stream core

Synciga synchronises files between peers over libjingle. Its core is a set of machines that
must move bytes without losing, repeating or reordering any, however the network cuts the
stream and whoever blocks: the HTTP parser and send pump, packet framing over TCP and the file
pump. Around them stand a lock-free queue, a smart pointer, a cache with locks, and codecs. This
project models them in Dafny and proves what they are for. `dafny verify dfyconfig.toml`
verifies everything.

How the models are built:

- Code that changes objects step by step is a class with those fields and the same loops. Each
  method is proved against a specification that does not mention its steps: a reference machine,
  a mathematical function, or an invariant over all that has gone in and out.
- Streams, sockets, files, resolvers and servers (`Streams`, and the nondeterministic choices in
  the other modules) do what they like within their contract: a success moves at least one byte,
  a call that does not succeed moves nothing. Every result holds for every such behaviour. The
  streams count the calls that moved nothing, those that blocked, failed or met an end apart, so
  that a contract can say exactly why an operation stopped.
- Whole runs are methods that make any number of arbitrary steps (`HttpModes.AnyRun`,
  `XmppPump.Transfer`, `DiskCaches.AnyRun`, `LinkedOwners.AnyRun`, `HttpClients.AnyServer`,
  `ByteBuffers.AnyFifoRun`) or lemmas over sequences of steps (`HttpReceiving`, `LockFreeQueue`).

What a reader might not expect, each proved with the exact condition:

- When the network stream ends while a blocked document has left bytes in the receive buffer,
  `DoReceiveLoop` loses them: a body without a length is complete exactly when the buffer was
  empty or the body was to be ignored (`CloseKeepsBodyIff`, `BlockedTailCanBeLost`).
- `AsyncTCPSocket::Send` admits packets of 65536 bytes, whose length field becomes 0; a frame
  gives back its packet exactly when the packet is shorter than that (`FramesSurviveIff`).
- The lock-free queue is first-in first-out in every interleaving exactly when its capacity
  divides 2^32 (`FifoIffCapacityDivides`); for other capacities it is so for the first 2^32 - 1
  pushes.
- A receiving file pump whose tunnel ends loses what its buffer holds, and nothing else
  (`TunnelEndLosesAByte`).
- A rolled back `CacheLock` removes its resource exactly when none of its streams is still open,
  and `Purge` leaves the size account right exactly when it was zero (`PurgeLosesTheAccount`).
- Eviction never removes an idle entry while an older idle one stays, but it may remove nothing:
  the scan starts at the first idle entry, also looks at entries in use, and a round gives up
  exactly if the entry it finds is in use (`RoundMeans`, `EvictionGivesUp`). It leaves the map
  exactly if a single entry is idle and comes last (`PastTheEndIff`), so whenever the only
  entry is too large. And locking a resource can evict it under the lock (`LockErases`).
- Assigning to a linked_ptr runs into freed memory exactly if the release of the old object
  destroys the pointer that is assigned, or the object of which the target is a member
  (`LinkedOwners.Assign`, `AssignOwnMember`).
- A close that comes together with the event that was waited for is dropped
  (`CloseCanBeDropped`), and `send` and `recv` without a connection report a socket error, since
  they pass HE_DISCONNECTED as if it were a stream error.
- The connection bound of `HttpClient` is attained (`WorstServer`).
- Required Base64 padding does not tolerate noise behind an encoding that needs no pads, while
  it does everywhere else (`NoisyEncodingDecodes`, `DecodesExactly`).
- An attribute list reads back exactly when no name holds white space and equal signs stand only
  at the end of names (`ComposedParsesBackIff`); the base64-token case named in the source's own
  comment is included.

## Model

| member | source | states |
|---|---|---|
| Streams.Sink.Write | src/talk/base/httpbase.cc:697-714 | A write accepts a non-empty prefix of the data, or nothing; calls that blocked and calls that failed are counted apart. |
| Streams.Source.Read | src/talk/base/httpbase.cc:531-552 | A read delivers at least one and at most the asked number of elements, which extend the history, or nothing; blocked and failed calls are counted apart. |
| Streams.Stored.Read | src/talk/base/httpbase.cc:642-682 | A document is read from front to back without gaps; its end is reported only when all of it has been read; blocks, failures and ends are counted apart. |
| Buffers.Buffer.Append | src/talk/base/httpbase.cc:647-658 | A copy to the end of a buffer appends to its text and changes nothing else. |
| Buffers.Buffer.Drop | src/talk/base/httpbase.cc:571-572 | A move to the front drops exactly the first elements, overlapping or not. |
| Buffers.Buffer.Shrink | src/talk/base/asynctcpsocket.cc:122-126 | Lowering the count forgets the last elements only. |
| HttpBuffers.Print | src/talk/base/httpbase.cc:723-739 | Bounded printing keeps the text, cut for the terminator, if the buffer stays below the limit, and else leaves the buffer as it was. |
| HttpParsing.LineStepKeeps | src/talk/base/httpbase.cc:144-229 | No line, good or bad, completes the parser state or touches the body. |
| HttpParsing.FeedAllAppend | src/talk/base/httpbase.cc:79-142 | The reference machine on a concatenation is the machine on one part and then the other. |
| HttpParsing.FinishedStays | src/talk/base/httpbase.cc:79-142 | A verdict, once reached, does not depend on what follows. |
| HttpParsing.CloseError | src/talk/base/httpbase.cc:491-508 | The whole table: a clean close is HE_NONE exactly at a valid end of input while receiving and HE_DISCONNECTED otherwise; code 13 is HE_AUTH, code -2146893016 HE_CERTIFICATE_EXPIRED; any other code is HE_CONNECT_FAILED while connecting and HE_SOCKET_ERROR else. |
| HttpParsing.FeedPartialLine | src/talk/base/httpbase.cc:91-98 | A line without its newline has no effect but to be remembered. |
| HttpParsing.FeedLine | src/talk/base/httpbase.cc:99-110 | Feeding a line character by character does what processing the trimmed line does. |
| HttpParsing.FeedData | src/talk/base/httpbase.cc:117-138 | Feeding body characters one by one is delivering them in one piece, up to the length of the body or chunk. |
| HttpParsing.FeedThroughLine | src/talk/base/httpbase.cc:91-110 | A line cut from the middle of the buffer takes the machine where its processing leads. |
| HttpParsing.FeedThroughData | src/talk/base/httpbase.cc:117-138 | Body bytes accepted from the middle of the buffer take the machine where their delivery leads. |
| HttpParsing.LineEnd | src/talk/base/httpbase.cc:92-98 | The position found is that of the first newline, or the end. |
| HttpParsing.HttpParser.constructor | src/talk/base/httpbase.cc:72-77 | After a reset the parser waits for a leader, knows no length and has delivered nothing. |
| HttpParsing.HttpParser.ProcessHeader | src/talk/base/httpbase.cc:168-185 | Content-Length and Transfer-Encoding change the framing or are protocol errors; every accepted header is reported. Which texts do which is what the rows of HttpFraming say. |
| HttpParsing.HttpParser.ProcessHeaderLine | src/talk/base/httpbase.cc:156-185 | A header line is name, colon, value without leading white space; without a colon it is a protocol error. |
| HttpParsing.HttpParser.ProcessHeaderComplete | src/talk/base/httpbase.cc:840-860 | The blank line moves on to chunks or data, with the size, ignore flag and error that the user answers; it blocks exactly if the user takes the document stream over. |
| HttpParsing.HttpParser.ProcessLine | src/talk/base/httpbase.cc:144-229 | Each state does with a line what the line step of the reference machine says; it blocks only at the end of the headers. |
| HttpParsing.HttpParser.ProcessData | src/talk/base/httpbase.cc:862-885 | The document and the recorded body grow by exactly the accepted prefix; a refusal delivers nothing. |
| HttpParsing.HttpParser.TakeLine | src/talk/base/httpbase.cc:91-110 | After a line the parser is where the reference machine is after the same characters. |
| HttpParsing.HttpParser.TakeData | src/talk/base/httpbase.cc:117-138 | After body bytes, partly accepted or refused, the parser is where the reference machine is after the bytes consumed. |
| HttpParsing.HttpParser.EndChunk | src/talk/base/httpbase.cc:111-116 | At the end of a chunk the parser awaits its line end, as the reference machine does. |
| HttpParsing.HttpParser.Process | src/talk/base/httpbase.cc:79-142 | One call consumes a prefix of its input and ends where the reference machine ends on that prefix; it asks for more only when no whole line or body byte is left, blocks exactly if the document blocked or the user took the document stream over, and completes exactly with the document's failure or the machine's verdict. |
| HttpReceiving.SessionInvariant | src/talk/base/httpbase.cc:567-584 | At every point of every sequence of calls, with unprocessed tails kept, the stream so far is what was consumed followed by the tail, and the parser is where the reference machine is after the former. |
| HttpReceiving.SegmentationIndependence | src/talk/base/httpbase.cc:79-229 | Whatever the cuts and partial acceptances, events, body, state and error are those of the reference machine on the whole stream in one piece. |
| HttpReceiving.CutsDoNotMatter | src/talk/base/httpbase.cc:79-229 | Two runs over one stream, cut and accepted differently, report the same result, error, events, body, state and unfinished line. |
| HttpReceiving.CloseKeepsBodyIff | src/talk/base/httpbase.cc:546-551 | When the stream ends a body without a length, the document has the whole body exactly if no characters were left in the buffer or the body is ignored. |
| HttpReceiving.BlockedTailCanBeLost | src/talk/base/httpbase.cc:522-580 | For every leader line that the user accepts, a stream and a legal call after which a buffered byte of the body has not been delivered and the end of the stream would drop it. |
| HttpReceiving.Receiver.constructor | src/talk/base/httpbase.cc:461-466 | A receive starts with an empty buffer and a reset parser, which satisfies the conservation invariant. |
| HttpReceiving.AfterCall | src/talk/base/httpbase.cc:567-584 | One call takes the reference machine from where the parser was to where it is, over exactly the characters consumed; a verdict stands whatever is left. |
| HttpReceiving.Receiver.ProcessBuffer | src/talk/base/httpbase.cc:567-584 | One pass keeps "received = consumed + buffer"; a completed parse gives the machine's verdict on everything received; the parser never marks itself complete, so that its completion will be reported. |
| HttpReceiving.Receiver.ReadMore | src/talk/base/httpbase.cc:528-565 | A read extends what has been received, in the buffer, and leaves the parser; blocks and ends are counted with their code; when a body without a length ends, it is whole exactly if the buffer is empty or the body ignored. |
| HttpReceiving.Receiver.ReceiveLoop | src/talk/base/httpbase.cc:510-589 | The loop reports the machine's verdict on everything received; HE_OVERFLOW only for an unfinished line that fills the buffer; on close the error of HandleStreamClose for the code of the stream and whether the body is whole; each way to end has its own cause: a verdict, a failure of the document or of the stream, the end of the stream, and it goes on later only for lack of input, a blocked document, a user that takes over, or after twenty fruitful reads; it never reads more than 21 times. |
| HttpSending.BodyGrows | src/talk/base/httpbase.cc:645-669 | Reading one more piece, or the end, extends the body text by one chunk or the piece, or by the last chunk. |
| HttpSending.PieceRead | src/talk/base/httpbase.cc:642-658 | The pieces read so far, joined, are the document up to the read position. |
| HttpSending.Sender.constructor | src/talk/base/httpbase.cc:424-446 | Send queues the leader, and the blank line if there are no headers, as the canonical message begins. |
| HttpSending.Sender.PrintLeader | src/talk/base/httpbase.cc:439-440 | The leader and its line end fill a non-empty part of the buffer and leave room for a terminator. |
| HttpSending.Sender.QueueHeader | src/talk/base/httpbase.cc:722-737 | A header is queued whole once, skipped if it can never fit, or put off with the buffer unchanged. |
| HttpSending.Sender.QueueHeaders | src/talk/base/httpbase.cc:719-741 | Headers go out in order, each that fits once, then one blank line; a write is required exactly while headers are left. |
| HttpSending.Sender.EndHeaders | src/talk/base/httpbase.cc:738-739 | The blank line completes the head of the message. |
| HttpSending.Sender.QueuePiece | src/talk/base/httpbase.cc:645-658 | A piece of the document is appended, as a chunk if so asked, within the buffer. |
| HttpSending.Sender.QueueLastChunk | src/talk/base/httpbase.cc:663-669 | The last chunk is appended within the buffer and ends the chunking. |
| HttpSending.Sender.QueueDocument | src/talk/base/httpbase.cc:622-684 | Document bytes are queued in order without loss; a block asks for a write, the end of the document for the last chunk or a write, and the send ends with HE_STREAM exactly if the read failed and with HE_NONE only if all has been read and written; the asserts on the reserve hold. |
| HttpSending.Sender.WriteBuffer | src/talk/base/httpbase.cc:695-714 | A partial write moves bytes from the buffer to the network and keeps their concatenation. |
| HttpSending.Sender.NothingLeft | src/talk/base/httpbase.cc:670-692 | With nothing buffered or unread, the network has the whole message. |
| HttpSending.Sender.Queue | src/talk/base/httpbase.cc:611-684 | Headers, then document: what is queued next, and the exact cause if that ends the send. |
| HttpSending.Sender.Round | src/talk/base/httpbase.cc:603-714 | One round of queueing and writing keeps the canonical prefix and ends the send only for its own cause. |
| HttpSending.Sender.FlushData | src/talk/base/httpbase.cc:599-717 | At every point accepted bytes followed by the buffer are the canonical prefix of the message; HE_NONE means the whole message was written; HE_STREAM comes exactly of a failed read of the document, a broken stream exactly of a failed write, with its code, and waiting only of a block, with nothing more that could be buffered; and it terminates for every message with a document. |
| HttpRoundTrip.HexReadsBack | src/talk/base/httpbase.cc:651-652 | The digits of a number, read as a number, give it back. |
| HttpRoundTrip.ChunkSizeLine | src/talk/base/httpbase.cc:192-205 | The size line of a chunk is read whole and gives the size of the piece. |
| HttpRoundTrip.ChunkParses | src/talk/base/httpbase.cc:192-214 | A chunk delivers its data and leaves the parser waiting for the next chunk. |
| HttpRoundTrip.ChunksParse | src/talk/base/httpbase.cc:645-658 | Any sequence of chunks delivers the joined pieces. |
| HttpRoundTrip.LastChunkParses | src/talk/base/httpbase.cc:216-221 | The last chunk completes the parse at its last character and not before. |
| HttpRoundTrip.ChunkedRoundTrip | src/talk/base/httpbase.cc:622-684 | For every way of reading the document in pieces, parsing the emitted chunks delivers the document and completes exactly at the last character. |
| HttpRoundTrip.HeaderLineReads | src/talk/base/httpbase.cc:156-185 | A header line as it is sent is read as the same name and value. |
| HttpRoundTrip.HeaderParses | src/talk/base/httpbase.cc:719-737 | A header as it is queued takes the parser through its own header step. |
| HttpRoundTrip.HeadersReported | src/talk/base/httpbase.cc:832-838 | Accepted headers are reported all, once and in order, and leave the body alone. |
| HttpRoundTrip.HeadersParse | src/talk/base/httpbase.cc:719-741 | The queued header block takes the parser through all headers in order. |
| HttpRoundTrip.HeadParses | src/talk/base/httpbase.cc:414-446 | The head of a message takes the parser from its start to the end of the headers. |
| HttpRoundTrip.ChunkedMessageRoundTrip | src/talk/base/httpbase.cc:414-449 | A whole chunked message is parsed into its leader, headers and document, without error. |
| HttpRoundTrip.SizedMessageRoundTrip | src/talk/base/httpbase.cc:414-449 | The same for a message with a length that the user confirms. |
| HttpRoundTrip.SendThenReceive | src/talk/base/httpbase.cc:599-717 | What the network has accepted when a chunked send completes is parsed into the message and the document that was sent. |
| HttpRoundTrip.SendThenReceiveInPieces | src/talk/base/httpbase.cc:510-589 | However what was sent is cut on arrival and taken by the document, the receiving parser never waits for more, and when it completes it has reported the message and the document that was sent, without error. |
| HttpRoundTrip.SendThenReceiveSized | src/talk/base/httpbase.cc:599-717 | The same as for a chunked send for one whose length the receiving user confirms. |
| HttpRoundTrip.SendThenReceiveSizedInPieces | src/talk/base/httpbase.cc:510-589 | However what was sent is cut on arrival and taken by the document, the receiving parser never waits for more, and when it completes, or is interrupted at the very end, it has reported the message and the document. |
| HttpNumbers.SameTextMeans | src/talk/base/httpbase.cc:51-54 | Header names and encodings compare equal exactly if each letter is the same in either case. |
| HttpNumbers.TrimEndMeans | src/talk/base/httpbase.cc:104-106 | What is cut off the end of a line is exactly its trailing white space. |
| HttpNumbers.FindMeans | src/talk/base/httpbase.cc:157-161 | The colon found is the first one of the line, and none is found exactly if there is none before a NUL. |
| HttpNumbers.NumberIsValue | src/talk/base/httpbase.cc:195-195 | Digits read from the left denote the sum of each digit times the power of its place. |
| HttpNumbers.NumberReads | src/talk/base/httpbase.cc:170-170 | A text of white space, a sign or none, decimal digits and anything else reads as the sum of (digit - 48) * 10^place, saturated, and ends where the digits end. |
| HttpNumbers.NumberIff | src/talk/base/httpbase.cc:170-173 | There is a number exactly if white space and at most one sign come before a first decimal digit. |
| HttpNumbers.HexReads | src/talk/base/httpbase.cc:195-195 | Hexadecimal digits in either case read whole as the sum of digit * 16^place. |
| HttpNumbers.HexPrefixReads | src/talk/base/httpbase.cc:195-195 | They may stand behind 0x. |
| HttpFraming.ContentLengthReads | src/talk/base/httpbase.cc:168-174 | After the header Content-Length, in any case, with a value that begins with decimal digits d, the size is the number that d denotes, modulo 2^32. |
| HttpFraming.ContentLengthRefusedIff | src/talk/base/httpbase.cc:170-173 | A Content-Length is HE_PROTOCOL, with nothing changed, exactly if its value does not begin with a number. |
| HttpFraming.TransferEncodingReads | src/talk/base/httpbase.cc:175-183 | Transfer-Encoding switches chunks on for "chunked" and off for "identity", in any case; every other value is HE_PROTOCOL. |
| HttpFraming.OtherHeaderReads | src/talk/base/httpbase.cc:184-184 | Every other header is reported and changes no framing. |
| HttpFraming.NoColonIsRefused | src/talk/base/httpbase.cc:157-161 | A header line without a colon ends the message with HE_PROTOCOL. |
| HttpFraming.ChunkSizeReads | src/talk/base/httpbase.cc:192-199 | A line of hexadecimal digits begins a chunk of the size that they denote, or the trailers if that is zero. |
| HttpFraming.NoChunkSizeIsRefused | src/talk/base/httpbase.cc:196-204 | A size line that is empty or does not end in a digit is HE_PROTOCOL and delivers nothing. |
| HttpFraming.NoChunkEndIsRefused | src/talk/base/httpbase.cc:207-214 | Anything between the data of a chunk and the end of its line is HE_PROTOCOL. |
| HttpFraming.TrailersAreSkipped | src/talk/base/httpbase.cc:216-221 | Trailers are skipped, and the empty line completes the message without error. |
| HttpFraming.LeaderMayBeRefused | src/talk/base/httpbase.cc:826-830 | A leader that the user refuses ends the message with the error of the user. |
| HttpFraming.HeadersMayBeRefused | src/talk/base/httpbase.cc:840-853 | So does an error in answer to the headers. |
| HttpFraming.HeadersAcceptedIff | src/talk/base/httpbase.cc:155-185 | The parser gets through a list of headers exactly if every Content-Length begins with a number and every Transfer-Encoding is a known one. |
| HttpFraming.SizeFromHeaders | src/talk/base/httpbase.cc:168-174 | The last Content-Length decides the size; without one it stays unknown. |
| HttpFraming.ChunkedFromHeaders | src/talk/base/httpbase.cc:175-183 | The last Transfer-Encoding decides whether there are chunks; without one there are none. |
| HttpFraming.AsksIff | src/talk/base/httpbase.cc:433-437 | A send is chunked if all its Transfer-Encodings say "chunked" and there is one, and not if there is none. |
| HttpFraming.SizedDelivery | src/talk/base/httpbase.cc:414-589 | A complete send of a message without a Transfer-Encoding whose last Content-Length is the decimal form of the length of its document is received as that message and document, however it is cut, by every user that takes messages as they come; no size is assumed. |
| HttpFraming.ChunkedDelivery | src/talk/base/httpbase.cc:414-589 | The same for a message whose Transfer-Encodings are "chunked", with a document of any length. |
| HttpModes.TrackedIsOnePerOperation | src/talk/base/httpbase.cc:743-800 | A log that the small automaton accepts has one completion directly after each accepted operation, in its own mode, no other completion, and closed-stream reports only when idle. |
| HttpModes.HttpBase.constructor | src/talk/base/httpbase.cc:375-377 | Nothing is under way at first. |
| HttpModes.HttpBase.Attach | src/talk/base/httpbase.cc:388-398 | A stream is attached exactly when idle and alone, and begins a connect if it is still opening; nothing else changes. |
| HttpModes.HttpBase.Detach | src/talk/base/httpbase.cc:400-412 | A stream is detached only when idle. |
| HttpModes.HttpBase.DoComplete | src/talk/base/httpbase.cc:743-761 | What was under way ends with one report in its own mode; a user who waits on the document stream of a receive is told that it is closed. |
| HttpModes.HttpBase.ParserComplete | src/talk/base/httpbase.cc:236-242 | While receiving, the completion of the parser is never swallowed. |
| HttpModes.HttpBase.Parsed | src/talk/base/httpbase.cc:887-891 | The parser's completion ends the receive with one report. |
| HttpModes.HttpBase.FlushData | src/talk/base/httpbase.cc:599-717 | Given what the flush comes to, the send is completed with its error, completed with the error of the broken stream, or goes on unreported; the whole state after it. |
| HttpModes.HttpBase.ReadAndProcess | src/talk/base/httpbase.cc:591-597 | Given what the receive turn comes to, the receive is completed with its error and leaves stream mode, or goes on where the turn left the parser; a user is told of the end by an event exactly if the turn was not the user's own read. |
| HttpModes.HttpBase.Send | src/talk/base/httpbase.cc:414-449 | A send is accepted only when idle and connected, and then reports what its first flush comes to; unconnected it reports a closed stream, as a socket error; busy it changes nothing. |
| HttpModes.HttpBase.Recv | src/talk/base/httpbase.cc:451-472 | The same for a receive, which resets the parser and in stream mode tells the user to read instead. |
| HttpModes.HttpBase.Abort | src/talk/base/httpbase.cc:474-482 | An abort completes what is under way, and only that. |
| HttpModes.HttpBase.StreamClosed | src/talk/base/httpbase.cc:789-800 | A closing stream always ends what is under way with the error of its code, or is reported as closed when idle. |
| HttpModes.HttpBase.OnHttpStreamEvent | src/talk/base/httpbase.cc:767-800 | For every combination of events and mode the exact reports and the whole state: a close ends what is under way exactly if it gets past an open while connecting, a write while sending and a read while receiving; otherwise only the event that was waited for counts, and in stream mode a read is passed on to the user. |
| HttpModes.CloseCanBeDropped | src/talk/base/httpbase.cc:780-787 | A close that comes with a read event while receiving is dropped: the receive goes on with nothing reported. |
| HttpModes.HttpBase.OnDocumentEvent | src/talk/base/httpbase.cc:802-820 | For every combination of events the exact report: the flush or turn that was waited for, or a stream error for a close that gets past it, or nothing. |
| HttpModes.HttpBase.GetDocumentStream | src/talk/base/httpbase.cc:484-489 | There is at most one document stream. |
| HttpModes.HttpBase.ReadDocumentStream | src/talk/base/httpbase.cc:270-326 | Reading through the document stream reports exactly the completion of the receive, if the turn completes it. |
| HttpModes.HttpBase.CloseDocumentStream | src/talk/base/httpbase.cc:334-343 | Closing the document stream leaves the operation under way, and posts a read event exactly if a receive may have waited for it. |
| HttpModes.AnyRun | src/talk/base/httpbase.cc:388-482 | In every run each accepted connect, send and receive gets at most one completion, in its own mode, before anything else is taken on; closed streams are reported only when idle. |
| TcpFraming.RestHasNoPacket | src/talk/base/asynctcpsocket.cc:192-213 | What is left behind all packets holds no whole packet. |
| TcpFraming.PacketsAppend | src/talk/base/asynctcpsocket.cc:192-213 | Reading on from the rest after more bytes arrive gives the packets of the whole. |
| TcpFraming.FramesAppend | src/talk/base/asynctcpsocket.cc:116-119 | Frames of a concatenation are the concatenation of frames. |
| TcpFraming.OnTheWire | src/talk/base/asynctcpsocket.cc:116-119 | A frame is the length in two bytes, the high one first, and then the packet. |
| TcpFraming.InNetworkOrder | src/talk/base/asynctcpsocket.cc:116-116 | The first two bytes of a frame are the big-endian form of the length, as ByteBuffers.ByteIsShift fixes it byte by byte. |
| TcpFraming.LengthOnTheWire | src/talk/base/asynctcpsocket.cc:200-201 | The length field read is the big-endian value of the first two bytes, for every input. |
| TcpFraming.EachOnTheWire | src/talk/base/asynctcpsocket.cc:116-119 | Among the frames of a list every packet stands behind its two length bytes, right behind the frames before it. |
| TcpFraming.FrameSurvivesIff | src/talk/base/asynctcpsocket.cc:107-118 | Of the packets that Send admits, exactly those below 65536 bytes are read back from their frame. |
| TcpFraming.TooLongReadsEmpty | src/talk/base/asynctcpsocket.cc:107-118 | The frame of a packet of 65536 bytes is read as an empty packet, whatever follows. |
| TcpFraming.FramesSurviveIff | src/talk/base/asynctcpsocket.cc:106-213 | A list of admitted packets is read back from its frames if and only if every packet is below 65536 bytes. |
| TcpFraming.FrameArrives | src/talk/base/asynctcpsocket.cc:195-212 | A cut inside the first frame shows no packet; a later one shows exactly the first packet and what the cut leaves of the others. |
| TcpFraming.ArrivedPackets | src/talk/base/asynctcpsocket.cc:192-213 | Whatever part of the frames has arrived, the packets read are the first ones intact, and all once all has arrived. |
| TcpFraming.AsyncTcpSocket.constructor | src/talk/base/asynctcpsocket.cc:70-91 | A new socket has sent, received and signalled nothing. |
| TcpFraming.AsyncTcpSocket.Flush | src/talk/base/asynctcpsocket.cc:215-230 | Partial flushes keep "taken by the socket, then waiting"; the result is positive exactly if something was taken. |
| TcpFraming.AsyncTcpSocket.Send | src/talk/base/asynctcpsocket.cc:106-130 | A packet is refused for its size, dropped whole, or taken whole; bytes out and waiting are always the frames of the accepted packets, which AcceptedOnTheWire spells out byte by byte; with nothing waiting it is dropped exactly if the socket took nothing. |
| TcpFraming.AsyncTcpSocket.OnWriteEvent | src/talk/base/asynctcpsocket.cc:275-281 | A writable socket gets what is waiting, and the frame invariant stays. |
| TcpFraming.AsyncTcpSocket.ProcessInput | src/talk/base/asynctcpsocket.cc:192-213 | All whole packets are signalled in order, and exactly the rest is kept. |
| TcpFraming.AsyncTcpSocket.OnReadEvent | src/talk/base/asynctcpsocket.cc:253-272 | Packets signalled and bytes kept are those of all input; the overflow branch is unreachable. |
| TcpFraming.AcceptedOnTheWire | src/talk/base/asynctcpsocket.cc:106-130 | In what the socket has taken and what waits, each accepted packet stands behind the two bytes of its length, high byte first. |
| TcpFraming.DeliveredPackets | src/talk/base/asynctcpsocket.cc:106-281 | For packets below 65536 bytes, those signalled are the first accepted ones byte for byte, so an in-order selection of those passed to Send, and all accepted ones once everything has arrived. |
| XmppPump.TunnelEnd.Read | src/main/customxmpppump.cc:190-211 | The tunnel gives the next bytes in order, never more than was sent, or nothing; blocks and losses are counted apart. |
| XmppPump.SendingPump.constructor | src/main/customxmpppump.cc:92-117 | A new pump has read and sent nothing. |
| XmppPump.SendingPump.WriteTunnel | src/main/customxmpppump.cc:138-160 | File bytes read are tunnel bytes written followed by the buffer, also when a block cuts the write short; it stops exactly at the first write that blocks or fails. |
| XmppPump.SendingPump.ReadFile | src/main/customxmpppump.cc:160-183 | The buffer is refilled with the next file bytes, to the full unless the file ends; the file is lost exactly if a read of it blocked or failed; "End of file" means the tunnel carries the whole file. |
| XmppPump.SendingPump.OnWritable | src/main/customxmpppump.cc:135-185 | Every sending event terminates, keeps the invariant, only extends the tunnel, and each exit has its own cause: Suspended exactly at a blocked write, TunnelLost exactly at a failed one, FileLost exactly at a blocked or failed read, and else EndOfFile with the whole file sent. |
| XmppPump.SendingPump.OnClose | src/main/customxmpppump.cc:121-129 | A close ends the pump and leaves what was sent. |
| XmppPump.ReceivingPump.constructor | src/main/customxmpppump.cc:92-117 | A new receiver has stored nothing. |
| XmppPump.ReceivingPump.ReadTunnel | src/main/customxmpppump.cc:189-211 | Tunnel bytes read are file bytes stored followed by the buffer; on a block with an empty buffer nothing is in flight; the tunnel is lost exactly if an answer was an end or a failure. |
| XmppPump.ReceivingPump.WriteFile | src/main/customxmpppump.cc:212-229 | The buffer is stored in order; the pump ends, with a prefix stored, exactly if the file refused a write. |
| XmppPump.ReceivingPump.OnReadable | src/main/customxmpppump.cc:186-231 | Every byte read is stored when it suspends; each exit has its own cause: TunnelLost exactly at an end or failure of the tunnel, FileLost exactly at a refused write, and else a block; a lost tunnel costs exactly what was read in the last turn, so nothing if and only if the first read of that turn gave nothing. |
| XmppPump.TunnelEndLosesAByte | src/main/customxmpppump.cc:186-211 | In every state with a byte waiting in the tunnel there is a behaviour of the tunnel by which that byte is read and not stored. |
| XmppPump.ReceivingPump.OnClose | src/main/customxmpppump.cc:121-129 | A close ends the pump and leaves what was stored. |
| XmppPump.Transfer | src/main/customxmpppump.cc:119-232 | In every run of events at both ends the stored file is a prefix of the source file, and the whole file once the sender has seen its end and the receiver waits on an empty tunnel. |
| XmppPump.SmoothTransfer | src/main/customxmpppump.cc:119-232 | One event at each end, with nothing refused or lost and nothing left in the tunnel, transfers the whole file. |
| LockFreeQueue.SlotIsModulo | src/talk/base/atomicops.h:101-121 | Below the wrap, or when the capacity divides 2^32, the slot of the k-th value is k modulo the capacity. |
| LockFreeQueue.SlotsDiffer | src/talk/base/atomicops.h:101-121 | Values less than a capacity apart have different slots. |
| LockFreeQueue.CountersTell | src/talk/base/atomicops.h:145-151 | The wrapped counters answer full, empty and size as the true counts would. |
| LockFreeQueue.StoreKeeps | src/talk/base/atomicops.h:101-101 | A store overwrites no value that has not been popped. |
| LockFreeQueue.LoadKeeps | src/talk/base/atomicops.h:121-121 | A load sees the oldest value pushed and not popped. |
| LockFreeQueue.CountPushKeeps | src/talk/base/atomicops.h:102-106 | Counting a push makes the stored value the newest one. |
| LockFreeQueue.CountPopKeeps | src/talk/base/atomicops.h:128-134 | Counting a pop removes exactly the value loaded. |
| LockFreeQueue.StepKeeps | src/talk/base/atomicops.h:92-134 | Every atomic step of either thread keeps the invariant. |
| LockFreeQueue.RunKeepsFrom | src/talk/base/atomicops.h:92-134 | From any state with the invariant every interleaving keeps it. |
| LockFreeQueue.RunKeeps | src/talk/base/atomicops.h:92-134 | Every interleaving keeps the invariant. |
| LockFreeQueue.EveryRunIsFifo | src/talk/base/atomicops.h:92-151 | In every interleaving the popped values are a prefix of the pushed ones, a peek sees the oldest, Size is the difference and within the capacity, and full and empty are told truly; always if the capacity divides 2^32, else below 2^32 pushes. |
| LockFreeQueue.PushBackAdds | src/talk/base/atomicops.h:92-107 | A push adds its own value as the newest exactly if there was room when it looked, whatever the consumer does between its steps. |
| LockFreeQueue.PopFrontTakes | src/talk/base/atomicops.h:110-134 | A pop takes and a peek shows the oldest value exactly if there was one when it looked, whatever the producer does between its steps. |
| LockFreeQueue.Rounds | src/talk/base/atomicops.h:92-134 | Pushing and popping in turn reaches every pair of equal counters below the wrap. |
| LockFreeQueue.Fill | src/talk/base/atomicops.h:92-107 | From there pushes fill the queue up to the wrap. |
| LockFreeQueue.WrapBreaks | src/talk/base/atomicops.h:101-130 | If the capacity does not divide 2^32, the next push lands on an unread value and the next pop breaks the order. |
| LockFreeQueue.FifoIffCapacityDivides | src/talk/base/atomicops.h:92-151 | All interleavings are first-in first-out exactly when the capacity divides 2^32. |
| LinkedPtrs.Ptr.constructor | src/talk/base/linked_ptr.h:60-61 | A pointer made from an object is a ring of one. |
| LinkedPtrs.Splice | src/talk/base/linked_ptr.h:99-110 | The links of the three pointers concerned after an acquire, also when some of them coincide. |
| LinkedPtrs.Unlink | src/talk/base/linked_ptr.h:131-135 | The links of the neighbours after a release, also when they coincide. |
| LinkedPtrs.SplicedLinked | src/talk/base/linked_ptr.h:99-110 | An acquire makes a longer well-formed ring. |
| LinkedPtrs.UnlinkedLinked | src/talk/base/linked_ptr.h:131-133 | A release of a shared pointer leaves the others a well-formed ring. |
| LinkedPtrs.AcquireKeeps | src/talk/base/linked_ptr.h:99-110 | An acquire keeps all live pointers partitioned into well-formed rings. |
| LinkedPtrs.ReleaseKeeps | src/talk/base/linked_ptr.h:127-136 | So does the release of a pointer that is not alone. |
| LinkedPtrs.LastReleaseKeeps | src/talk/base/linked_ptr.h:127-136 | So does the release of a last owner, whose ring disappears. |
| LinkedPtrs.UniqueMeansAlone | src/talk/base/linked_ptr.h:92-92 | unique() holds exactly of the pointer that is alone in its ring. |
| LinkedPtrs.AdoptedOne | src/talk/base/linked_ptr.h:60-61 | A new ring for an object never adopted keeps the account of owned and deleted objects. |
| LinkedPtrs.DroppedOne | src/talk/base/linked_ptr.h:129-129 | Deleting the object of a ring that disappears keeps the account: owned or deleted, never both, none twice. |
| LinkedPtrs.World.New | src/talk/base/linked_ptr.h:60-61 | Construction adds a ring of one and changes no other. |
| LinkedPtrs.World.Copy | src/talk/base/linked_ptr.h:64-65 | A copy joins the ring of its original and owns the same object. |
| LinkedPtrs.World.Assign | src/talk/base/linked_ptr.h:66-73 | Assignment, also within a ring and to itself, moves the pointer to the other ring and deletes its old object exactly if no one else owned it. |
| LinkedPtrs.World.Destroy | src/talk/base/linked_ptr.h:62-63 | Destruction deletes the object exactly at its last owner. |
| LinkedPtrs.World.Acquire | src/talk/base/linked_ptr.h:99-110 | Acquire puts a pointer that is in no ring into the ring of another. |
| LinkedPtrs.World.Release | src/talk/base/linked_ptr.h:127-136 | Release takes a pointer out, deletes at the last owner, and leaves all other pointers' objects. |
| LinkedPtrs.World.ReleaseLast | src/talk/base/linked_ptr.h:127-136 | The last owner's release deletes its object, if any, once. |
| LinkedPtrs.World.ReleaseShared | src/talk/base/linked_ptr.h:127-136 | A shared release deletes nothing. |
| LinkedPtrs.World.OwnersFormOneRing | src/talk/base/linked_ptr.h:94-97 | The live owners of an object are exactly the members of one ring. |
| LinkedPtrs.World.DeletedIffUnowned | src/talk/base/linked_ptr.h:127-136 | An adopted object has been deleted exactly when no live pointer owns it. |
| LinkedPtrs.AnyRun | src/talk/base/linked_ptr.h:60-136 | After any constructions, copies, assignments and destructions of pointers to objects without linked_ptr members, no object is deleted twice, and the deleted ones are those without a live owner. |
| LinkedOwners.StartFalls | src/talk/base/linked_ptr.h:127-136 | The release of a pointer deletes its object exactly if no one else owns it, and then the members of that object must go, which every set closed under this contains. |
| LinkedOwners.FallGoesOn | src/talk/base/linked_ptr.h:127-136 | So does the destruction of each member, in any order. |
| LinkedOwners.Landed | src/talk/base/linked_ptr.h:127-136 | When nothing more must go, exactly the doomed have gone: the least set that holds the released pointer and, with all owners of an object, its members. |
| LinkedOwners.ComesBack | src/talk/base/linked_ptr.h:127-136 | Destruction comes back to the pointer under release only if that is a member of an object all of whose owners are doomed. |
| LinkedOwners.ReleaseOne | src/talk/base/linked_ptr.h:127-136 | Releasing one pointer deletes its object exactly if no live pointer owns it any more, and names the members that must go next. |
| LinkedOwners.Drop | src/talk/base/linked_ptr.h:127-136 | A release with all that falls with it terminates, comes back to the pointer exactly if it is inside what it dooms, and otherwise destroys exactly the doomed. |
| LinkedOwners.Assign | src/talk/base/linked_ptr.h:66-73 | An assignment runs into freed memory if and only if its source is doomed by the release of its target, or the target is a member of an object that is; otherwise exactly the doomed are destroyed and everything is well formed again. |
| LinkedOwners.Destroy | src/talk/base/linked_ptr.h:62-63 | Destroying a pointer that is not a member is always safe and destroys exactly the doomed. |
| LinkedOwners.Make | src/talk/base/linked_ptr.h:60-61 | Adopting a new object with the given pointers as members keeps everything well formed. |
| LinkedOwners.Copy | src/talk/base/linked_ptr.h:64-65 | So does a copy of any live pointer. |
| LinkedOwners.MemberIsDoomed | src/talk/base/linked_ptr.h:127-136 | A member of the object that only p owns is doomed by the release of p. |
| LinkedOwners.AssignOwnMember | src/talk/base/linked_ptr.h:66-73 | Assigning to the only owner of an object a member of that object runs into freed memory. |
| LinkedOwners.AnyRun | src/talk/base/linked_ptr.h:60-136 | In every run over objects with linked_ptr members, cycles included, up to the first assignment that runs into freed memory, no object is deleted twice and the deleted ones are those without a live owner. |
| DiskCaches.SumChanged | src/talk/base/diskcache.cc:148-152 | Replacing an entry changes a sum by that entry only. |
| DiskCaches.SumMoved | src/talk/base/diskcache.cc:147-152 | Replacing an entry moves a sum by exactly the difference, without underflow. |
| DiskCaches.IdleMayGo | src/talk/base/diskcache.cc:203-227 | An idle entry has no open stream, so its removal keeps the discipline. |
| DiskCaches.EntryChanged | src/talk/base/diskcache.cc:331-360 | Changing one entry with its readers and writers keeps the discipline of the others. |
| DiskCaches.DiskCache.constructor | src/talk/base/diskcache.cc:77-78 | An empty cache has zero totals. |
| DiskCaches.DiskCache.TotalsAfter | src/talk/base/diskcache.cc:147-152 | What both totals must become for a changed entry, which each operation then reaches by its own updates. |
| DiskCaches.DiskCache.DeleteResource | src/talk/base/diskcache.cc:203-227 | Exactly idle entries are removed, and their size with them, even if a file cannot be; others are refused unchanged; missing ones count as deleted. |
| DiskCaches.DiskCache.Erase | src/talk/base/diskcache.cc:224-225 | Erasing an idle entry and subtracting its size keeps totals and discipline. |
| CacheEviction.ScanOf | src/talk/base/diskcache.cc:242-257 | What the scan must come to: nothing exactly if no entry is idle, past the end exactly if the first idle entry is the last, and else one position: a least recently modified entry from the first idle one on, in use or not, right behind the first idle one if that is such and otherwise the first such. |
| CacheEviction.ScanIsUnique | src/talk/base/diskcache.cc:242-257 | Entries and order leave the scan no choice. |
| CacheEviction.ScanForOldest | src/talk/base/diskcache.cc:242-257 | The two loops find exactly that position. |
| CacheEviction.PastTheEndIff | src/talk/base/diskcache.cc:249-257 | The scan leaves the map exactly if a single entry is idle and it is the last one. |
| CacheEviction.VictimIsOldest | src/talk/base/diskcache.cc:253-258 | What the scan finds is as old as every idle entry, so that deleting it never leaves an older idle one. |
| CacheEviction.RoundMeans | src/talk/base/diskcache.cc:249-261 | A round within the map gives up exactly if no entry is idle or the one found is in use. |
| CacheEviction.EvictedMeans | src/talk/base/diskcache.cc:241-263 | Round after round removes only idle entries, none before an older idle one, something exactly if there is too much and the first round does not give up, and ends where everything fits, a round gives up or the scan leaves the map. |
| CacheEviction.RemovedLists | src/talk/base/diskcache.cc:225-225 | Erasing a key keeps the order of the others. |
| CacheEviction.InsertedLists | src/talk/base/diskcache.cc:327-327 | A new key goes anywhere into the order of the others. |
| DiskCaches.DiskCache.CheckLimit | src/talk/base/diskcache.cc:229-264 | Unless the scan leaves the map, something goes if and only if the cache is overfull and the entry that the scan finds is idle; if every file can be removed, what stays, its order and the answer are exactly those of round after round of eviction; it terminates. |
| DiskCaches.DiskCache.Evict | src/talk/base/diskcache.cc:242-261 | A round within the map deletes exactly the entry that the scan finds if it is idle, and nothing if it is not; the answer is whether its files could be removed. |
| DiskCaches.DiskCache.LockResource | src/talk/base/diskcache.cc:114-126 | Locked or read resources are refused unchanged. Otherwise, if every file can be removed and the scan stays within the map, eviction decides exactly: refused if it gives up, granted with only the lock changed if the entry is still there, and else erased under the lock. |
| DiskCaches.DiskCache.Claim | src/talk/base/diskcache.cc:120-125 | The same for the half that makes room and locks. |
| DiskCaches.DiskCache.CreateEntry | src/talk/base/diskcache.cc:314-329 | A new entry is idle and empty, has its place in the order, and totals and other entries stay. |
| DiskCaches.DiskCache.SetLock | src/talk/base/diskcache.cc:156-169 | A change of lock that the open streams allow changes only that entry. |
| DiskCaches.DiskCache.WriteResource | src/talk/base/diskcache.cc:128-154 | Opens exactly a locked resource whose file opens; the entry loses the old size of the stream and gains an accessor, and the source's own updates keep both totals equal to the sums. |
| DiskCaches.DiskCache.ReadResource | src/talk/base/diskcache.cc:171-186 | Opens exactly an existing stream of an unlocked resource whose file opens; only its accessors grow, and the source's own update keeps the total equal to the sum. |
| DiskCaches.DiskCache.UnlockResource | src/talk/base/diskcache.cc:156-169 | With open writers the entry becomes UNLOCKING, else it is unlocked and stamped and the limit checked, which leaves exactly what CheckLimit leaves. |
| DiskCaches.DiskCache.ReleaseResource | src/talk/base/diskcache.cc:331-360 | Closing a stream counts it out, a written one adds its size, and the last writer of an UNLOCKING entry unlocks it and checks the limit, so that nothing goes unless the cache is overfull; the source's own updates keep both totals equal to the sums; the missing-entry branch is unreachable. |
| DiskCaches.DiskCache.NeverBoth | src/talk/base/diskcache.h:79-86 | No resource is open for reading and writing at once; writers imply a lock, readers none. |
| DiskCaches.DiskCache.Purge | src/talk/base/diskcache.cc:98-112 | Purge succeeds exactly without open streams and with the files removed, and leaves the account right exactly when the total size was zero. |
| DiskCaches.PurgeLosesTheAccount | src/talk/base/diskcache.cc:98-112 | After one resource of any size that fits has been written and the cache purged, the total is that size and the sum is zero. |
| DiskCaches.FindsSecond | src/talk/base/diskcache.cc:242-257 | Of two entries, the first idle and the second no younger, the scan finds the second. |
| DiskCaches.EvictionGivesUp | src/talk/base/diskcache.cc:241-262 | A run after which an idle entry stays in an overfull cache because an older one that is being read comes behind it. |
| DiskCaches.LockErases | src/talk/base/diskcache.cc:114-126 | A run in which locking a resource evicts the very entry that is being locked. |
| DiskCaches.AnyRun | src/talk/base/diskcache.cc:114-360 | In every run without Purge the totals, as the operations update them one by one, are the sums over the entries, and every entry obeys the lock discipline. |
| DiskCaches.CacheLock.constructor | src/talk/base/diskcache.h:116-120 | A held lock means a locked entry; a busy resource is not locked and nothing changes; any other is locked unless the cache was overfull, and a new one is then empty. |
| DiskCaches.CacheLock.Commit | src/talk/base/diskcache.h:130-130 | A commit calls off the rollback. |
| DiskCaches.CacheLock.Unlock | src/talk/base/diskcache.h:123-123 | The unlock of a held lock: UNLOCKING with streams open, else UNLOCKED with the time and the limit checked; of the other entries only idle ones may go. |
| DiskCaches.CacheLock.Destroy | src/talk/base/diskcache.h:121-128 | Without a lock nothing changes; without rollback a locked entry is UNLOCKING if streams are open and otherwise exactly what an unlock and the limit check make of it, so UNLOCKED if it is still there; one that someone else has unlocked is not unlocked again; a rollback removes the resource exactly if no stream is open, and of the others only idle ones may go. |
| DiskCaches.LockAndWrite | src/talk/base/diskcache.h:116-120 | A new resource that is locked, written and closed is still locked and has the size written. |
| DiskCaches.CommitKeeps | src/talk/base/diskcache.h:116-130 | A run of lock, write, close, commit and destruction ends with the resource unlocked, of the size written, and readable. |
| Base64.TablesAgree | src/talk/base/base64.cc:33-70 | The decode table inverts the encode table, and only on the alphabet. |
| Base64Proofs.AlphabetIs | src/talk/base/base64.cc:33-38 | The alphabet of table 1 of RFC 4648, by character codes. |
| Base64Proofs.OtherCharactersAre | src/talk/base/base64.cc:40-70 | Which characters are white space, which is the pad, and that all others are illegal. |
| Base64Proofs.Examples | src/talk/base/base64.cc:99-136 | The examples of section 10 of RFC 4648. |
| Base64.EncodeLength | src/talk/base/base64.cc:99-106 | An encoding has four characters for every three bytes begun. |
| Base64.EncodeGroup | src/talk/base/base64.cc:107-135 | One round writes the four characters of the next one to three bytes and nothing else. |
| Base64.EncodeFromArray | src/talk/base/base64.cc:99-136 | The loop computes the encoding of section 4 of RFC 4648 and fills its buffer exactly. |
| Base64.ScanBounds | src/talk/base/base64.cc:138-190 | A scan for a quantum takes at most four sextets and stays within the text. |
| Base64.GetNextQuantum | src/talk/base/base64.cc:138-190 | The loop finds the sextets, the end position with pad rollback, and the padding verdict of the scan, in all modes. |
| Base64.Unpack | src/talk/base/base64.cc:218-236 | The bytes of a quantum and the bits left over. |
| Base64.DecodeFromArray | src/talk/base/base64.cc:203-257 | The loop computes success, value and characters used of the decoding, for all 27 combinations of modes. |
| Base64Proofs.GroupReadsBack | src/talk/base/base64.cc:107-135 | The sextets written for a group give its bytes back with no bits left over. |
| Base64Proofs.SextetsReadBack | src/talk/base/base64.cc:218-236 | Sextets with no bits left over are those written for their bytes. |
| Base64Proofs.ScanFull | src/talk/base/base64.cc:138-190 | A scan finds the next four sextets through any noise and stops right behind the fourth. |
| Base64Proofs.ScanEnd | src/talk/base/base64.cc:138-190 | A scan that meets fewer sextets takes the pads and all noise up to the end of the text. |
| Base64Proofs.QuantumFound | src/talk/base/base64.cc:138-190 | The next quantum of a noisy encoding is that of the next group. |
| Base64Proofs.NoisyEncodingDecodes | src/talk/base/base64.cc:203-257 | An encoding with noise anywhere that the parse mode skips gives its source and is consumed whole; with required padding it succeeds exactly if it needs pads or has no noise at its end. |
| Base64Proofs.EncodingHasNoNoise | src/talk/base/base64.cc:99-136 | No character of an encoding is noise in any mode. |
| Base64Proofs.EncodingDecodes | src/talk/base/base64.cc:203-257 | Every encoding decodes to its source with all input consumed in every mode that admits pads. |
| Base64Proofs.StrictScan | src/talk/base/base64.cc:138-190 | A strict scan keeps exactly what it has passed. |
| Base64Proofs.StrictDecodesOnlyEncodings | src/talk/base/base64.cc:203-257 | What strict decoding accepts is the encoding of its result. |
| Base64Proofs.StrictIsCanonical | src/talk/base/base64.cc:203-257 | Strict decoding of s succeeds with x if and only if s is the encoding of x. |
| Base64Modes.SameNumber | src/talk/base/base64.cc:218-228 | A quantum and its three bytes are one number, to base 64 and to base 256. |
| Base64Modes.ShortNumber | src/talk/base/base64.cc:218-236 | So are shorter ones, up to the low bits of the last sextet, and bits are left over exactly if those are not zero. |
| Base64Modes.ScanStops | src/talk/base/base64.cc:138-190 | Where a scan with fewer than four sextets stops, with how many pads, and where the pads began. |
| Base64Modes.DecodesExactly | src/talk/base/base64.cc:203-257 | For any number of sextets, canonical or not, then pads, with noise anywhere, up to the end or a character that stops the decoder: the bytes of exactly these sextets, how much is used, rolled back before pads that do not complete their quantum, and success exactly if no bits, pads or characters are amiss, for all modes but that of no padding. |
| Base64Modes.Splits | src/talk/base/base64.cc:138-190 | Every text is of that kind in the strict and the white-space mode. |
| Base64Modes.NoPadding | src/talk/base/base64.cc:145-148 | In the mode of no padding a pad is an illegal character: the result is that of optional padding on the text with illegal characters for pads. |
| Base64Modes.AnyDecodesAll | src/talk/base/base64.cc:203-257 | In the mode that skips everything else every text gives the bytes of all its sextets, whatever its pads, and none are left behind; with no or optional padding only left-over bits make it fail. |
| HttpClients.HttpClient.constructor | src/talk/base/httpclient.cc:284-297 | A new client has followed no redirect and holds no authentication context. |
| HttpClients.HttpClient.Authenticate | src/talk/base/httpcommon.cc:762-798 | A response is given exactly for a basic or digest challenge with a user name and no context yet, and then sets the context; a challenge under another context or scheme is ignored and any other asks for credentials. |
| HttpClients.FirstAnswer | src/talk/base/httpclient.cc:785-813 | The challenge that is answered is the first that is not ignored, if it can be answered. |
| HttpClients.HttpClient.Start | src/talk/base/httpclient.cc:354-413 | A start resets the attempts and leads to no more connections than redirects, context and retries left allow. |
| HttpClients.HttpClient.Connect | src/talk/base/httpclient.cc:415-432 | One connection is requested, or a resolution begun; a stream from the pool is under way, and a refusal with no retry left ends the request with HE_CONNECT_FAILED; no redirect or context changes. |
| HttpClients.HttpClient.OnResolveResult | src/talk/base/httpclient.cc:319-334 | No lookup raises the bound; one with an address requests the connection, a failed one uses up a retry and looks the name up again or ends the request with HE_CONNECT_FAILED, one without an address looks it up again, and these request no connection. |
| HttpClients.HttpClient.Retry | src/talk/base/httpclient.cc:735-743 | A retry uses up an attempt and connects again, exactly unless the document cannot be replayed, which is HE_STREAM. |
| HttpClients.HttpClient.CanReplay | src/talk/base/httpclient.cc:736-736 | A document, if there is one, is asked to rewind once for each use. |
| HttpClients.HttpClient.Redirect | src/talk/base/httpclient.cc:760-781 | A redirect uses up a level, forgets the context and starts over, exactly unless the document cannot be replayed; 303 makes it a GET without a document. |
| HttpClients.HttpClient.AnswerChallenges | src/talk/base/httpclient.cc:782-814 | The request starts over with a context exactly if the first challenge that is not ignored can be answered and the document replayed; HE_STREAM only if it cannot be replayed. |
| HttpClients.HttpClient.RedirectIff | src/talk/base/httpclient.cc:459-470 | A redirect is followed exactly for a status of 300 to 399 with a Location, fewer than five followed before, unless never wanted, and by default only for 303, GET and HEAD. |
| HttpClients.HttpClient.OnResponse | src/talk/base/httpclient.cc:755-815 | What a response leads to: a redirect before a challenge of the proxy, and otherwise the end. |
| HttpClients.DecideMeans | src/talk/base/httpclient.cc:727-815 | The decisions by name: what was not answered at all is tried again while retries are left; errors end the request; a connection leads to the request, that to the response, a status of 1xx to another response; then redirects, then challenges, and everything else is the result. |
| HttpClients.HttpClient.OnHttpComplete | src/talk/base/httpclient.cc:727-825 | Connections made and still possible never grow; each decision of DecideMeans is carried out: the next phase is under way, the request is over with exactly its error, or a retry, redirect or answer uses up its attempt, level or context, and ends with HE_STREAM exactly if the document cannot be replayed. |
| HttpClients.AnyServer | src/talk/base/httpclient.cc:354-825 | Against any server, pool and resolver, also one that fails and is asked again, and any document, whichever times it can be replayed, one start makes at most 12 * (retries + 1) connections, that is (kMaxRedirects + 1) * 2 * (retries + 1). |
| HttpClients.WorstServer | src/talk/base/httpclient.cc:727-815 | Some server, each of its responses coming after the connection and the request, makes the client reach that bound exactly. |
| HttpClients.OneStart | src/talk/base/httpclient.cc:727-815 | One start of that server uses up all retries and leads to the next start. |
| HttpClients.Deliver | src/talk/base/httpclient.cc:746-753 | After the connection the request is sent and the response awaited, with no connection more. |
| ByteBuffers.OrdersReadBack | src/talk/base/byteorder.h:55-145 | Integers of any width read back from either byte order, reduced to the width. |
| ByteBuffers.ByteIsShift | src/talk/base/byteorder.h:55-76 | Byte i is the value shifted by the matching number of bits, reversed between the two orders. |
| ByteBuffers.StoredByte | src/talk/base/byteorder.h:153-181 | Each byte of an integer as it is stored: in network order the highest first on every host, in host order the lowest first on a little-endian host. |
| ByteBuffers.StoredByte24 | src/talk/base/bytebuffer.cc:171-178 | The same for the three bytes of a 24-bit integer. |
| ByteBuffers.HighByte | src/talk/base/bytebuffer.cc:171-178 | A wider integer is the narrower one with its top byte beside it, on the side of the order. |
| ByteBuffers.HighZero | src/talk/base/bytebuffer.cc:99-114 | A zero top byte does not change the value read. |
| ByteBuffers.IntegersReadBack | src/talk/base/byteorder.h:153-181 | Values that fit their width read back in network and host order, on hosts of both kinds. |
| ByteBuffers.Integers24ReadBack | src/talk/base/bytebuffer.cc:99-178 | 24-bit writes read back modulo 2^24, so exactly if the value is below 2^24. |
| ByteBuffers.ByteBuffer.constructor | src/talk/base/bytebuffer.cc:61-75 | The unread bytes are the initial ones. |
| ByteBuffers.ByteBuffer.Resize | src/talk/base/bytebuffer.cc:207-223 | Growth and compaction keep the unread bytes, up to the size asked, and void all read positions; a new array, of one and a half times the length or the size asked, exactly if the old one is too short. |
| ByteBuffers.ByteBuffer.WriteBytes | src/talk/base/bytebuffer.cc:194-205 | A write appends to the unread bytes through any rearrangement, which happens exactly if there is no room behind them; without one, positions stay good. |
| ByteBuffers.ByteBuffer.ReadBytes | src/talk/base/bytebuffer.cc:152-160 | A read takes the first unread bytes, or fails and takes none. |
| ByteBuffers.ByteBuffer.Consume | src/talk/base/bytebuffer.cc:225-230 | Skipping drops the first unread bytes, or fails and drops none. |
| ByteBuffers.ByteBuffer.Clear | src/talk/base/bytebuffer.cc:244-248 | Nothing is unread afterwards and all positions are void. |
| ByteBuffers.ByteBuffer.GetReadPosition | src/talk/base/bytebuffer.cc:232-234 | The position marks what is stored and unread now. |
| ByteBuffers.ByteBuffer.SetReadPosition | src/talk/base/bytebuffer.cc:236-242 | Success, exactly if nothing was rearranged, re-exposes the bytes unread when the position was taken, followed by everything written since. |
| ByteBuffers.ByteBuffer.WriteUInt | src/talk/base/bytebuffer.cc:162-188 | A typed write appends the bytes of the value in the buffer's order. |
| ByteBuffers.ByteBuffer.ReadUInt | src/talk/base/bytebuffer.cc:81-138 | A typed read returns the value of the matching typed write at the front. |
| ByteBuffers.ByteBuffer.WriteUInt24 | src/talk/base/bytebuffer.cc:171-178 | A 24-bit write appends three bytes of the value. |
| ByteBuffers.ByteBuffer.ReadUInt24 | src/talk/base/bytebuffer.cc:99-114 | A 24-bit read returns the value written, modulo 2^24. |
| ByteBuffers.AnyFifoRun | src/talk/base/bytebuffer.cc:152-223 | In every run of writes and reads the bytes taken are a prefix of the bytes written. |
| Crc32.FeedBitsIsShift | src/talk/base/crc32.cc:46-53 | Feeding bits one by one is shifting with all of them added in advance. |
| Crc32.ShiftHighBits | src/talk/base/crc32.cc:63-63 | Bits that have not come down yet only move. |
| Crc32.LookupIsEightBits | src/talk/base/crc32.cc:62-64 | One table lookup does the work of eight bits, for every register and byte. |
| Crc32.CrcOfPieces | src/talk/base/crc32.cc:57-66 | Updating over two pieces in turn is updating over their concatenation, for every split. |
| Crc32.LastEntry | src/talk/base/crc32.cc:42-43 | Entry 255 of a filled table is 0x2D02EF8D, hence not zero, so the test for "already inited" is sound. |
| Crc32.KnownEntries | src/talk/base/crc32.cc:45-54 | Entries 0 to 3 and 128 of the table of CRC-32. |
| Crc32.CheckValue | src/talk/base/crc32.cc:57-66 | The checksum of the digits "123456789" is 0xCBF43926. |
| Crc32.TableEntry | src/talk/base/crc32.cc:45-54 | The inner loop computes eight shifts of the index. |
| Crc32.EnsureCrc32TableInited | src/talk/base/crc32.cc:41-55 | From the zero table or the filled one the table is filled afterwards, and a filled one is left alone. |
| Crc32.UpdateByte | src/talk/base/crc32.cc:62-64 | One step of the update feeds the eight bits of a byte. |
| Crc32.UpdateCrc32 | src/talk/base/crc32.cc:57-66 | The table-driven update equals the bit-by-bit checksum of section 8 of RFC 1952 for every start value and byte string. |
| IpAddresses.MaskedBit | src/talk/base/ipaddress.cc:293-296 | A masked word has the bits of the word below the length and zeros after. |
| IpAddresses.BitOrder | src/talk/base/ipaddress.cc:293-296 | The bits are counted from the highest of the word. |
| IpAddresses.TruncatedWordBit | src/talk/base/ipaddress.cc:306-321 | So has each word of a truncated IPv6 address, on both sides of the word boundary. |
| IpAddresses.SameAddress | src/talk/base/ipaddress.cc:282-334 | Addresses of one family with the same bits are equal. |
| IpAddresses.TruncateIP | src/talk/base/ipaddress.cc:282-325 | The result has the family and the first bits of the address and zeros after, for every length from 0; a negative length gives the unspecified address. |
| IpAddresses.TruncateIPv6 | src/talk/base/ipaddress.cc:299-323 | The same for the four words of an IPv6 address. |
| IpAddresses.Examples | src/talk/base/ipaddress.cc:282-325 | 192.168.1.254 to 24 bits is 192.168.1.0, and 2001:db8:1234:5678::1 to 48 bits is 2001:db8:1234::. |
| IpAddresses.TruncationsCompose | src/talk/base/ipaddress.cc:282-325 | A prefix of a prefix is the prefix of the shorter length. |
| IpAddresses.PrefixIsUnique | src/talk/base/ipaddress.cc:282-325 | There is one prefix of each length. |
| IpAddresses.TruncateTwice | src/talk/base/ipaddress.cc:282-325 | Truncating to a and then to b equals truncating to the smaller of the two. |
| IpAddresses.ZeroesCounted | src/talk/base/ipaddress.cc:358-367 | The halving trick finds a bit that is set. |
| IpAddresses.ZeroesAreZero | src/talk/base/ipaddress.cc:358-367 | All bits below the one it finds are clear. |
| IpAddresses.CountWord | src/talk/base/ipaddress.cc:351-369 | The count of a word is the position behind its last set bit, for every word. |
| IpAddresses.CountIPMaskBits | src/talk/base/ipaddress.cc:327-370 | On any mask: whole words of ones, then the position behind the last set bit of the next word. |
| IpAddresses.CountOfPrefixMask | src/talk/base/ipaddress.cc:327-370 | The count of the mask of n ones is n, for every n up to 32 or 128. |
| IpAddresses.CountIsPrefixLengthIff | src/talk/base/ipaddress.cc:327-370 | A mask is the prefix mask of its own count exactly if no bit is set behind a clear one. |
| HttpAttributes.NameEnd | src/talk/base/httpcommon.cc:282-286 | A name ends at the first position where it may end. |
| HttpAttributes.ScanSpace | src/talk/base/httpcommon.cc:272-275 | The loop skips exactly the leading white space. |
| HttpAttributes.ScanName | src/talk/base/httpcommon.cc:282-286 | The loop stops at the end of the name. |
| HttpAttributes.ScanQuoted | src/talk/base/httpcommon.cc:295-304 | The loop reads a quoted value with its escapes, also when the quote is never closed. |
| HttpAttributes.ScanPlain | src/talk/base/httpcommon.cc:305-311 | The loop reads up to white space or a comma. |
| HttpAttributes.ScanValue | src/talk/base/httpcommon.cc:291-312 | A value is read if there is one, quoted or plain. |
| HttpAttributes.HttpParseAttributes | src/talk/base/httpcommon.cc:268-318 | On every text the parser terminates and appends the attributes of the grammar. |
| HttpAttributes.Quote | src/talk/base/httpcommon.cc:715-725 | The loop quotes a string, protecting quotes and backslashes. |
| HttpAttributes.QuotedReadsBack | src/talk/base/httpcommon.cc:295-304 | A quoted value reads back, whatever it holds and whatever follows. |
| HttpAttributes.NameWhole | src/talk/base/httpcommon.cc:226-239 | A name without white space and with equal signs only at its end is read whole before a quoted value. |
| HttpAttributes.NameCut | src/talk/base/httpcommon.cc:226-239 | Any other name is read as something else. |
| HttpAttributes.FirstReadsBack | src/talk/base/httpcommon.cc:268-318 | The first attribute reads back and parsing goes on with the others. |
| HttpAttributes.ComposedParsesBackIff | src/talk/base/httpcommon.cc:268-318 | Parsing name=quote(value) items joined by a comma and a space returns the list if and only if every name is read whole. |
| HttpAttributes.ShieldedReads | src/talk/base/httpcommon.cc:295-304 | However a value is escaped between quotes, so long as quotes and backslashes are, it reads as it is, and without a closing quote to the end of the text. |
| HttpAttributes.LastBackslash | src/talk/base/httpcommon.cc:300-302 | A backslash that ends the text stands for itself. |
| HttpAttributes.SkipSpaceIs | src/talk/base/httpcommon.cc:272-275 | Exactly the leading white space is skipped. |
| HttpAttributes.PlainIs | src/talk/base/httpcommon.cc:305-311 | An unquoted value is all up to the first white space or comma. |
| HttpAttributes.PlainReads | src/talk/base/httpcommon.cc:268-318 | An attribute with an unquoted value reads as that name and value, and parsing goes on behind it. |
| HttpAttributes.BareReads | src/talk/base/httpcommon.cc:281-288 | A word before white space or the end is an attribute without a value. |
| HttpAttributes.ChallengeParses | src/talk/base/httpcommon.cc:759-760 | A challenge of a scheme and quoted parameters reads as the scheme, by itself and first, and then the parameters. |

## Left out

- Characters: a Dafny `char` stands for a byte in the text modules; statements quantify over all of them.
- Numeric fields: Content-Length and chunk sizes are read from the trimmed line only; that `sscanf` and `strtoul` read on past it in the buffer is not modelled.
- Header texts with NUL characters, which `%.*s` would cut when sending, are sent whole by the model; the round trips exclude them in names.
- HttpClients.AnyServer: bounds connections, not lookups; a resolver that reports success without an address is asked again without end, as in the source.
- HttpRoundTrip.ChunkedMessageRoundTrip: is for messages whose leader and headers are single lines without white space at the ends of values, since the line format cannot carry others; `ChunkedRoundTrip` of the body has no such condition.
- HttpRoundTrip.ChunksParse: takes pieces below 2^32 bytes, which eight hex digits can count; the send buffer of 32K makes every piece much smaller.
- HttpSending.Sender.FlushData: reports `Spinning` where a message without a document meets a blocked network, since the loop of the source then calls Write again at once; termination is not claimed for that case.
- Re-entrant callbacks: what a user does inside onHttpComplete, onHttpClosed or a signal is modelled as a later step, and onHttpHeaderComplete only answers; a null `notify_` is not modelled.
- Debug assertions of `do_complete` and `detach` that stop a debug build are not modelled; the release behaviour is.
- HttpModes.AnyRun: takes the outcome of each flush and receive turn as arbitrary; which ones there are is what `HttpSending.Sender.FlushData` and `HttpReceiving.Receiver.ReceiveLoop` say.
- SendRaw, the listen and accept path and socket options of AsyncTCPSocket.
- CustomXmppPump: opening files, incoming tunnels, and console messages.
- LockFreeQueue: steps are sequentially consistent; hardware memory order, ClearAndResizeUnsafe and Size calls from a third thread are not modelled.
- LinkedPtrs.World.Assign: is about the rings; that the deleted object may hold linked_ptrs, the source of the assignment among them, is what `LinkedOwners.Assign` adds.
- LinkedOwners.Drop: destroys members in any order, where the source goes depth first; what an assignment does after it has run into freed memory is not modelled.
- LinkedPtrs.World.New: an object may be handed to a raw-pointer constructor once, as the class demands of its users; conversions between element types are not modelled.
- DiskCaches.DiskCache.Evict: where the scan of the source steps past the end of the map and reads what is not there, any entry may be proposed.
- DiskCaches.DiskCache.CreateEntry: a new key may have any place in the order of the map; that the order is alphabetical is not used.
- DiskCaches.DiskCache.LockResource: reports `Erased` where the source would go on to write to the entry that its own CheckLimit has just erased.
- DiskCaches.AnyRun: is without Purge, which breaks the account as its own row says; file names, Initialize and HasResource are not modelled, and what the file system answers is arbitrary.
- Caching, URL parsing, header bookkeeping, connection keep-alive and the Windows authentication schemes of HttpClient; the digest computation.
- Version wrap-around and the string forms of ByteBuffer; the comparison and classification predicates and the text forms of addresses.
- Base64: the two tables are given as ranges of characters.
- HttpComposeAttributes and EscapeAttribute, which rely on an `escape` that is not part of this model.
- The HTTP server, command line, login, inotify wrapper, logging, bandwidth smoothing and operating-system wrappers.
