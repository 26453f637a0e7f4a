/** The sending side of HttpBase (src/talk/base/httpbase.cc): the pump that queues leader,
    headers and document into a 32K buffer and flushes it under back-pressure. */
module HttpSending {
  import opened HttpText
  import opened Buffers
  import opened HttpBuffers
  import opened HttpParsing
  import opened Streams

  type Field = (string, string)

  datatype Message = Message(leader: string, headers: seq<Field>)

  // ----- The canonical form of a message -----

  function HeaderText(h: Field): string {
    h.0 + ": " + h.1 + CRLF
  }

  /** A header that does not fit an empty buffer is discarded. */
  predicate Fits(h: Field) {
    |HeaderText(h)| < BUFFER_SIZE - 3
  }

  function HeaderBlock(headers: seq<Field>): string {
    if headers == [] then ""
    else
      var h := headers[|headers| - 1];
      HeaderBlock(headers[..|headers| - 1]) + (if Fits(h) then HeaderText(h) else "")
  }

  function Opening(m: Message): string {
    Clip(m.leader + CRLF, BUFFER_SIZE)
  }

  function Head(m: Message): string {
    if m.headers == [] then Clip(Opening(m) + CRLF, BUFFER_SIZE)
    else Opening(m) + HeaderBlock(m.headers) + CRLF
  }

  function HexDigit(n: nat): char
    requires n < 16
  {
    "0123456789abcdef"[n]
  }

  /** `%.*x` with a precision of `digits`. */
  function Hex(n: nat, digits: nat): (r: string)
    ensures |r| == digits
  {
    if digits == 0 then "" else Hex(n / 16, digits - 1) + [HexDigit(n % 16)]
  }

  const CHUNK_DIGITS: nat := 8

  function Chunk(data: string): (r: string)
    ensures |r| == |data| + CHUNK_DIGITS + 4
  {
    Hex(|data|, CHUNK_DIGITS) + CRLF + data + CRLF
  }

  function Chunks(pieces: seq<string>): string {
    if pieces == [] then "" else Chunks(pieces[..|pieces| - 1]) + Chunk(pieces[|pieces| - 1])
  }

  const LAST_CHUNK: string := "0\r\n\r\n"

  /** The document as far as it has been read, encoded; `closed` adds the final chunk. */
  function BodyText(chunked: bool, pieces: seq<string>, closed: bool): string {
    (if chunked then Chunks(pieces) else Joined(pieces)) + (if closed then LAST_CHUNK else "")
  }

  /** `send` asks for chunks when the first such header says exactly so. */
  predicate AsksForChunks(headers: seq<Field>) {
    |headers| > 0 &&
    if SameText(headers[0].0, "Transfer-Encoding") then headers[0].1 == "chunked"
    else AsksForChunks(headers[1..])
  }

  lemma BodyGrows(head: string, chunked: bool, pieces: seq<string>, data: string)
    ensures head + BodyText(chunked, pieces + [data], false)
            == (head + BodyText(chunked, pieces, false)) + (if chunked then Chunk(data) else data)
    ensures head + BodyText(chunked, pieces, true) == (head + BodyText(chunked, pieces, false)) + LAST_CHUNK
  {
    hide Chunk;
    assert (pieces + [data])[..|pieces|] == pieces;
    var body := if chunked then Chunks(pieces) else Joined(pieces);
    var more := if chunked then Chunk(data) else data;
    assert body + "" == body && (body + more) + "" == body + more;
    assert head + (body + more) == (head + body) + more;
  }

  lemma PieceRead(contents: string, from: nat, mid: nat, to: nat, pieces: seq<string>)
    requires from <= mid <= to <= |contents| && Joined(pieces) == contents[from..mid]
    ensures Joined(pieces + [contents[mid..to]]) == contents[from..to]
  {
    assert (pieces + [contents[mid..to]])[..|pieces|] == pieces;
    assert contents[from..to] == contents[from..mid] + contents[mid..to];
  }

  // ----- The pump -----

  datatype FlushResult =
    | Complete(error: HttpError)  // do_complete was called
    | Pending                     // waits for the network or the document
    | Spinning                    // the source keeps calling Write until it stops blocking
    | Broken(code: int)           // the network failed: OnHttpStreamEvent(SE_CLOSE)

  class Sender {
    const message: Message
    const document: Stored?<char>
    const network: Sink<char>
    const buffer: Buffer<char>
    const chunked: bool
    var header: nat
    var chunkData: bool

    ghost const prior: string       // what the network had accepted beforehand
    ghost const from: nat           // where the document is read from
    ghost var pieces: seq<string>   // the pieces in which the document was read

    ghost predicate Room()
      reads buffer
    {
      buffer.Valid() && buffer.data.Length == BUFFER_SIZE
    }

    /** Everything queued so far: what the network has accepted, then the buffer. */
    ghost function Out(): string
      reads this, network, buffer, buffer.data
      requires Room()
    {
      network.contents + buffer.Text()
    }

    /** What must be out once the first `k` headers have been dealt with. */
    ghost function Headed(k: nat): string
      requires k <= |message.headers|
    {
      prior + (Opening(message) + HeaderBlock(message.headers[..k]))
    }

    ghost predicate DocumentRead()
      reads this, document
    {
      && header <= |message.headers|
      && (document == null ==> pieces == [])
      && (document != null ==> from <= document.position <= |document.contents|
                               && Joined(pieces) == document.contents[from..document.position])
      && (forall r :: r in pieces ==> 0 < |r| <= BUFFER_SIZE)
      && (chunkData ==> chunked)
      && (chunked && !chunkData ==> document != null && document.position == |document.contents|)
      && (header < |message.headers| ==> pieces == [] && chunkData == chunked)
    }

    /** Accepted and buffered characters are the canonical prefix of the message. */
    ghost predicate Conserved()
      reads this, network, buffer, buffer.data
    {
      Room() && header <= |message.headers| &&
      Out() == if header < |message.headers| then Headed(header)
               else (prior + Head(message)) + BodyText(chunked, pieces, chunked && !chunkData)
    }

    ghost predicate Valid()
      reads this, document, network, buffer, buffer.data
    {
      Room() && DocumentRead() && Conserved()
    }

    /** `send`, up to the first flush: the leader, and the blank line if that is all. */
    constructor (message: Message, document: Stored?<char>, network: Sink<char>)
      requires document != null ==> document.position <= |document.contents|
      ensures Valid() && this.message == message && this.document == document && this.network == network
      ensures prior == network.contents && chunked == AsksForChunks(message.headers)
      ensures document != null ==> from == document.position
      ensures fresh(buffer) && fresh(buffer.data)
    {
      this.message, this.document, this.network := message, document, network;
      buffer := new Buffer<char>(BUFFER_SIZE);
      chunked := AsksForChunks(message.headers);
      chunkData := AsksForChunks(message.headers);
      header, pieces := 0, [];
      prior := network.contents;
      from := if document == null then 0 else document.position;
      new;
      PrintLeader();
      if |message.headers| == 0 {
        EndHeaders();
        NoBodyYet();
      }
    }

    method PrintLeader()
      requires Room() && buffer.len == 0 && header == 0 && network.contents == prior
      modifies buffer, buffer.data
      ensures Room() && 0 < buffer.len == |Opening(message)| < BUFFER_SIZE && Out() == Headed(0)
    {
      hide Head, HeaderBlock, BodyText;
      var _ := Print(buffer, message.leader, BUFFER_SIZE);
      var _ := Print(buffer, CRLF, BUFFER_SIZE);
      assert buffer.Text() == Opening(message);
      NoHeaderYet();
    }

    lemma NoHeaderYet()
      ensures Headed(0) == prior + Opening(message)
    {
      assert Opening(message) + HeaderBlock(message.headers[..0]) == Opening(message);
    }

    lemma NoBodyYet()
      requires pieces == []
      ensures (prior + Head(message)) + BodyText(chunked, pieces, false) == prior + Head(message)
    {
    }

    lemma NextHeader(k: nat)
      requires k < |message.headers|
      ensures var h := message.headers[k];
              Headed(k + 1) == if Fits(h) then Headed(k) + HeaderText(h) else Headed(k)
    {
      var (h, first) := (message.headers[k], message.headers[..k + 1]);
      assert first[..k] == message.headers[..k];
      var block := HeaderBlock(message.headers[..k]);
      if Fits(h) {
        assert HeaderBlock(first) == block + HeaderText(h);
        assert prior + (Opening(message) + (block + HeaderText(h))) == Headed(k) + HeaderText(h);
      } else {
        assert HeaderBlock(first) == block + "" == block;
      }
    }

    /** The next header does not fit behind what is in the buffer. */
    ghost predicate NoRoom()
      reads this, buffer
    {
      header < |message.headers| && buffer.len + |HeaderText(message.headers[header])| >= BUFFER_SIZE - 3
    }

    /** Nothing more can be put into the buffer: the next header or piece of the document does not fit. */
    ghost predicate Packed()
      reads this, buffer
    {
      || buffer.len >= BUFFER_SIZE || NoRoom()
      || (document != null && buffer.len + (if chunkData then 12 else 0) >= BUFFER_SIZE)
    }

    /** One header: queued if there is room for it, discarded if there never is. */
    method QueueHeader() returns (dealtWith: bool)
      requires Room() && buffer.len < BUFFER_SIZE && header < |message.headers|
      requires Out() == Headed(header)
      modifies this`header, buffer, buffer.data
      ensures Room() && header == old(header) + (if dealtWith then 1 else 0)
      ensures Out() == Headed(header)
      ensures if dealtWith then buffer.len < BUFFER_SIZE - 3 else buffer.len == old(buffer.len) > 0 && NoRoom()
    {
      hide HeaderBlock, HeaderText, Opening, Headed;
      var text := HeaderText(message.headers[header]);
      ghost var clip := Clip(text, BUFFER_SIZE - buffer.len);
      assert |clip| <= |text| && (clip == text || |clip| == BUFFER_SIZE - buffer.len - 1);
      NextHeader(header);
      hide Clip;
      var kept := Print(buffer, text, BUFFER_SIZE - 3);
      if kept {
        assert old(Out()) + text == network.contents + buffer.Text();
      }
      dealtWith := kept || buffer.len == 0;
      if dealtWith { header := header + 1; }
    }

    method QueueHeaders() returns (sendRequired: bool)
      requires Valid() && buffer.len < BUFFER_SIZE && header < |message.headers|
      modifies this`header, buffer, buffer.data
      ensures Valid() && buffer.len > 0 && old(header) <= header
      ensures header == old(header) ==> buffer.len == old(buffer.len)
      ensures header <= |message.headers| && (sendRequired <==> header < |message.headers|)
      ensures sendRequired ==> NoRoom()
    {
      hide Head, Joined, BodyText, HeaderBlock, Opening, Headed, HeaderText, Out;
      while header < |message.headers|
        invariant Room() && DocumentRead() && old(header) <= header && pieces == [] && chunkData == chunked
        invariant Out() == Headed(header)
        invariant if old(header) < header then buffer.len < BUFFER_SIZE - 3 else buffer.len == old(buffer.len)
        decreases |message.headers| - header
      {
        var dealtWith := QueueHeader();
        if !dealtWith { return true; }
      }
      EndHeaders();
      NoBodyYet();
      return false;
    }

    /** The blank line after the headers. */
    method EndHeaders()
      requires Room() && buffer.len < BUFFER_SIZE
      requires Out() == Headed(|message.headers|)
      requires if message.headers == [] then buffer.len == |Opening(message)| else buffer.len < BUFFER_SIZE - 3
      modifies buffer, buffer.data
      ensures Room() && Out() == prior + Head(message) && buffer.len > 0
    {
      assert message.headers[..|message.headers|] == message.headers;
      ghost var clip := Clip(CRLF, BUFFER_SIZE - buffer.len);
      var _ := Print(buffer, CRLF, BUFFER_SIZE);
      assert Out() == old(Out()) + clip;
      if message.headers == [] {
        NoHeaderYet();
        assert Head(message) == Opening(message) + clip;
        assert (prior + Opening(message)) + clip == prior + (Opening(message) + clip);
      } else {
        assert (prior + (Opening(message) + HeaderBlock(message.headers))) + CRLF == prior + Head(message);
      }
    }

    /** A piece of the document that has just been read. */
    method QueuePiece(data: string)
      requires Room() && Conserved() && header == |message.headers|
      requires chunked == chunkData && |data| > 0
      requires buffer.len + |data| + (if chunkData then CHUNK_DIGITS + 4 else 0) <= BUFFER_SIZE
      modifies this`pieces, buffer, buffer.data
      ensures Room() && Conserved() && pieces == old(pieces) + [data] && buffer.len > old(buffer.len)
    {
      hide Head, Joined, BodyText;
      BodyGrows(prior + Head(message), chunked, pieces, data);
      var text := if chunkData then Chunk(data) else data;
      Added(network.contents, buffer.Text(), text);
      buffer.Append(text);
      pieces := pieces + [data];
    }

    method QueueLastChunk()
      requires Room() && Conserved() && header == |message.headers|
      requires chunked && chunkData && buffer.len + 5 <= BUFFER_SIZE
      modifies this`chunkData, buffer, buffer.data
      ensures Room() && Conserved() && !chunkData && buffer.len == old(buffer.len) + 5
    {
      hide Head, Joined, BodyText;
      BodyGrows(prior + Head(message), chunked, pieces, "");
      buffer.Append(LAST_CHUNK);
      assert old(Out()) + LAST_CHUNK == network.contents + buffer.Text();
      chunkData := false;
    }

    /** Queues the next piece of the document, or its end. */
    method QueueDocument() returns (sendRequired: bool, done: bool, error: HttpError)
      requires Valid() && document != null && header == |message.headers|
      modifies this`chunkData, this`pieces, buffer, buffer.data, document
      ensures Valid()
      ensures done && error == HeNone ==>
                buffer.len == 0 && document.position == |document.contents| && !chunkData
      ensures done ==> error == HeNone || error == HeStream
      ensures old(document.position) <= document.position <= |document.contents| && (chunkData ==> old(chunkData))
      ensures document.position > old(document.position) || chunkData != old(chunkData)
              || buffer.len == old(buffer.len)
      ensures !sendRequired && !done ==> document.position > old(document.position) && buffer.len > 0
      ensures document.position > old(document.position) ==> !sendRequired && !done
      // The send fails exactly if the document does, and waits for a document that blocks.
      ensures document.failures == old(document.failures) + (if done && error == HeStream then 1 else 0)
      ensures document.blocks >= old(document.blocks) + (if !done && buffer.len == 0 then 1 else 0)
      ensures document.ends >= old(document.ends)
      ensures sendRequired ==> Packed() || document.blocks > old(document.blocks) || document.ends > old(document.ends)
    {
      hide Conserved, Joined;
      sendRequired, done, error := false, false, HeNone;
      var reserve := if chunkData then buffer.len + CHUNK_DIGITS + 4 else buffer.len;
      if reserve >= BUFFER_SIZE { return true, false, HeNone; }
      var r := document.Read(BUFFER_SIZE - reserve);
      match r {
        case Got(data) =>
          PieceRead(document.contents, from, old(document.position), document.position, pieces);
          QueuePiece(data);
        case ReadBlocked =>
          sendRequired := true;
        case ReadEos =>
          if chunkData {
            QueueLastChunk();
          } else if buffer.len == 0 {
            done := true;
          }
          sendRequired := true;
        case ReadFailed(_) =>
          done, error := true, HeStream;
      }
    }

    /** Hands the buffer to the network and drops what it accepted. */
    method WriteBuffer() returns (r: WriteResult)
      requires Valid() && buffer.len > 0
      modifies buffer, buffer.data, network
      ensures Valid()
      ensures if r.Accepted? then buffer.len == old(buffer.len) - r.count && r.count > 0
              else buffer.len == old(buffer.len)
      ensures network.blocks == old(network.blocks) + (if r.WriteBlocked? then 1 else 0)
      ensures network.failures == old(network.failures) + (if r.WriteEos? || r.WriteFailed? then 1 else 0)
      ensures (r.WriteEos? ==> network.code == 0) && (r.WriteFailed? ==> network.code == r.code)
    {
      hide Head, Joined, BodyText, HeaderBlock, Opening, Headed;
      var text := buffer.Contents();
      r := network.Write(text);
      if r.Accepted? {
        buffer.Drop(r.count);
        Moved(old(network.contents), text, r.count);
        assert Out() == old(Out());
      }
    }

    /** The network has received the whole message: the head and the whole document, in
        chunks closed by the last one if so asked. */
    ghost predicate WholeMessageSent()
      reads this, document, network
    {
      && network.contents == (prior + Head(message)) + BodyText(chunked, pieces, chunked && document != null)
      && (document != null ==> from <= |document.contents| && Joined(pieces) == document.contents[from..])
      && (document == null ==> pieces == [])
      && (forall r :: r in pieces ==> 0 < |r| <= BUFFER_SIZE)
    }

    lemma NothingLeft()
      requires Valid() && buffer.len == 0 && header == |message.headers|
      requires document != null ==> document.position == |document.contents| && !chunkData
      ensures WholeMessageSent()
    {
      hide Head, Joined, BodyText, HeaderBlock, Opening;
      assert network.contents + buffer.Text() == network.contents;
    }

    /** What the document has answered: reads that blocked, reads that failed, and what is left. */
    ghost function DocBlocks(): nat
      reads this, document
    {
      if document == null then 0 else document.blocks
    }

    ghost function DocEnds(): nat
      reads this, document
    {
      if document == null then 0 else document.ends
    }

    ghost function DocFailures(): nat
      reads this, document
    {
      if document == null then 0 else document.failures
    }

    ghost function DocLeft(): int
      reads this, document
    {
      if document == null then 0 else |document.contents| - document.position
    }

    /** Queues headers and document, unless a write must come first. */
    method Queue(must: bool) returns (sendRequired: bool, done: bool, error: HttpError)
      requires Valid() && (must ==> buffer.len > 0)
      requires !must && header < |message.headers| ==> buffer.len < BUFFER_SIZE
      modifies this`header, this`chunkData, this`pieces, buffer, buffer.data, document
      ensures Valid() && old(header) <= header <= |message.headers| && 0 <= DocLeft() <= old(DocLeft())
      ensures chunkData ==> old(chunkData)
      ensures header > old(header) || DocLeft() < old(DocLeft()) || chunkData != old(chunkData)
              || buffer.len == old(buffer.len)
      ensures done ==> document != null && (error == HeNone || error == HeStream)
      ensures done && error == HeNone ==> WholeMessageSent() && buffer.len == 0
      ensures !sendRequired && !done ==> header == |message.headers|
      ensures !sendRequired && !done && document != null ==> DocLeft() < old(DocLeft()) && buffer.len > 0
      ensures header < |message.headers| ==> buffer.len > 0
      ensures must ==> sendRequired
      ensures DocFailures() == old(DocFailures()) + (if done && error == HeStream then 1 else 0)
      ensures DocBlocks() >= old(DocBlocks()) + (if document != null && !done && buffer.len == 0 then 1 else 0)
      ensures DocEnds() >= old(DocEnds()) && (must ==> buffer.len == old(buffer.len))
      ensures sendRequired ==> must || Packed() || DocBlocks() > old(DocBlocks()) || DocEnds() > old(DocEnds())
    {
      hide Conserved, WholeMessageSent, Joined;
      sendRequired, done, error := must, false, HeNone;
      if !sendRequired && header < |message.headers| {
        sendRequired := QueueHeaders();
      }
      if !sendRequired && document != null {
        sendRequired, done, error := QueueDocument();
        if done && error == HeNone { NothingLeft(); }
      }
    }

    /** One round of flush_data: queues what it can and writes. Unless it is over, a round has got
        further in the headers, in the document, to the last chunk, or in the buffer. */
    method Round(must: bool) returns (over: bool, result: FlushResult)
      requires Valid() && (must ==> buffer.len > 0)
      requires !must && header < |message.headers| ==> buffer.len < BUFFER_SIZE
      modifies this`header, this`chunkData, this`pieces, document, network, buffer, buffer.data
      ensures Valid() && old(header) <= header <= |message.headers| && 0 <= DocLeft() <= old(DocLeft())
      ensures chunkData ==> old(chunkData)
      ensures !over ==> (header > old(header) || DocLeft() < old(DocLeft()) || (old(chunkData) && !chunkData)
                         || buffer.len < old(buffer.len))
      ensures !over && header == old(header) && DocLeft() == old(DocLeft()) && chunkData == old(chunkData) ==>
                buffer.len < old(buffer.len)
      ensures !over && header < |message.headers| ==> buffer.len < BUFFER_SIZE
      ensures over && result == Complete(HeNone) ==> WholeMessageSent() && buffer.len == 0
      ensures over && result.Complete? ==> result.error == HeNone || (result.error == HeStream && document != null)
      ensures network.failures == old(network.failures) + (if over && result.Broken? then 1 else 0)
      ensures over && result.Broken? ==> result.code == network.code
      ensures DocFailures() == old(DocFailures()) + (if over && result == Complete(HeStream) then 1 else 0)
      ensures network.blocks >= old(network.blocks) && DocBlocks() >= old(DocBlocks())
      ensures over && result.Pending? ==> network.blocks > old(network.blocks)
                                          || (DocBlocks() > old(DocBlocks()) && buffer.len == 0)
      ensures over && result.Spinning? ==> document == null && buffer.len > 0 && header == |message.headers|
      ensures DocEnds() >= old(DocEnds())
      ensures over && result.Pending? ==>
                if must then buffer.len == old(buffer.len)
                else Packed() || DocBlocks() > old(DocBlocks()) || DocEnds() > old(DocEnds())
    {
      hide WholeMessageSent, Conserved;
      var sendRequired, done, error := Queue(must);
      if done { return true, Complete(error); }
      if buffer.len == 0 {
        if document == null { NothingLeft(); return true, Complete(HeNone); }
        return true, Pending;
      }
      var r := WriteBuffer();
      match r {
        case Accepted(_) => return false, Pending;
        case WriteBlocked =>
          if sendRequired { return true, Pending; }
          if document == null { return true, Spinning; }
          return false, Pending;
        case WriteEos => return true, Broken(0);
        case WriteFailed(code) => return true, Broken(code);
      }
    }

    /** flush_data. `Spinning` stands for the source's loop calling Write again at once. */
    method FlushData() returns (result: FlushResult)
      requires Valid()
      modifies this, document, network, buffer, buffer.data
      ensures Valid()
      ensures result == Complete(HeNone) ==> WholeMessageSent() && buffer.len == 0
      ensures result.Complete? ==> result.error == HeNone || (result.error == HeStream && document != null)
      // Each exit has its own cause: the network has failed, with that error; the document has failed;
      // or one of them has blocked, the document with nothing left to write.
      ensures network.failures == old(network.failures) + (if result.Broken? then 1 else 0)
      ensures result.Broken? ==> result.code == network.code
      ensures DocFailures() == old(DocFailures()) + (if result == Complete(HeStream) then 1 else 0)
      ensures result.Pending? ==> network.blocks > old(network.blocks)
                                  || (DocBlocks() > old(DocBlocks()) && buffer.len == 0)
      // It waits for the network only when nothing more can be buffered.
      ensures result.Pending? ==> Packed() || DocBlocks() > old(DocBlocks()) || DocEnds() > old(DocEnds())
      // The loop of the source never spins on a message with a document.
      ensures result.Spinning? ==> document == null && buffer.len > 0 && header == |message.headers|
    {
      assert 0 <= DocLeft() && header <= |message.headers|;
      hide WholeMessageSent, Valid;
      var over, must := false, buffer.len >= BUFFER_SIZE;
      while true
        invariant Valid() && header <= |message.headers| && 0 <= DocLeft()
        invariant !must && header < |message.headers| ==> buffer.len < BUFFER_SIZE
        invariant (must ==> buffer.len >= BUFFER_SIZE) && DocEnds() >= old(DocEnds())
        invariant network.blocks >= old(network.blocks) && network.failures == old(network.failures)
        invariant DocBlocks() >= old(DocBlocks()) && DocFailures() == old(DocFailures())
        decreases |message.headers| - header, DocLeft(), if chunkData then 1 else 0, buffer.len
      {
        over, result := Round(must);
        if over { return; }
        must := false;
      }
    }
  }
}
