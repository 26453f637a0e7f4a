/** The receiving side of HttpBase (src/talk/base/httpbase.cc): whatever way the network
    cuts the stream and the document accepts the body, the parser ends up where the
    character-at-a-time machine ends up on the whole stream. */
module HttpReceiving {
  import opened HttpText
  import opened Buffers
  import opened HttpParsing
  import opened Streams

  const START := Running(INITIAL, "")

  // ----- Runs of Process, as values -----

  function Last(calls: seq<Call>): Call
    requires |calls| > 0
  {
    calls[|calls| - 1]
  }

  function Tail(call: Call): string
    requires call.processed <= |call.input|
  {
    call.input[call.processed..]
  }

  /** A run: before each call some characters arrive, and the unprocessed tail of the
      previous call stays in front of them. Only the last call may complete. */
  ghost predicate Session(client: Client, arrivals: seq<string>, calls: seq<Call>)
    decreases |calls|
  {
    |arrivals| == |calls| > 0 &&
    var call := Last(calls);
    call.before.state != StComplete && Legal(client, call) &&
    if |calls| == 1 then
      call.before == INITIAL && call.input == arrivals[0]
    else
      var earlier := calls[..|calls| - 1];
      && Session(client, arrivals[..|arrivals| - 1], earlier)
      && Last(earlier).result != PrComplete
      && call.before == Last(earlier).after
      && call.input == Tail(Last(earlier)) + arrivals[|arrivals| - 1]
  }

  /** The machine that a call leaves behind. */
  function Verdict(call: Call): Machine {
    if call.result == PrComplete && !call.refused then Finished(call.after, call.error)
    else Settle(call.after)
  }

  /** A call takes the machine on from where the parser was. */
  lemma AfterCall(client: Client, consumed: string, call: Call)
    requires call.before.state != StComplete && Legal(client, call)
    requires FeedAll(client, START, consumed) == Settle(call.before)
    ensures call.processed <= |call.input| && call.after.state != StComplete
    ensures FeedAll(client, START, consumed + call.input[..call.processed]) == Verdict(call)
    ensures consumed + call.input == (consumed + call.input[..call.processed]) + Tail(call)
    ensures call.result == PrComplete && !call.refused ==>
              FeedAll(client, START, consumed + call.input) == Finished(call.after, call.error)
  {
    hide FeedAll;
    var taken := call.input[..call.processed];
    assert call.input == taken + Tail(call);
    FeedFromSettled(client, consumed, call.before, taken);
    if call.result == PrComplete && !call.refused {
      FeedAllAppend(client, START, consumed + taken, Tail(call));
      FinishedStays(client, Finished(call.after, call.error), Tail(call));
    }
  }

  /** At every point of every run the parser is where the reference machine is after the
      characters that have left the buffer, and the rest of the stream is the tail. */
  lemma {:induction false} SessionInvariant(client: Client, arrivals: seq<string>, calls: seq<Call>)
    returns (consumed: string)
    requires Session(client, arrivals, calls)
    ensures Joined(arrivals) == consumed + Tail(Last(calls))
    ensures FeedAll(client, START, consumed) == Verdict(Last(calls))
    decreases |calls|
  {
    hide FeedAll, Settle;
    var (call, n) := (Last(calls), |arrivals| - 1);
    if |calls| == 1 {
      assert arrivals[..0] == [] && Joined(arrivals) == "" + arrivals[0] == arrivals[0];
      FeedNothing(client, START, "");
      SettledStart();
      AfterCall(client, "", call);
      consumed := "" + call.input[..call.processed];
    } else {
      var earlier := calls[..|calls| - 1];
      var before := SessionInvariant(client, arrivals[..n], earlier);
      AfterCall(client, before, call);
      Added(before, Tail(Last(earlier)), arrivals[n]);
      consumed := before + call.input[..call.processed];
    }
  }

  /** Segmentation independence: what a run reports is what the machine reports on the
      whole stream in one piece, including characters that were not even looked at. */
  lemma SegmentationIndependence(client: Client, arrivals: seq<string>, calls: seq<Call>)
    requires Session(client, arrivals, calls)
    ensures var call := Last(calls);
            match call.result
            case PrContinue => FeedAll(client, START, Joined(arrivals)) == Running(call.after, Tail(call))
            case PrComplete => call.refused
                               || FeedAll(client, START, Joined(arrivals)) == Finished(call.after, call.error)
            case PrBlock => call.processed == |call.input| ==>
                              FeedAll(client, START, Joined(arrivals)) == Settle(call.after)
  {
    hide FeedAll;
    var call := Last(calls);
    var consumed := SessionInvariant(client, arrivals, calls);
    FeedAllAppend(client, START, consumed, Tail(call));
    match call.result {
      case PrContinue =>
        if ReadsLines(call.after.state) {
          FeedPartialLine(client, call.after, "", Tail(call));
          assert "" + Tail(call) == Tail(call);
        } else {
          assert Tail(call) == call.input[..0];
          FeedNothing(client, Verdict(call), call.input);
        }
      case PrComplete =>
        if !call.refused { FinishedStays(client, Verdict(call), Tail(call)); }
      case PrBlock =>
        if call.processed == |call.input| {
          assert Tail(call) == call.input[..0];
          FeedNothing(client, Verdict(call), call.input);
        }
    }
  }

  /** Two runs over the same stream, cut in different ways and with documents that accept
      the body in different pieces, report the same thing once neither is blocked. */
  lemma CutsDoNotMatter(client: Client, arrivals1: seq<string>, calls1: seq<Call>,
                        arrivals2: seq<string>, calls2: seq<Call>)
    requires Session(client, arrivals1, calls1) && Session(client, arrivals2, calls2)
    requires Joined(arrivals1) == Joined(arrivals2)
    requires Last(calls1).result != PrBlock && Last(calls2).result != PrBlock
    requires !Last(calls1).refused && !Last(calls2).refused
    ensures var (a, b) := (Last(calls1), Last(calls2));
            a.result == b.result && a.error == b.error && a.after == b.after
            && (a.result == PrContinue ==> Tail(a) == Tail(b))
  {
    hide FeedAll;
    SegmentationIndependence(client, arrivals1, calls1);
    SegmentationIndependence(client, arrivals2, calls2);
  }

  /** Restarting from a configuration is the same as going on. */
  lemma FeedFromSettled(client: Client, consumed: string, cfg: Config, taken: string)
    requires FeedAll(client, START, consumed) == Settle(cfg)
    ensures FeedAll(client, START, consumed + taken) == FeedAll(client, Settle(cfg), taken)
  {
    hide FeedAll;
    FeedAllAppend(client, START, consumed, taken);
  }

  /** A body without a length ends with the stream. If the stream ends while characters
      are still buffered, the document has the whole body exactly when there were none
      (or the body was to be ignored anyway). */
  lemma CloseKeepsBodyIff(client: Client, consumed: string, cfg: Config, tail: string)
    requires cfg.state == StData && cfg.size == SIZE_UNKNOWN
    requires FeedAll(client, START, consumed) == Settle(cfg)
    ensures var whole := FeedAll(client, START, consumed + tail);
            whole.Running? && (whole.cfg.body == cfg.body <==> tail == "" || cfg.ignore)
  {
    hide FeedAll;
    FeedFromSettled(client, consumed, cfg, tail);
    if tail == "" {
      FeedNothing(client, Settle(cfg), tail);
    } else {
      FeedData(client, cfg, tail);
      assert |cfg.body + tail| > |cfg.body|;
    }
  }

  /** Such a loss can happen: a document that blocks leaves a tail behind, and the next
      turn reads the network, and so sees the end of the stream, before that tail. */
  lemma BlockedTailCanBeLost(client: Client, leader: string) returns (call: Call)
    requires '\n' !in leader && TrimEnd(leader) == leader && client.leader(leader) == HeNone
    requires client.headersDone([Leader(leader)], false, SIZE_UNKNOWN) == Answer(SIZE_UNKNOWN, false, HeNone, false)
    ensures Session(client, [leader + "\n\nab"], [call]) && call.result == PrBlock
    ensures call.after.state == StData && call.after.size == SIZE_UNKNOWN && Tail(call) == "b"
    ensures FeedAll(client, START, leader + "\n\nab").cfg.body == "ab" != call.after.body
  {
    hide FeedAll, Settle, TrimEnd;
    var (input, head) := (leader + "\n\nab", (leader + "\n") + "\n");
    var c := UpToTheBody(client, leader);
    var after := c.(body := "a");
    TwoBytes(client, head, c);
    WhereItIsCut(leader);
    call := Call(INITIAL, input, PrBlock, |leader| + 3, HeNone, false, after);
    SettledStart();
    assert Last([call]) == call;
  }

  lemma SettledStart()
    ensures Settle(INITIAL) == START
  {
  }

  lemma WhereItIsCut(leader: string)
    ensures var (input, head) := (leader + "\n\nab", (leader + "\n") + "\n");
            input[..|leader| + 3] == head + "a" && input[|leader| + 3..] == "b" && input == (head + "a") + "b"
  {
  }

  /** Two bytes of a body without a length, one after the other. */
  lemma TwoBytes(client: Client, head: string, c: Config)
    requires c.state == StData && c.size == SIZE_UNKNOWN && !c.ignore && c.body == ""
    requires FeedAll(client, START, head) == Running(c, "")
    ensures FeedAll(client, START, head + "a") == Settle(c.(body := "a"))
    ensures FeedAll(client, START, (head + "a") + "b") == Running(c.(body := "ab"), "")
  {
    hide FeedAll;
    var after := c.(body := "a");
    FeedFromSettled(client, head, c, "a");
    FeedData(client, c, "a");
    assert c.body + "a" == "a";
    FeedFromSettled(client, head + "a", after, "b");
    FeedData(client, after, "b");
    assert after.body + "b" == "ab";
  }

  /** A leader and a blank line lead to a body without a length. */
  lemma UpToTheBody(client: Client, leader: string) returns (c: Config)
    requires '\n' !in leader && TrimEnd(leader) == leader && client.leader(leader) == HeNone
    requires client.headersDone([Leader(leader)], false, SIZE_UNKNOWN) == Answer(SIZE_UNKNOWN, false, HeNone, false)
    ensures c.state == StData && c.size == SIZE_UNKNOWN && !c.chunked && !c.ignore && c.body == ""
    ensures FeedAll(client, START, (leader + "\n") + "\n") == Running(c, "")
  {
    var c1 := INITIAL.(state := StHeaders, events := [Leader(leader)]);
    c := c1.(state := StData, events := [Leader(leader), HeaderComplete(false, SIZE_UNKNOWN)]);
    FeedLine(client, INITIAL, leader);
    NothingToTrim();
    hide FeedAll, TrimEnd;
    FeedFromSettled(client, leader + "\n", c1, "\n");
    FeedLine(client, c1, "");
    assert "" + "\n" == "\n";
  }

  lemma NothingToTrim()
    ensures TrimEnd("") == ""
  {
  }

  // ----- DoReceiveLoop -----

  const MAX_READ_COUNT: nat := 20

  /** Why DoReceiveLoop stopped. */
  datatype Cause =
    | Parsed               // the parser completed, well or badly
    | Refused              // the document failed
    | Overfull             // a line does not fit the buffer
    | Closed(code: int)    // the network stream ended (code 0) or failed
    | Waiting              // needs more input than the network has
    | Stalled              // the document is blocked, or the user took over the body
    | Starving             // enough for one turn

  class Receiver {
    const parser: HttpParser
    const network: Source<char>
    const buffer: Buffer<char>
    ghost var consumed: string

    ghost predicate Room()
      reads buffer
    {
      buffer.Valid() && buffer.data.Length == BUFFER_SIZE
    }

    /** What has come in from the network is what the parser consumed, then the buffer. */
    ghost predicate Valid()
      reads this, parser, parser.document, network, buffer, buffer.data
    {
      && parser.Valid() && parser.state != StComplete && Room()
      && network.received == consumed + buffer.Text()
      && FeedAll(parser.client, START, consumed) == Settle(parser.Cfg())
    }

    /** `recv`: a fresh parser and an empty buffer. */
    constructor (client: Client, document: Sink?<char>)
      ensures Valid() && network.received == "" && parser.client == client && parser.document == document
      ensures fresh(parser) && fresh(network) && fresh(buffer) && fresh(buffer.data)
    {
      parser := new HttpParser(client, document);
      network := new Source<char>();
      buffer := new Buffer<char>(BUFFER_SIZE);
      consumed := "";
    }

    /** Nothing more can be done with what is in the buffer. */
    ghost predicate Drained()
      reads this, parser, buffer, buffer.data
      requires Room()
    {
      && Settle(parser.Cfg()) == Running(parser.Cfg(), "")
      && if ReadsLines(parser.state) then '\n' !in buffer.Text() else buffer.len == 0
    }

    /** One pass of the parser over the buffer. */
    method ProcessBuffer() returns (result: ProcessResult, error: HttpError, ghost refused: bool)
      requires Valid()
      modifies this, parser, parser.document, buffer, buffer.data
      ensures result != PrComplete || refused ==> Valid()
      ensures parser.state != StComplete
      ensures refused ==> result == PrComplete && error == HeStream
      ensures result == PrContinue ==> Drained()
      ensures parser.Blocks() + parser.takeovers ==
                old(parser.Blocks() + parser.takeovers) + (if result == PrBlock then 1 else 0)
      ensures parser.Failures() == old(parser.Failures()) + (if refused then 1 else 0)
      ensures result == PrComplete && !refused ==>
                FeedAll(parser.client, START, network.received) == Finished(parser.Cfg(), error)
    {
      hide FeedAll, Settle;
      var input := buffer.Contents();
      ghost var cfg := parser.Cfg();
      var processed;
      result, processed, error, refused := parser.Process(input);
      ghost var call := Call(cfg, input, result, processed, error, refused, parser.Cfg());
      AfterCall(parser.client, consumed, call);
      buffer.Drop(processed);
      consumed := consumed + input[..processed];
    }

    /** Reads from the network behind what is in the buffer. */
    method ReadMore() returns (r: ReadResult<char>)
      requires Valid() && buffer.len < BUFFER_SIZE
      modifies network, buffer, buffer.data
      ensures Valid() && |network.received| == |old(network.received)| + (if r.Got? then |r.data| else 0)
      ensures !r.Got? ==> (old(Drained()) ==> Drained()) && buffer.len == old(buffer.len)
      ensures (r.Got? ==> |r.data| > 0) && network.calls == old(network.calls) + 1
      ensures network.blocks == old(network.blocks) + (if r.ReadBlocked? then 1 else 0)
      ensures network.failures == old(network.failures) + (if r.ReadEos? || r.ReadFailed? then 1 else 0)
      ensures (r.ReadEos? ==> network.code == 0) && (r.ReadFailed? ==> network.code == r.code)
      ensures (r.ReadEos? || r.ReadFailed?) && parser.IsValidEndOfInput() ==>
                (FeedAll(parser.client, START, network.received).cfg.body == parser.body
                 <==> buffer.len == 0 || parser.ignoreData)
    {
      hide FeedAll;
      ghost var text := buffer.Text();
      r := network.Read(BUFFER_SIZE - buffer.len);
      if r.Got? {
        Added(consumed, text, r.data);
        buffer.Append(r.data);
      } else if parser.IsValidEndOfInput() {
        CloseKeepsBodyIff(parser.client, consumed, parser.Cfg(), text);
      }
    }

    /** DoReceiveLoop: true when the receive is over, with its error. */
    method ReceiveLoop() returns (complete: bool, error: HttpError, ghost cause: Cause)
      requires Valid()
      modifies this, parser, parser.document, network, buffer, buffer.data
      ensures complete <==> cause.Parsed? || cause.Refused? || cause.Overfull? || cause.Closed?
      // The parser has never completed by itself, so that its completion is reported.
      ensures parser.state != StComplete
      // The verdict of the parser is the verdict of the machine on everything received.
      ensures cause.Parsed? ==>
                FeedAll(parser.client, START, network.received) == Finished(parser.Cfg(), error)
      ensures !cause.Parsed? ==> Valid()
      ensures cause.Refused? ==> error == HeStream
      ensures cause.Overfull? ==> error == HeOverflow && buffer.len == BUFFER_SIZE && Drained()
                                  && ReadsLines(parser.state)
      ensures cause.Closed? ==> error == CloseError(HmRecv, parser.IsValidEndOfInput(), cause.code)
      ensures cause.Closed? && error == HeNone ==>
                (FeedAll(parser.client, START, network.received).cfg.body == parser.body
                 <==> buffer.len == 0 || parser.ignoreData)
      ensures cause.Waiting? ==> Drained()
      // Each other exit has its own cause: the stream has ended or failed, with that error; the
      // document has failed; the document has blocked or the user has taken over the body; there is
      // nothing to read; or twenty reads have brought something.
      ensures network.failures == old(network.failures) + (if cause.Closed? then 1 else 0)
      ensures cause.Closed? ==> cause.code == network.code
      ensures parser.Failures() == old(parser.Failures()) + (if cause.Refused? then 1 else 0)
      ensures parser.Blocks() + parser.takeovers ==
                old(parser.Blocks() + parser.takeovers) + (if cause.Stalled? then 1 else 0)
      ensures cause.Waiting? ==> network.blocks > old(network.blocks)
      ensures cause.Starving? ==> |network.received| >= |old(network.received)| + 20
      ensures network.calls <= old(network.calls) + 21
      // A clean close is no error exactly in the middle of a body without a length.
      ensures cause == Closed(0) ==>
                (error == HeNone <==> parser.state == StData && parser.dataSize == 0xFFFF_FFFF_FFFF_FFFF)
    {
      hide FeedAll;
      var loopCount, needMore := 0, false;
      error := HeNone;
      while true
        invariant Valid() && loopCount <= MAX_READ_COUNT
        invariant needMore ==> Drained()
        invariant parser.Blocks() + parser.takeovers == old(parser.Blocks() + parser.takeovers)
        invariant parser.Failures() == old(parser.Failures()) && network.failures == old(network.failures)
        invariant network.blocks >= old(network.blocks) && network.calls <= old(network.calls) + loopCount
        invariant |network.received| >= |old(network.received)| + (if loopCount == 0 then 0 else loopCount - 1)
        invariant loopCount > 0 ==> needMore
        decreases MAX_READ_COUNT - loopCount
      {
        if buffer.len < BUFFER_SIZE {
          var r := ReadMore();
          match r {
            case Got(_) =>
            case ReadBlocked =>
              if needMore { return false, error, Waiting; }
            case ReadEos =>
              return true, CloseError(HmRecv, parser.IsValidEndOfInput(), 0), Closed(0);
            case ReadFailed(code) =>
              return true, CloseError(HmRecv, parser.IsValidEndOfInput(), code), Closed(code);
          }
        } else if needMore {
          return true, HeOverflow, Overfull;
        }
        var result;
        ghost var refused;
        result, error, refused := ProcessBuffer();
        match result {
          case PrContinue => needMore := true;
          case PrBlock => return false, error, Stalled;
          case PrComplete => return true, error, if refused then Refused else Parsed;
        }
        loopCount := loopCount + 1;
        if loopCount > MAX_READ_COUNT { break; }
      }
      return false, error, Starving;
    }
  }
}
