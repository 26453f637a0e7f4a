/** How the parser of src/talk/base/httpbase.cc finds out where a message ends (section 3.3.3 of
    RFC 7230), and what it refuses: stated on the texts themselves. */
module HttpFraming {
  import opened HttpText
  import opened HttpNumbers
  import opened HttpParsing
  import opened HttpReceiving
  import opened HttpSending
  import opened HttpRoundTrip

  predicate IsContentLength(name: string) {
    SameText(name, "Content-Length")
  }

  predicate IsTransferEncoding(name: string) {
    SameText(name, "Transfer-Encoding")
  }

  // ----- Single headers -----

  /** The size that a Content-Length denotes: its decimal number, cut to 32 bits. */
  function SizeOf(sign: string, d: string): nat
    requires Decimal(d)
  {
    var v := DecimalValue(d);
    if v > ULONG_MAX then 0xFFFF_FFFF
    else if sign == "-" then (ULONG_MAX + 1 - v) % 0x1_0000_0000
    else v % 0x1_0000_0000
  }

  lemma ContentLengthReads(cfg: Config, name: string, value: string, sign: string, d: string, rest: string)
    requires IsContentLength(name) && Layout(value, "", sign, d, rest)
    ensures AddHeader(cfg, name, value) ==
            (cfg.(events := cfg.events + [Header(name, value)], size := SizeOf(sign, d)), Go)
  {
    hide StrToUL, DecimalValue;
    NumberReads(value, "", sign, d, rest);
  }

  /** A Content-Length is refused exactly if it does not begin with a number. */
  lemma ContentLengthRefusedIff(cfg: Config, name: string, value: string)
    requires IsContentLength(name)
    ensures AddHeader(cfg, name, value) == (cfg, Stop(HeProtocol)) <==> !HasNumber(value)
    ensures AddHeader(cfg, name, value).1.Go? <==> HasNumber(value)
  {
    hide StrToUL;
    NumberIff(value);
  }

  lemma TransferEncodingReads(cfg: Config, name: string, value: string)
    requires IsTransferEncoding(name)
    ensures SameText(value, "chunked") ==>
              AddHeader(cfg, name, value) ==
              (cfg.(events := cfg.events + [Header(name, value)], chunked := true), Go)
    ensures SameText(value, "identity") ==>
              AddHeader(cfg, name, value) ==
              (cfg.(events := cfg.events + [Header(name, value)], chunked := false), Go)
    ensures !SameText(value, "chunked") && !SameText(value, "identity") ==>
              AddHeader(cfg, name, value) == (cfg, Stop(HeProtocol))
  {
    assert |name| == 17 && |"Content-Length"| == 14;
    if SameText(value, "identity") { assert |value| == 8 && |"chunked"| == 7; }
  }

  lemma OtherHeaderReads(cfg: Config, name: string, value: string)
    requires !IsContentLength(name) && !IsTransferEncoding(name)
    ensures AddHeader(cfg, name, value) == (cfg.(events := cfg.events + [Header(name, value)]), Go)
  {
  }

  // ----- Lines that are refused -----

  /** A line without a colon among the headers. */
  lemma NoColonIsRefused(client: Client, cfg: Config, line: string)
    requires cfg.state == StHeaders && '\n' !in line && TrimEnd(line) != "" && ':' !in line
    ensures FeedAll(client, Running(cfg, ""), line + "\n") == Finished(cfg, HeProtocol)
  {
    FeedLine(client, cfg, line);
    TrimEndMeans(line);
    FindMeans(TrimEnd(line), ':');
    hide FeedAll, TrimEnd, Find;
    assert ':' !in TrimEnd(line);
  }

  /** The size line of a chunk: digits give the size, and end the body if it is zero. */
  lemma ChunkSizeReads(client: Client, cfg: Config, d: string)
    requires cfg.state == StChunkSize && '\n' !in d && TrimEnd(d) == d != "" && ValueOf(d, 16) <= ULONG_MAX
    requires forall i :: 0 <= i < |d| ==> DigitValue(d[i]) < 16
    ensures FeedAll(client, Running(cfg, ""), d + "\n") ==
            if ValueOf(d, 16) == 0 then Running(cfg.(size := 0, state := StTrailers), "")
            else Running(cfg.(size := ValueOf(d, 16), state := StData), "")
  {
    FeedLine(client, cfg, d);
    HexReads(d);
    hide FeedAll, TrimEnd, StrToUL, ValueOf;
  }

  /** A size line that is empty or does not end in a digit. */
  lemma NoChunkSizeIsRefused(client: Client, cfg: Config, line: string)
    requires cfg.state == StChunkSize && '\n' !in line
    requires TrimEnd(line) == "" || DigitValue(TrimEnd(line)[|TrimEnd(line)| - 1]) >= 16
    ensures var end := FeedAll(client, Running(cfg, ""), line + "\n");
            end.Finished? && end.error == HeProtocol && end.cfg.body == cfg.body
  {
    FeedLine(client, cfg, line);
    if TrimEnd(line) != "" { NoHexAtEnd(TrimEnd(line)); }
    hide FeedAll, TrimEnd, StrToUL;
  }

  /** Anything between the data of a chunk and the end of its line. */
  lemma NoChunkEndIsRefused(client: Client, cfg: Config, line: string)
    requires cfg.state == StChunkTerm && '\n' !in line && TrimEnd(line) != ""
    ensures FeedAll(client, Running(cfg, ""), line + "\n") == Finished(cfg, HeProtocol)
  {
    FeedLine(client, cfg, line);
    hide FeedAll, TrimEnd;
  }

  /** Trailers are skipped, up to the empty line that completes the message. */
  lemma TrailersAreSkipped(client: Client, cfg: Config, line: string)
    requires cfg.state == StTrailers && '\n' !in line
    ensures FeedAll(client, Running(cfg, ""), line + "\n") ==
            if TrimEnd(line) == "" then Finished(cfg, HeNone) else Running(cfg, "")
  {
    FeedLine(client, cfg, line);
    hide FeedAll, TrimEnd;
  }

  /** A leader that the user refuses ends the message with the user's error. */
  lemma LeaderMayBeRefused(client: Client, line: string)
    requires '\n' !in line && client.leader(TrimEnd(line)) != HeNone
    ensures var end := FeedAll(client, START, line + "\n");
            end.Finished? && end.error == client.leader(TrimEnd(line)) && end.cfg.events == [Leader(TrimEnd(line))]
  {
    FeedLine(client, INITIAL, line);
    hide FeedAll, TrimEnd;
  }

  /** And so does an error in answer to the headers. */
  lemma HeadersMayBeRefused(client: Client, cfg: Config, line: string)
    requires cfg.state == StHeaders && '\n' !in line && TrimEnd(line) == ""
    requires client.headersDone(cfg.events, cfg.chunked, cfg.size).error != HeNone
    ensures var end := FeedAll(client, Running(cfg, ""), line + "\n");
            end.Finished? && end.error == client.headersDone(cfg.events, cfg.chunked, cfg.size).error
  {
    FeedLine(client, cfg, line);
    hide FeedAll, TrimEnd;
  }

  // ----- Lists of headers -----

  /** A Content-Length must begin with a number, and a Transfer-Encoding must be known. */
  ghost predicate Acceptable(h: Field) {
    && (IsContentLength(h.0) ==> HasNumber(h.1))
    && (IsTransferEncoding(h.0) ==> SameText(h.1, "chunked") || SameText(h.1, "identity"))
  }

  lemma AcceptedIff(cfg: Config, h: Field)
    ensures AddHeader(cfg, h.0, h.1).1.Go? <==> Acceptable(h)
    ensures !IsContentLength(h.0) ==> AddHeader(cfg, h.0, h.1).0.size == cfg.size
    ensures !IsTransferEncoding(h.0) ==> AddHeader(cfg, h.0, h.1).0.chunked == cfg.chunked
  {
    NotBoth(h.0);
    hide StrToUL, HasNumber, SameText;
    if IsContentLength(h.0) {
      ContentLengthRefusedIff(cfg, h.0, h.1);
    } else if IsTransferEncoding(h.0) {
      TransferEncodingReads(cfg, h.0, h.1);
    } else {
      OtherHeaderReads(cfg, h.0, h.1);
    }
  }

  lemma NotBoth(name: string)
    ensures !(IsContentLength(name) && IsTransferEncoding(name))
  {
    assert |"Content-Length"| == 14 && |"Transfer-Encoding"| == 17;
  }

  ghost predicate AllAcceptable(headers: seq<Field>) {
    forall i :: 0 <= i < |headers| ==> Acceptable(headers[i])
  }

  /** The parser goes on to the body exactly if it accepts every header. */
  lemma {:induction false} HeadersAcceptedIff(cfg: Config, headers: seq<Field>)
    ensures AddHeaders(cfg, headers).1.Go? <==> AllAcceptable(headers)
    decreases |headers|
  {
    hide Acceptable, AddHeader;
    if headers != [] {
      var (first, h) := (headers[..|headers| - 1], headers[|headers| - 1]);
      HeadersAcceptedIff(cfg, first);
      AcceptedIff(AddHeaders(cfg, first).0, h);
      assert AllAcceptable(headers) <==> AllAcceptable(first) && Acceptable(h);
    }
  }

  /** The last header of that name, if there is one. */
  predicate IsLast(headers: seq<Field>, name: string, k: nat) {
    && k < |headers| && SameText(headers[k].0, name)
    && forall j :: k < j < |headers| ==> !SameText(headers[j].0, name)
  }

  predicate IsNone(headers: seq<Field>, name: string) {
    forall j :: 0 <= j < |headers| ==> !SameText(headers[j].0, name)
  }

  /** The last Content-Length decides, and without one the length stays unknown. */
  lemma {:induction false} SizeFromHeaders(cfg: Config, headers: seq<Field>, k: nat, d: string)
    requires AllAcceptable(headers)
    ensures IsNone(headers, "Content-Length") ==> AddHeaders(cfg, headers).0.size == cfg.size
    ensures IsLast(headers, "Content-Length", k) && headers[k].1 == d && Decimal(d)
            && DecimalValue(d) < 0x1_0000_0000 ==>
              AddHeaders(cfg, headers).0.size == DecimalValue(d)
    decreases |headers|
  {
    hide Acceptable, AddHeader, DecimalValue, SameText;
    if headers != [] {
      var (first, h) := (headers[..|headers| - 1], headers[|headers| - 1]);
      SizeFromHeaders(cfg, first, k, d);
      HeadersAcceptedIff(cfg, first);
      AcceptedIff(AddHeaders(cfg, first).0, h);
      if IsLast(headers, "Content-Length", k) && headers[k].1 == d && Decimal(d) && k == |headers| - 1 {
        assert Layout(d, "", "", d, "") by { assert "" + ("" + (d + "")) == d; }
        ContentLengthReads(AddHeaders(cfg, first).0, h.0, d, "", d, "");
      }
    }
  }

  /** The last Transfer-Encoding decides, and without one the body is not chunked. */
  lemma {:induction false} ChunkedFromHeaders(cfg: Config, headers: seq<Field>, k: nat)
    requires AllAcceptable(headers)
    ensures IsNone(headers, "Transfer-Encoding") ==> AddHeaders(cfg, headers).0.chunked == cfg.chunked
    ensures IsLast(headers, "Transfer-Encoding", k) ==>
              AddHeaders(cfg, headers).0.chunked == SameText(headers[k].1, "chunked")
    decreases |headers|
  {
    hide Acceptable, AddHeader;
    if headers != [] {
      var (first, h) := (headers[..|headers| - 1], headers[|headers| - 1]);
      ChunkedFromHeaders(cfg, first, k);
      HeadersAcceptedIff(cfg, first);
      AcceptedIff(AddHeaders(cfg, first).0, h);
      if IsLast(headers, "Transfer-Encoding", k) && k == |headers| - 1 {
        KnownEncoding(h);
        TransferEncodingReads(AddHeaders(cfg, first).0, h.0, h.1);
      }
    }
  }

  lemma KnownEncoding(h: Field)
    requires Acceptable(h) && IsTransferEncoding(h.0)
    ensures SameText(h.1, "chunked") != SameText(h.1, "identity")
  {
    assert |"chunked"| == 7 && |"identity"| == 8;
  }

  // ----- Delivery -----

  /** A user that takes messages as they come. */
  ghost predicate TakesAll(client: Client) {
    && (forall e, c, s :: client.headersDone(e, c, s).size == s)
    && (forall e, c, s :: client.headersDone(e, c, s).error == HeNone && !client.headersDone(e, c, s).ignore)
  }

  /** What both delivery results ask of the message: the send is complete, its texts survive the line
      format, and the receiver accepts its leader and its headers. */
  ghost predicate Sent(sender: Sender, client: Client)
    reads sender, sender.document, sender.network
  {
    && sender.WholeMessageSent() && sender.prior == "" && sender.document != null
    && sender.chunked == AsksForChunks(sender.message.headers)
    && GoodMessage(sender.message) && AllAcceptable(sender.message.headers)
    && client.leader(sender.message.leader) == HeNone && TakesAll(client)
  }

  lemma {:induction false} AsksIff(headers: seq<Field>)
    ensures IsNone(headers, "Transfer-Encoding") ==> !AsksForChunks(headers)
    ensures (exists j :: 0 <= j < |headers| && IsTransferEncoding(headers[j].0))
            && (forall j :: 0 <= j < |headers| && IsTransferEncoding(headers[j].0) ==> headers[j].1 == "chunked") ==>
              AsksForChunks(headers)
  {
    hide SameText;
    if headers != [] && !IsTransferEncoding(headers[0].0) {
      AsksIff(headers[1..]);
      if j :| 0 <= j < |headers| && IsTransferEncoding(headers[j].0) {
        assert headers[1..][j - 1] == headers[j];
      }
    }
  }

  /** A message without a Transfer-Encoding, whose last Content-Length says how long its document is,
      arrives, however it is cut. */
  lemma SizedDelivery(sender: Sender, client: Client, k: nat, d: string, arrivals: seq<string>, calls: seq<Call>)
    requires Sent(sender, client) && IsNone(sender.message.headers, "Transfer-Encoding")
    requires IsLast(sender.message.headers, "Content-Length", k) && sender.message.headers[k].1 == d && Decimal(d)
    requires DecimalValue(d) == |sender.document.contents[sender.from..]| < 0x1_0000_0000
    ensures var end := FeedAll(client, START, sender.network.contents);
            end.Finished? && end.error == HeNone && HasMessage(sender, end.cfg)
    ensures Session(client, arrivals, calls) && Joined(arrivals) == sender.network.contents ==>
              var call := Last(calls);
              match call.result
              case PrContinue => false
              case PrBlock => call.processed < |call.input| || HasMessage(sender, call.after)
              case PrComplete => call.refused || (call.error == HeNone && HasMessage(sender, call.after))
  {
    hide FeedAll, AddHeaders, GoodMessage, Acceptable, SameText, DecimalValue, HasMessage, Session, Joined;
    var (m, start) := (sender.message, INITIAL.(state := StHeaders, events := [Leader(sender.message.leader)]));
    AsksIff(m.headers);
    HeadersAcceptedIff(start, m.headers);
    SizeFromHeaders(start, m.headers, k, d);
    ChunkedFromHeaders(start, m.headers, 0);
    hide AsksForChunks, IsNone, IsLast, AllAcceptable;
    SendThenReceiveSized(sender, client);
    SendThenReceiveSizedInPieces(sender, client, arrivals, calls);
  }

  /** A message whose Transfer-Encoding is chunked arrives, whatever its length, however it was read,
      written and cut. */
  lemma ChunkedDelivery(sender: Sender, client: Client, k: nat, arrivals: seq<string>, calls: seq<Call>)
    requires Sent(sender, client) && IsLast(sender.message.headers, "Transfer-Encoding", k)
    requires forall j :: 0 <= j < |sender.message.headers| && IsTransferEncoding(sender.message.headers[j].0) ==>
               sender.message.headers[j].1 == "chunked"
    ensures var end := FeedAll(client, START, sender.network.contents);
            end.Finished? && end.error == HeNone && HasMessage(sender, end.cfg)
    ensures Session(client, arrivals, calls) && Joined(arrivals) == sender.network.contents ==>
              var call := Last(calls);
              match call.result
              case PrContinue => false
              case PrBlock => call.processed < |call.input|
              case PrComplete => call.refused || (call.error == HeNone && HasMessage(sender, call.after))
  {
    hide FeedAll, AddHeaders, GoodMessage, Acceptable, HasMessage, Session, Joined;
    var (m, start) := (sender.message, INITIAL.(state := StHeaders, events := [Leader(sender.message.leader)]));
    AsksIff(m.headers);
    HeadersAcceptedIff(start, m.headers);
    ChunkedFromHeaders(start, m.headers, k);
    assert AddHeaders(start, m.headers).0.chunked;
    hide AsksForChunks, IsLast, AllAcceptable, SameText;
    SendThenReceive(sender, client);
    SendThenReceiveInPieces(sender, client, arrivals, calls);
  }
}
