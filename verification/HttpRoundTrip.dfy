/** What the sender of src/talk/base/httpbase.cc emits, its parser reads back. */
module HttpRoundTrip {
  import opened HttpText
  import opened Buffers
  import opened HttpParsing
  import opened HttpReceiving
  import opened HttpSending

  // ----- Chunk sizes -----

  function Pow16(k: nat): nat {
    if k == 0 then 1 else 16 * Pow16(k - 1)
  }

  lemma DigitReadsBack(n: nat)
    requires n < 16
    ensures DigitValue(HexDigit(n)) == n && ToLower(HexDigit(n)) != 'x'
  {
  }

  lemma {:induction false} HexReadsBack(n: nat, k: nat)
    requires n < Pow16(k)
    ensures NumberOf(Hex(n, k), 16) == n
    ensures forall i :: 0 <= i < k ==> DigitValue(Hex(n, k)[i]) < 16 && ToLower(Hex(n, k)[i]) != 'x'
  {
    if k > 0 {
      DigitReadsBack(n % 16);
      hide DigitValue, HexDigit, ToLower;
      HexReadsBack(n / 16, k - 1);
      var (digits, first) := (Hex(n, k), Hex(n / 16, k - 1));
      assert digits == first + [HexDigit(n % 16)];
      assert digits[..k - 1] == first;
    }
  }

  lemma {:induction false} AllDigits(s: string, base: nat)
    requires base <= 16 && forall i :: 0 <= i < |s| ==> DigitValue(s[i]) < base
    ensures DigitRun(s, base) == |s|
    decreases |s|
  {
    if s != "" { AllDigits(s[1..], base); }
  }

  lemma DigitIsPlain(c: char)
    requires DigitValue(c) < 16
    ensures !IsSpace(c) && c != '+' && c != '-' && c != '\n'
  {
  }

  /** `strtoul` reads the eight digits of a chunk size, and nothing is trimmed off them. */
  lemma ChunkSizeLine(n: nat)
    requires n < 0x1_0000_0000
    ensures StrToUL(Hex(n, 8), 16) == (n, 8)
    ensures TrimEnd(Hex(n, 8) + "\r") == Hex(n, 8) && '\n' !in Hex(n, 8)
  {
    var s := Hex(n, 8);
    assert Pow16(8) == 0x1_0000_0000 by {
      assert Pow16(4) == 0x1_0000;
    }
    HexReadsBack(n, 8);
    forall i | 0 <= i < 8 ensures !IsSpace(s[i]) && s[i] != '\n' { DigitIsPlain(s[i]); }
    DigitIsPlain(s[0]);
    AllDigits(s, 16);
    assert s[0..] == s && s[0..0 + 8] == s;
    assert (s + "\r")[..8] == s;
  }

  // ----- Chunks -----

  lemma EmptyLine()
    ensures TrimEnd("\r") == "" && '\n' !in "\r"
  {
    assert TrimEnd("\r") == TrimEnd("\r"[..0]);
  }

  /** One chunk delivers its data and leaves the parser waiting for the next. */
  lemma ChunkParses(client: Client, cfg: Config, data: string)
    requires cfg.state == StChunkSize && cfg.chunked && !cfg.ignore && 0 < |data| < 0x1_0000_0000
    ensures FeedAll(client, Running(cfg, ""), Chunk(data))
            == Running(cfg.(body := cfg.body + data, size := 0), "")
  {
    hide FeedAll, StrToUL, TrimEnd, Hex;
    var digits := Hex(|data|, 8);
    ChunkSizeLine(|data|);
    EmptyLine();
    assert Chunk(data) == ((digits + "\r") + "\n") + (data + ("\r" + "\n"));
    var c1 := cfg.(size := |data|, state := StData);
    var c2 := c1.(size := 0, body := cfg.body + data, state := StChunkTerm);
    FeedAllAppend(client, Running(cfg, ""), (digits + "\r") + "\n", data + ("\r" + "\n"));
    FeedLine(client, cfg, digits + "\r");
    FeedAllAppend(client, Running(c1, ""), data, "\r" + "\n");
    FeedData(client, c1, data);
    FeedLine(client, c2, "\r");
  }

  lemma {:induction false} ChunksParse(client: Client, cfg: Config, pieces: seq<string>)
    requires cfg.state == StChunkSize && cfg.chunked && !cfg.ignore
    requires forall p :: p in pieces ==> 0 < |p| < 0x1_0000_0000
    ensures FeedAll(client, Running(cfg, ""), Chunks(pieces))
            == Running(cfg.(body := cfg.body + Joined(pieces), size := if pieces == [] then cfg.size else 0), "")
    decreases |pieces|
  {
    hide Chunk, FeedAll;
    if pieces == [] {
      FeedNothing(client, Running(cfg, ""), "");
      assert cfg.body + Joined(pieces) == cfg.body;
    } else {
      var (first, last) := (pieces[..|pieces| - 1], pieces[|pieces| - 1]);
      assert Chunks(pieces) == Chunks(first) + Chunk(last) && Joined(pieces) == Joined(first) + last;
      hide Chunks, Joined;
      ChunksParse(client, cfg, first);
      FeedAllAppend(client, Running(cfg, ""), Chunks(first), Chunk(last));
      var mid := cfg.(body := cfg.body + Joined(first), size := if first == [] then cfg.size else 0);
      ChunkParses(client, mid, last);
      Added(cfg.body, Joined(first), last);
    }
  }

  lemma LastChunkParses(client: Client, cfg: Config)
    requires cfg.state == StChunkSize
    ensures FeedAll(client, Running(cfg, ""), LAST_CHUNK)
            == Finished(cfg.(size := 0, state := StTrailers), HeNone)
    ensures FeedAll(client, Running(cfg, ""), LAST_CHUNK[..4]).Running?
  {
    hide FeedAll;
    EmptyLine();
    var end := cfg.(size := 0, state := StTrailers);
    assert TrimEnd("0\r") == "0" by { assert "0\r"[..1] == "0"; }
    assert StrToUL("0", 16) == (0, 1) by {
      assert "0"[0..1] == "0" && NumberOf("0"[..0], 16) == 0;
    }
    FeedLine(client, cfg, "0\r");
    FeedLine(client, end, "\r");
    assert LAST_CHUNK == ("0\r" + "\n") + ("\r" + "\n") && LAST_CHUNK[..4] == ("0\r" + "\n") + "\r";
    FeedAllAppend(client, Running(cfg, ""), "0\r" + "\n", "\r" + "\n");
    FeedAllAppend(client, Running(cfg, ""), "0\r" + "\n", "\r");
    FeedPartialLine(client, end, "", "\r");
  }

  /** Whatever the pieces in which the document was read, the parser delivers the document,
      and it completes at the very last character sent and not before. */
  lemma ChunkedRoundTrip(client: Client, cfg: Config, pieces: seq<string>)
    requires cfg.state == StChunkSize && cfg.chunked && !cfg.ignore
    requires forall p :: p in pieces ==> 0 < |p| < 0x1_0000_0000
    ensures var text := BodyText(true, pieces, true);
            && FeedAll(client, Running(cfg, ""), text)
               == Finished(cfg.(body := cfg.body + Joined(pieces), size := 0, state := StTrailers), HeNone)
            && forall k :: 0 <= k < |text| ==> FeedAll(client, Running(cfg, ""), text[..k]).Running?
  {
    hide FeedAll, Chunks;
    var text := BodyText(true, pieces, true);
    var start := Running(cfg, "");
    ChunksParse(client, cfg, pieces);
    var mid := cfg.(body := cfg.body + Joined(pieces), size := if pieces == [] then cfg.size else 0);
    LastChunkParses(client, mid);
    FeedAllAppend(client, start, Chunks(pieces), LAST_CHUNK);
    FeedAllAppend(client, start, Chunks(pieces), LAST_CHUNK[..4]);
    var n := |text| - 1;
    assert text[..n] == Chunks(pieces) + LAST_CHUNK[..4];
    forall k | 0 <= k < |text| ensures FeedAll(client, start, text[..k]).Running? {
      assert text[..n] == text[..k] + text[k..n];
      FeedAllAppend(client, start, text[..k], text[k..n]);
      if FeedAll(client, start, text[..k]).Finished? {
        FinishedStays(client, FeedAll(client, start, text[..k]), text[k..n]);
      }
    }
  }

  // ----- The head of a message -----

  /** Texts that survive the line format: one line, no white space at the ends of a value. */
  predicate GoodHeader(h: Field) {
    && Fits(h)
    && '\n' !in h.0 && '\0' !in h.0 && ':' !in h.0
    && '\n' !in h.1 && SpaceRun(h.1) == 0 && TrimEnd(h.1) == h.1
  }

  predicate GoodMessage(m: Message) {
    && |m.leader| + 4 < BUFFER_SIZE && '\n' !in m.leader && TrimEnd(m.leader) == m.leader
    && forall i :: 0 <= i < |m.headers| ==> GoodHeader(m.headers[i])
  }

  /** What the parser makes of a list of headers: it must accept every one of them. */
  function AddHeaders(cfg: Config, headers: seq<Field>): (Config, Outcome) {
    if headers == [] then (cfg, Go)
    else
      var h := headers[|headers| - 1];
      var (c, outcome) := AddHeaders(cfg, headers[..|headers| - 1]);
      if outcome.Go? then AddHeader(c, h.0, h.1) else (c, outcome)
  }

  function HeaderEvents(headers: seq<Field>): seq<Event> {
    seq(|headers|, i requires 0 <= i < |headers| => Header(headers[i].0, headers[i].1))
  }

  lemma {:induction false} HeadersReported(cfg: Config, headers: seq<Field>)
    requires AddHeaders(cfg, headers).1.Go?
    ensures var c := AddHeaders(cfg, headers).0;
            && c.state == cfg.state && c.body == cfg.body && c.ignore == cfg.ignore
            && c.events == cfg.events + HeaderEvents(headers)
    decreases |headers|
  {
    hide StrToUL, SameText;
    if headers != [] {
      var (first, h) := (headers[..|headers| - 1], headers[|headers| - 1]);
      HeadersReported(cfg, first);
      assert HeaderEvents(headers) == HeaderEvents(first) + [Header(h.0, h.1)];
    }
  }

  lemma {:induction false} FindFirst(name: string, rest: string)
    requires '\0' !in name && ':' !in name
    ensures Find(name + ":" + rest, ':') == |name|
    decreases |name|
  {
    var s := name + ":" + rest;
    if name != "" {
      assert s[0] == name[0] && s[1..] == name[1..] + ":" + rest;
      FindFirst(name[1..], rest);
    }
  }

  lemma TrimShorter(s: string)
    ensures |TrimEnd(s)| <= |s|
  {
  }

  lemma HeaderLineReads(cfg: Config, h: Field)
    requires GoodHeader(h)
    ensures HeaderLine(cfg, TrimEnd(h.0 + ": " + h.1 + "\r")) == AddHeader(cfg, h.0, h.1)
    ensures TrimEnd(h.0 + ": " + h.1 + "\r") != ""
  {
    hide AddHeader, TrimEnd, Find;
    var rest := if h.1 == "" then "" else " " + h.1;
    var line := h.0 + ":" + rest;
    assert TrimEnd(h.0 + ": " + h.1 + "\r") == line by {
      if h.1 == "" {
        TrimEmptyValue(h.0);
        assert h.0 + ": " + h.1 + "\r" == h.0 + ": " + "\r";
      } else {
        TrimValue(h.0 + ": ", h.1);
        assert h.0 + ": " + h.1 == line;
      }
    }
    FindFirst(h.0, rest);
    var n := |h.0|;
    assert line[..n] == h.0 && line[n + 1..] == rest;
    assert line[n + 1 + SpaceRun(rest)..] == h.1 by {
      if h.1 != "" { assert rest[1..] == h.1; }
    }
  }

  /** A header line gives back the header. */
  lemma HeaderParses(client: Client, cfg: Config, h: Field)
    requires cfg.state == StHeaders && GoodHeader(h) && AddHeader(cfg, h.0, h.1).1.Go?
    ensures FeedAll(client, Running(cfg, ""), HeaderText(h)) == Settle(AddHeader(cfg, h.0, h.1).0)
  {
    hide FeedAll, AddHeader, TrimEnd, StrToUL, HeaderLine;
    var line := h.0 + ": " + h.1 + "\r";
    HeaderLineReads(cfg, h);
    assert HeaderText(h) == line + "\n";
    FeedLine(client, cfg, line);
  }

  lemma TrimEmptyValue(name: string)
    ensures TrimEnd(name + ": " + "\r") == name + ":"
  {
    var (s, t) := (name + ": " + "\r", name + ": ");
    assert s[..|s| - 1] == t && t[..|t| - 1] == name + ":";
    assert TrimEnd(name + ":") == name + ":";
    assert TrimEnd(t) == TrimEnd(t[..|t| - 1]);
  }

  lemma TrimValue(prefix: string, value: string)
    requires value != "" && TrimEnd(value) == value
    ensures TrimEnd(prefix + value + "\r") == prefix + value
  {
    var s := prefix + value;
    assert (s + "\r")[..|s|] == s;
    if IsSpace(value[|value| - 1]) { TrimShorter(value[..|value| - 1]); }
  }

  lemma {:induction false} HeadersParse(client: Client, cfg: Config, headers: seq<Field>)
    requires cfg.state == StHeaders && AddHeaders(cfg, headers).1.Go?
    requires forall i :: 0 <= i < |headers| ==> GoodHeader(headers[i])
    ensures FeedAll(client, Running(cfg, ""), HeaderBlock(headers)) == Running(AddHeaders(cfg, headers).0, "")
    decreases |headers|
  {
    hide GoodHeader, HeaderText, AddHeader;
    if headers != [] {
      var (first, h) := (headers[..|headers| - 1], headers[|headers| - 1]);
      HeadersParse(client, cfg, first);
      HeadersReported(cfg, first);
      HeadersReported(cfg, headers);
      assert Fits(h) by { FitsIfGood(h); }
      FeedAllAppend(client, Running(cfg, ""), HeaderBlock(first), HeaderText(h));
      HeaderParses(client, AddHeaders(cfg, first).0, h);
    }
  }

  lemma FitsIfGood(h: Field)
    requires GoodHeader(h)
    ensures Fits(h)
  {
  }

  /** The configuration in which the parser meets the blank line. */
  function HeadersRead(m: Message): (Config, Outcome) {
    AddHeaders(INITIAL.(state := StHeaders, events := [Leader(m.leader)]), m.headers)
  }

  lemma HeadParses(client: Client, m: Message)
    requires GoodMessage(m) && client.leader(m.leader) == HeNone && HeadersRead(m).1.Go?
    requires EndOfHeaders(client, HeadersRead(m).0).1.Go?
    ensures FeedAll(client, START, Head(m)) == Settle(EndOfHeaders(client, HeadersRead(m).0).0)
  {
    hide FeedAll, AddHeaders, GoodHeader, HeaderBlock, TrimEnd;
    var c1 := INITIAL.(state := StHeaders, events := [Leader(m.leader)]);
    var c2 := HeadersRead(m).0;
    var (opening, block, blank) := ((m.leader + "\r") + "\n", HeaderBlock(m.headers), "\r" + "\n");
    assert FeedAll(client, START, opening) == Running(c1, "") by {
      TrimLeader(m.leader);
      FeedLine(client, INITIAL, m.leader + "\r");
    }
    assert FeedAll(client, START, opening + block) == Running(c2, "") by {
      FeedAllAppend(client, START, opening, block);
      HeadersParse(client, c1, m.headers);
    }
    HeadersReported(c1, m.headers);
    assert FeedAll(client, Running(c2, ""), blank) == Settle(EndOfHeaders(client, c2).0) by {
      EmptyLine();
      FeedLine(client, c2, "\r");
    }
    FeedAllAppend(client, START, opening + block, blank);
    assert Opening(m) == opening;
    assert Head(m) == (opening + block) + blank by {
      if m.headers == [] {
        NoHeaderBlock();
        assert opening + block == opening;
      }
    }
  }

  lemma NoHeaderBlock()
    ensures HeaderBlock([]) == ""
  {
  }

  lemma TrimLeader(s: string)
    requires TrimEnd(s) == s
    ensures TrimEnd(s + "\r") == s
  {
    assert (s + "\r")[..|s|] == s;
  }

  // ----- Whole messages -----

  /** A whole chunked message, in whatever pieces its document was read: the parser reports
      the leader, every header once and in order, the end of the headers, and the document,
      and it completes without error. */
  lemma ChunkedMessageRoundTrip(client: Client, m: Message, pieces: seq<string>)
    requires GoodMessage(m) && client.leader(m.leader) == HeNone && HeadersRead(m).1.Go?
    requires var c := HeadersRead(m).0;
             c.chunked && EndOfHeaders(client, c).1.Go? && !EndOfHeaders(client, c).0.ignore
    requires forall p :: p in pieces ==> 0 < |p| < 0x1_0000_0000
    ensures var end := FeedAll(client, START, Head(m) + BodyText(true, pieces, true));
            && end.Finished? && end.error == HeNone && end.cfg.body == Joined(pieces) && end.cfg.state == StTrailers
            && end.cfg.events == [Leader(m.leader)] + HeaderEvents(m.headers)
                                 + [HeaderComplete(true, HeadersRead(m).0.size)]
  {
    hide FeedAll, AddHeaders, GoodMessage, Head, BodyText;
    var c := HeadersRead(m).0;
    HeadersReported(INITIAL.(state := StHeaders, events := [Leader(m.leader)]), m.headers);
    HeadParses(client, m);
    var start := EndOfHeaders(client, c).0;
    FeedAllAppend(client, START, Head(m), BodyText(true, pieces, true));
    ChunkedRoundTrip(client, start, pieces);
    assert start.body + Joined(pieces) == Joined(pieces);
  }

  /** The same with a Content-Length that is the length of the document. */
  lemma SizedMessageRoundTrip(client: Client, m: Message, pieces: seq<string>)
    requires GoodMessage(m) && client.leader(m.leader) == HeNone && HeadersRead(m).1.Go?
    requires var c := HeadersRead(m).0;
             !c.chunked && EndOfHeaders(client, c).1.Go? && !EndOfHeaders(client, c).0.ignore
             && EndOfHeaders(client, c).0.size == |Joined(pieces)| < SIZE_UNKNOWN
    ensures var end := FeedAll(client, START, Head(m) + BodyText(false, pieces, false));
            && end.Finished? && end.error == HeNone && end.cfg.body == Joined(pieces)
            && end.cfg.state == StData && end.cfg.size == 0
            && end.cfg.events == [Leader(m.leader)] + HeaderEvents(m.headers)
                                 + [HeaderComplete(false, HeadersRead(m).0.size)]
  {
    hide FeedAll, AddHeaders, GoodMessage, Head, Joined;
    var c := HeadersRead(m).0;
    HeadersReported(INITIAL.(state := StHeaders, events := [Leader(m.leader)]), m.headers);
    HeadParses(client, m);
    var start := EndOfHeaders(client, c).0;
    assert BodyText(false, pieces, false) == Joined(pieces);
    FeedAllAppend(client, START, Head(m), Joined(pieces));
    if Joined(pieces) == "" {
      FeedNothing(client, Settle(start), Joined(pieces));
      FinishedStays(client, Settle(start), Joined(pieces));
    } else {
      FeedData(client, start, Joined(pieces));
    }
    assert start.body + Joined(pieces) == Joined(pieces);
  }

  /** A parser has reported the leader and the headers of a message, each once and in order, the
      end of the headers, and the document. */
  ghost predicate HasMessage(sender: Sender, cfg: Config)
    reads sender, sender.document
    requires sender.document != null && sender.from <= |sender.document.contents|
  {
    && cfg.body == sender.document.contents[sender.from..]
    && cfg.events == [Leader(sender.message.leader)] + HeaderEvents(sender.message.headers)
                     + [HeaderComplete(sender.chunked, HeadersRead(sender.message).0.size)]
  }

  /** End to end: once a chunked send has completed, a receiver that gets what the network
      accepted finishes without error and has the document, whatever the pieces and the
      partial writes were. */
  lemma SendThenReceive(sender: Sender, client: Client)
    requires sender.WholeMessageSent() && sender.prior == "" && sender.chunked && sender.document != null
    requires GoodMessage(sender.message) && client.leader(sender.message.leader) == HeNone
    requires HeadersRead(sender.message).1.Go?
    requires var c := HeadersRead(sender.message).0;
             c.chunked && EndOfHeaders(client, c).1.Go? && !EndOfHeaders(client, c).0.ignore
    ensures var end := FeedAll(client, START, sender.network.contents);
            && end.Finished? && end.error == HeNone && end.cfg.state == StTrailers
            && HasMessage(sender, end.cfg)
  {
    hide FeedAll, AddHeaders, GoodMessage, Head, Joined, BodyText;
    ChunkedMessageRoundTrip(client, sender.message, sender.pieces);
    assert "" + Head(sender.message) == Head(sender.message);
  }

  /** The same for a receiver: whatever the way in which what the network accepted arrives, and in
      whatever pieces its own document takes the body, its parser does not ask for more, does not
      stop at the end of the input, and when it completes it has the message. */
  lemma SendThenReceiveInPieces(sender: Sender, client: Client, arrivals: seq<string>, calls: seq<Call>)
    requires sender.WholeMessageSent() && sender.prior == "" && sender.chunked && sender.document != null
    requires GoodMessage(sender.message) && client.leader(sender.message.leader) == HeNone
    requires HeadersRead(sender.message).1.Go?
    requires var c := HeadersRead(sender.message).0;
             c.chunked && EndOfHeaders(client, c).1.Go? && !EndOfHeaders(client, c).0.ignore
    ensures Session(client, arrivals, calls) && Joined(arrivals) == sender.network.contents ==>
              var call := Last(calls);
              match call.result
              case PrContinue => false
              case PrBlock => call.processed < |call.input|
              case PrComplete => call.refused || (call.error == HeNone && HasMessage(sender, call.after))
  {
    hide FeedAll, AddHeaders, GoodMessage, Joined, EndOfHeaders, HeaderEvents, HasMessage;
    if Session(client, arrivals, calls) && Joined(arrivals) == sender.network.contents {
      SendThenReceive(sender, client);
      SegmentationIndependence(client, arrivals, calls);
    }
  }

  /** End to end for a message that is not chunked and whose length the receiving user knows. */
  lemma SendThenReceiveSized(sender: Sender, client: Client)
    requires sender.WholeMessageSent() && sender.prior == "" && !sender.chunked && sender.document != null
    requires GoodMessage(sender.message) && client.leader(sender.message.leader) == HeNone
    requires HeadersRead(sender.message).1.Go?
    requires var c := HeadersRead(sender.message).0;
             !c.chunked && EndOfHeaders(client, c).1.Go? && !EndOfHeaders(client, c).0.ignore
             && EndOfHeaders(client, c).0.size == |sender.document.contents[sender.from..]| < SIZE_UNKNOWN
    ensures var end := FeedAll(client, START, sender.network.contents);
            && end.Finished? && end.error == HeNone && end.cfg.state == StData && end.cfg.size == 0
            && HasMessage(sender, end.cfg)
  {
    hide FeedAll, AddHeaders, GoodMessage, Head, Joined, BodyText;
    SizedMessageRoundTrip(client, sender.message, sender.pieces);
    assert "" + Head(sender.message) == Head(sender.message);
  }

  /** And in pieces. A parser that was interrupted right behind the last character has the message
      too: the rest of its work needs no input. */
  lemma SendThenReceiveSizedInPieces(sender: Sender, client: Client, arrivals: seq<string>, calls: seq<Call>)
    requires sender.WholeMessageSent() && sender.prior == "" && !sender.chunked && sender.document != null
    requires GoodMessage(sender.message) && client.leader(sender.message.leader) == HeNone
    requires HeadersRead(sender.message).1.Go?
    requires var c := HeadersRead(sender.message).0;
             !c.chunked && EndOfHeaders(client, c).1.Go? && !EndOfHeaders(client, c).0.ignore
             && EndOfHeaders(client, c).0.size == |sender.document.contents[sender.from..]| < SIZE_UNKNOWN
    ensures Session(client, arrivals, calls) && Joined(arrivals) == sender.network.contents ==>
              var call := Last(calls);
              match call.result
              case PrContinue => false
              case PrBlock => call.processed < |call.input| || HasMessage(sender, call.after)
              case PrComplete => call.refused || (call.error == HeNone && HasMessage(sender, call.after))
  {
    hide FeedAll, AddHeaders, GoodMessage, Joined, EndOfHeaders, HeaderEvents, HasMessage;
    if Session(client, arrivals, calls) && Joined(arrivals) == sender.network.contents {
      SendThenReceiveSized(sender, client);
      SegmentationIndependence(client, arrivals, calls);
    }
  }
}
