/** HttpParser of src/talk/base/httpbase.cc: the incremental parser, and the
    character-at-a-time machine that says what it must compute. */
module HttpParsing {
  import opened HttpText
  import opened Streams

  datatype State = StLeader | StHeaders | StChunkSize | StChunkTerm | StTrailers | StData | StComplete

  datatype HttpError =
    | HeNone | HeProtocol | HeDisconnected | HeOverflow | HeConnectFailed | HeSocketError
    | HeShutdown | HeOperationCancelled | HeAuth | HeCertificateExpired | HeStream | HeCache | HeDefault

  datatype Mode = HmNone | HmConnect | HmRecv | HmSend

  /** Stream errors that HttpBase tells apart. */
  const SOCKET_EACCES: int := 13
  const SEC_E_CERT_EXPIRED: int := -2146893016

  /** HandleStreamClose: what a stream that ends (code 0) or fails means for what is under way;
      `validEnd` is the parser's is_valid_end_of_input. */
  function CloseError(mode: Mode, validEnd: bool, code: int): (error: HttpError)
    ensures error == HeNone <==> code == 0 && mode == HmRecv && validEnd
    ensures error == HeDisconnected <==> code == 0 && !(mode == HmRecv && validEnd)
    ensures error == HeAuth <==> code == 13
    ensures error == HeCertificateExpired <==> code == -2146893016
    ensures error == HeConnectFailed <==> mode == HmConnect && code != 0 && code != 13 && code != -2146893016
    ensures error == HeSocketError <==> mode != HmConnect && code != 0 && code != 13 && code != -2146893016
  {
    if code == 0 then if mode == HmRecv && validEnd then HeNone else HeDisconnected
    else if code == SOCKET_EACCES then HeAuth
    else if code == SEC_E_CERT_EXPIRED then HeCertificateExpired
    else if mode == HmConnect then HeConnectFailed
    else HeSocketError
  }

  datatype ProcessResult = PrContinue | PrBlock | PrComplete

  /** `static_cast<size_t>(-1)`. */
  const SIZE_UNKNOWN: Size := ULONG_MAX

  /** A body without a length ends with the stream. */
  predicate ValidEnd(state: State, size: Size) {
    state == StData && size == SIZE_UNKNOWN
  }

  datatype Event =
    | Leader(line: string)
    | Header(name: string, value: string)
    | HeaderComplete(chunked: bool, size: Size)

  /** What the user answers when the headers are complete: a new data size, whether
      to ignore the body, an error, and whether to take over the body as a stream. */
  datatype Answer = Answer(size: Size, ignore: bool, error: HttpError, takesOver: bool)

  /** The user of the parser: how it judges the leader line, and what it answers when
      the headers are complete, which may depend on everything received so far. */
  datatype Client = Client(
    leader: string -> HttpError,
    headersDone: (seq<Event>, bool, Size) -> Answer)

  /** The parser's fields together with what it has delivered. */
  datatype Config = Config(state: State, chunked: bool, size: Size, ignore: bool,
                           events: seq<Event>, body: string)

  const INITIAL := Config(StLeader, false, SIZE_UNKNOWN, false, [], "")

  datatype Outcome = Go | Stop(error: HttpError)

  // ----- What one line does -----

  function AddHeader(cfg: Config, name: string, value: string): (Config, Outcome) {
    var cfg1 := cfg.(events := cfg.events + [Header(name, value)]);
    if SameText(name, "Content-Length") then
      var (v, end) := StrToUL(value, 10);
      if end == 0 then (cfg, Stop(HeProtocol))
      else (cfg1.(size := v % 0x1_0000_0000), Go)
    else if SameText(name, "Transfer-Encoding") then
      if SameText(value, "chunked") then (cfg1.(chunked := true), Go)
      else if SameText(value, "identity") then (cfg1.(chunked := false), Go)
      else (cfg, Stop(HeProtocol))
    else (cfg1, Go)
  }

  function HeaderLine(cfg: Config, line: string): (Config, Outcome) {
    var colon := Find(line, ':');
    if colon == |line| then (cfg, Stop(HeProtocol))
    else
      var value := colon + 1 + SpaceRun(line[colon + 1..]);
      AddHeader(cfg, line[..colon], line[value..])
  }

  function EndOfHeaders(client: Client, cfg: Config): (Config, Outcome) {
    var cfg1 := cfg.(state := if cfg.chunked then StChunkSize else StData);
    var answer := client.headersDone(cfg.events, cfg.chunked, cfg.size);
    (cfg1.(size := answer.size, ignore := answer.ignore,
           events := cfg.events + [HeaderComplete(cfg.chunked, cfg.size)]),
     if answer.error == HeNone then Go else Stop(answer.error))
  }

  function LineStep(client: Client, cfg: Config, line: string): (Config, Outcome) {
    match cfg.state
    case StLeader =>
      var error := client.leader(line);
      (cfg.(state := StHeaders, events := cfg.events + [Leader(line)]),
       if error == HeNone then Go else Stop(error))
    case StHeaders =>
      if |line| > 0 then HeaderLine(cfg, line) else EndOfHeaders(client, cfg)
    case StChunkSize =>
      if |line| == 0 then (cfg, Stop(HeProtocol))
      else
        var (v, end) := StrToUL(line, 16);
        if end != |line| then (cfg.(size := v), Stop(HeProtocol))
        else (cfg.(size := v, state := if v == 0 then StTrailers else StData), Go)
    case StChunkTerm =>
      if |line| > 0 then (cfg, Stop(HeProtocol))
      else (cfg.(state := if cfg.chunked then StChunkSize else StData), Go)
    case StTrailers =>
      (cfg, if |line| == 0 then Stop(HeNone) else Go)
    case StData => (cfg, Go)
    case StComplete => (cfg, Go)
  }

  /** No line completes the state machine by itself or touches the body. */
  lemma LineStepKeeps(client: Client, cfg: Config, line: string)
    requires ReadsLines(cfg.state)
    ensures var next := LineStep(client, cfg, line).0;
            next.state != StComplete && next.body == cfg.body
  {
    hide StrToUL, Find, SpaceRun, SameText;
  }

  // ----- The reference: a machine that takes one character at a time -----

  datatype Machine =
    | Running(cfg: Config, line: string)
    | Finished(cfg: Config, error: HttpError)

  predicate ReadsLines(state: State) {
    state != StData && state != StComplete
  }

  /** The transitions that need no further input. */
  function Settle(cfg: Config): Machine {
    if cfg.state == StData && cfg.size == 0 then
      if cfg.chunked then Running(cfg.(state := StChunkTerm), "") else Finished(cfg, HeNone)
    else Running(cfg, "")
  }

  lemma SettledIs(cfg: Config)
    ensures ReadsLines(cfg.state) || cfg.size != 0 ==> Settle(cfg) == Running(cfg, "")
    ensures cfg.state == StData && cfg.size == 0 && !cfg.chunked ==> Settle(cfg) == Finished(cfg, HeNone)
  {
  }

  function AfterLine(client: Client, cfg: Config, line: string): Machine {
    var (cfg1, outcome) := LineStep(client, cfg, TrimEnd(line));
    if outcome.Go? then Settle(cfg1) else Finished(cfg1, outcome.error)
  }

  function AfterData(cfg: Config, data: string): Machine
    requires cfg.size == SIZE_UNKNOWN || |data| <= cfg.size
  {
    Settle(Delivered(cfg, data))
  }

  function Delivered(cfg: Config, data: string): Config
    requires cfg.size == SIZE_UNKNOWN || |data| <= cfg.size
  {
    cfg.(body := if cfg.ignore then cfg.body else cfg.body + data,
         size := if cfg.size == SIZE_UNKNOWN then cfg.size else cfg.size - |data|)
  }

  function Feed(client: Client, m: Machine, c: char): Machine {
    match m
    case Finished(_, _) => m
    case Running(cfg, line) =>
      if ReadsLines(cfg.state) then
        if c == '\n' then AfterLine(client, cfg, line) else Running(cfg, line + [c])
      else if cfg.state == StData && cfg.size > 0 then AfterData(cfg, [c])
      else m
  }

  function FeedAll(client: Client, m: Machine, s: string): Machine
    decreases |s|
  {
    if s == "" then m else FeedAll(client, Feed(client, m, s[0]), s[1..])
  }

  lemma {:induction false} FeedAllAppend(client: Client, m: Machine, s: string, t: string)
    ensures FeedAll(client, m, s + t) == FeedAll(client, FeedAll(client, m, s), t)
    decreases |s|
  {
    if s == "" {
      assert s + t == t;
    } else {
      assert (s + t)[1..] == s[1..] + t;
      FeedAllAppend(client, Feed(client, m, s[0]), s[1..], t);
    }
  }

  lemma FeedNothing(client: Client, m: Machine, s: string)
    ensures FeedAll(client, m, s[..0]) == m
  {
  }

  lemma {:induction false} FinishedStays(client: Client, m: Machine, s: string)
    requires m.Finished?
    ensures FeedAll(client, m, s) == m
    decreases |s|
  {
    if s != "" {
      FinishedStays(client, m, s[1..]);
    }
  }

  lemma {:induction false} FeedPartialLine(client: Client, cfg: Config, line: string, s: string)
    requires ReadsLines(cfg.state) && '\n' !in s
    ensures FeedAll(client, Running(cfg, line), s) == Running(cfg, line + s)
    decreases |s|
  {
    if s == "" {
      assert line + s == line;
    } else {
      assert line + s == (line + [s[0]]) + s[1..];
      assert Feed(client, Running(cfg, line), s[0]) == Running(cfg, line + [s[0]]);
      FeedPartialLine(client, cfg, line + [s[0]], s[1..]);
    }
  }

  lemma FeedLine(client: Client, cfg: Config, line: string)
    requires ReadsLines(cfg.state) && '\n' !in line
    ensures FeedAll(client, Running(cfg, ""), line + "\n") == AfterLine(client, cfg, line)
  {
    FeedAllAppend(client, Running(cfg, ""), line, "\n");
    FeedPartialLine(client, cfg, "", line);
    assert "" + line == line;
    assert FeedAll(client, Running(cfg, line), "\n") == Feed(client, Running(cfg, line), '\n');
  }

  lemma DeliveredAppend(cfg: Config, data: string, more: string)
    requires cfg.size == SIZE_UNKNOWN || |data| + |more| <= cfg.size
    requires |data| > 0
    ensures var next := Delivered(cfg, data);
            (next.size == SIZE_UNKNOWN || |more| <= next.size)
            && Delivered(next, more) == Delivered(cfg, data + more)
  {
    assert (cfg.body + data) + more == cfg.body + (data + more);
  }

  lemma {:induction false} FeedData(client: Client, cfg: Config, data: string)
    requires cfg.state == StData && cfg.size > 0 && |data| > 0
    requires cfg.size == SIZE_UNKNOWN || |data| <= cfg.size
    ensures FeedAll(client, Running(cfg, ""), data) == AfterData(cfg, data)
    decreases |data|
  {
    var (first, rest) := ([data[0]], data[1..]);
    assert data == first + rest;
    DeliveredAppend(cfg, first, rest);
    assert Feed(client, Running(cfg, ""), data[0]) == AfterData(cfg, first);
    if rest != "" {
      FeedData(client, Delivered(cfg, first), rest);
    }
  }

  /** A line split off the input at its first newline. */
  lemma FeedThroughLine(client: Client, start: Machine, cfg: Config, buffer: string, from: nat, pos: nat)
    requires from <= pos < |buffer| && buffer[pos] == '\n' && '\n' !in buffer[from..pos]
    requires ReadsLines(cfg.state)
    requires FeedAll(client, start, buffer[..from]) == Running(cfg, "")
    ensures FeedAll(client, start, buffer[..pos + 1]) == AfterLine(client, cfg, buffer[from..pos])
  {
    hide FeedAll;
    assert buffer[..pos + 1] == buffer[..from] + (buffer[from..pos] + "\n");
    FeedAllAppend(client, start, buffer[..from], buffer[from..pos] + "\n");
    FeedLine(client, cfg, buffer[from..pos]);
  }

  lemma FeedThroughData(client: Client, start: Machine, cfg: Config, buffer: string, from: nat, to: nat)
    requires from < to <= |buffer|
    requires cfg.state == StData && cfg.size > 0
    requires cfg.size == SIZE_UNKNOWN || to - from <= cfg.size
    requires FeedAll(client, start, buffer[..from]) == Running(cfg, "")
    ensures FeedAll(client, start, buffer[..to]) == AfterData(cfg, buffer[from..to])
  {
    hide FeedAll;
    assert buffer[..to] == buffer[..from] + buffer[from..to];
    FeedAllAppend(client, start, buffer[..from], buffer[from..to]);
    FeedData(client, cfg, buffer[from..to]);
  }

  // ----- What one call of Process may do -----

  /** One call: what it was given, what it answered and what it left. `refused` says
      that the document rejected the body with an error of its own. */
  datatype Call = Call(before: Config, input: string, result: ProcessResult, processed: nat,
                       error: HttpError, refused: bool, after: Config)

  ghost predicate Legal(client: Client, call: Call)
    requires call.before.state != StComplete
  {
    && call.processed <= |call.input|
    && call.after.state != StComplete
    && var m := FeedAll(client, Settle(call.before), call.input[..call.processed]);
       match call.result
       case PrBlock => m == Settle(call.after) && call.error == HeNone
       case PrContinue =>
         // What is left over is an unfinished line, and no transition is pending.
         && m == Settle(call.after) == Running(call.after, "")
         && call.error == HeNone
         && (if ReadsLines(call.after.state) then '\n' !in call.input[call.processed..]
             else call.processed == |call.input|)
       case PrComplete =>
         if call.refused then m == Settle(call.after) && call.error == HeStream
         else m == Finished(call.after, call.error)
  }

  // ----- The parser -----

  /** The next newline, or the end of the buffer. */
  method LineEnd(buffer: string, from: nat) returns (pos: nat)
    requires from <= |buffer|
    ensures from <= pos <= |buffer| && '\n' !in buffer[from..pos]
    ensures pos < |buffer| ==> buffer[pos] == '\n'
  {
    pos := from;
    while pos < |buffer| && buffer[pos] != '\n'
      invariant from <= pos <= |buffer|
      invariant '\n' !in buffer[from..pos]
    {
      pos := pos + 1;
    }
  }

  class HttpParser {
    const client: Client
    const document: Sink?<char>
    ghost const prior: string  // what the document held beforehand
    var ignoreData: bool
    var state: State
    var chunked: bool
    var dataSize: Size
    var events: seq<Event>
    var body: string
    ghost var takeovers: nat   // times that the user took over the body

    ghost function Cfg(): Config
      reads this
    {
      Config(state, chunked, dataSize, ignoreData, events, body)
    }

    /** The document has received the body, in order, and nothing else. */
    ghost predicate Valid()
      reads this, document
    {
      document != null ==> document.contents == prior + body
    }

    constructor (client: Client, document: Sink?<char>)
      ensures this.client == client && this.document == document
      ensures Cfg() == INITIAL && Valid()
    {
      this.client, this.document, ignoreData := client, document, false;
      prior := if document == null then "" else document.contents;
      state, chunked, dataSize, events, body, takeovers := StLeader, false, SIZE_UNKNOWN, [], "", 0;
    }

    /** The parser is in the given configuration and reports the given outcome. */
    ghost predicate Answers(step: (Config, Outcome), result: ProcessResult, error: HttpError)
      reads this
    {
      && Cfg() == step.0
      && (step.1.Go? ==> result != PrComplete && error == HeNone)
      && (step.1.Stop? ==> result == PrComplete && error == step.1.error)
    }

    /** Writes that the document blocked, and those that it failed. */
    ghost function Blocks(): nat
      reads this, document
    {
      if document == null then 0 else document.blocks
    }

    ghost function Failures(): nat
      reads this, document
    {
      if document == null then 0 else document.failures
    }

    /** `ProcessHeader` and the two headers the parser itself understands. */
    method ProcessHeader(name: string, value: string) returns (result: ProcessResult, error: HttpError)
      modifies this
      ensures Answers(AddHeader(old(Cfg()), name, value), result, error) && result != PrBlock
      ensures takeovers == old(takeovers)
    {
      result, error := PrContinue, HeNone;
      if SameText(name, "Content-Length") {
        var (v, end) := StrToUL(value, 10);
        if end == 0 { return PrComplete, HeProtocol; }
        dataSize := v % 0x1_0000_0000;
      } else if SameText(name, "Transfer-Encoding") {
        if SameText(value, "chunked") {
          chunked := true;
        } else if SameText(value, "identity") {
          chunked := false;
        } else {
          return PrComplete, HeProtocol;
        }
      }
      events := events + [Header(name, value)];
    }

    /** A header line, cut at its colon. */
    method ProcessHeaderLine(line: string) returns (result: ProcessResult, error: HttpError)
      modifies this
      ensures Answers(HeaderLine(old(Cfg()), line), result, error) && result != PrBlock
      ensures takeovers == old(takeovers)
    {
      hide AddHeader, Find, SpaceRun;
      var colon := Find(line, ':');
      if colon == |line| { return PrComplete, HeProtocol; }
      var value := colon + 1 + SpaceRun(line[colon + 1..]);
      result, error := ProcessHeader(line[..colon], line[value..]);
    }

    method ProcessHeaderComplete() returns (result: ProcessResult, error: HttpError)
      modifies this
      ensures Answers(EndOfHeaders(client, old(Cfg())), result, error)
      ensures result == PrBlock <==>
                error == HeNone && client.headersDone(old(events), old(chunked), old(dataSize)).takesOver
      ensures takeovers == old(takeovers) + (if result == PrBlock then 1 else 0)
    {
      state := if chunked then StChunkSize else StData;
      var answer := client.headersDone(events, chunked, dataSize);
      events := events + [HeaderComplete(chunked, dataSize)];
      dataSize, ignoreData, error := answer.size, answer.ignore, answer.error;
      // A change to stream mode interrupts the loop.
      result := if error != HeNone then PrComplete else if answer.takesOver then PrBlock else PrContinue;
      if result == PrBlock { takeovers := takeovers + 1; }
    }

    method ProcessLine(line: string) returns (result: ProcessResult, error: HttpError)
      requires ReadsLines(state)
      modifies this
      ensures Answers(LineStep(client, old(Cfg()), line), result, error)
      ensures takeovers == old(takeovers) + (if result == PrBlock then 1 else 0)
    {
      result, error := PrContinue, HeNone;
      match state {
        case StLeader =>
          state := StHeaders;
          events := events + [Leader(line)];
          error := client.leader(line);
          result := if error == HeNone then PrContinue else PrComplete;
        case StHeaders =>
          if |line| > 0 {
            result, error := ProcessHeaderLine(line);
          } else {
            result, error := ProcessHeaderComplete();
          }
        case StChunkSize =>
          if |line| == 0 { return PrComplete, HeProtocol; }
          var (v, end) := StrToUL(line, 16);
          dataSize := v;
          if end != |line| { return PrComplete, HeProtocol; }
          state := if v == 0 then StTrailers else StData;
        case StChunkTerm =>
          if |line| > 0 { return PrComplete, HeProtocol; }
          state := if chunked then StChunkSize else StData;
        case StTrailers =>
          if |line| == 0 { result := PrComplete; }
        case StData =>
        case StComplete =>
      }
    }

    /** Hands body bytes to the document, which may take only some of them. */
    method ProcessData(data: string) returns (result: ProcessResult, read: nat, error: HttpError)
      requires Valid() && |data| > 0 && (dataSize == SIZE_UNKNOWN || |data| <= dataSize)
      modifies this`body, document
      ensures result == PrContinue ==> 0 < read <= |data| && error == HeNone
      ensures result != PrContinue ==> read == 0
      ensures result == PrBlock ==> error == HeNone && document != null
      ensures Blocks() == old(Blocks()) + (if result == PrBlock then 1 else 0)
      ensures Failures() == old(Failures()) + (if result == PrComplete then 1 else 0)
      ensures result == PrComplete ==> error == HeStream && document != null
      ensures Valid() && body == old(body) + (if ignoreData then "" else data[..read])
    {
      result, read, error := PrContinue, 0, HeNone;
      if ignoreData || document == null {
        read := |data|;
      } else {
        var r := document.Write(data);
        match r {
          case Accepted(n) => read := n;
          case WriteBlocked => result := PrBlock;
          case WriteEos => result, error := PrComplete, HeStream;
          case WriteFailed(_) => result, error := PrComplete, HeStream;
        }
      }
      if !ignoreData { body := body + data[..read]; }
    }

    /** The line that ends at `pos`, cut from the buffer and processed. */
    method TakeLine(ghost start: Machine, buffer: string, from: nat, pos: nat)
      returns (result: ProcessResult, error: HttpError)
      requires from <= pos < |buffer| && buffer[pos] == '\n' && '\n' !in buffer[from..pos]
      requires ReadsLines(state) && FeedAll(client, start, buffer[..from]) == Settle(Cfg())
      requires Valid()
      modifies this
      ensures Valid() && state != StComplete
      ensures takeovers == old(takeovers) + (if result == PrBlock then 1 else 0)
      ensures Blocks() == old(Blocks()) && Failures() == old(Failures())
      ensures result != PrComplete ==>
                error == HeNone && FeedAll(client, start, buffer[..pos + 1]) == Settle(Cfg())
      ensures result == PrComplete ==>
                FeedAll(client, start, buffer[..pos + 1]) == Finished(Cfg(), error)
    {
      hide FeedAll, TrimEnd, LineStep;
      LineStepKeeps(client, Cfg(), TrimEnd(buffer[from..pos]));
      FeedThroughLine(client, start, Cfg(), buffer, from, pos);
      result, error := ProcessLine(TrimEnd(buffer[from..pos]));
    }

    /** Offers the document what is available of the current body or chunk. */
    method TakeData(ghost start: Machine, buffer: string, from: nat)
      returns (result: ProcessResult, read: nat, error: HttpError)
      requires from < |buffer| && state == StData && dataSize != 0
      requires FeedAll(client, start, buffer[..from]) == Settle(Cfg())
      requires Valid()
      modifies this`body, this`dataSize, document
      ensures from + read <= |buffer| && (result == PrContinue ==> read > 0)
      ensures FeedAll(client, start, buffer[..from + read]) == Settle(Cfg())
      ensures error == if result == PrComplete then HeStream else HeNone
      ensures result != PrContinue ==> document != null
      ensures Blocks() == old(Blocks()) + (if result == PrBlock then 1 else 0)
      ensures Failures() == old(Failures()) + (if result == PrComplete then 1 else 0)
      ensures Valid()
    {
      hide FeedAll;
      ghost var cfg := Cfg();
      var available := |buffer| - from;
      if dataSize != SIZE_UNKNOWN && available > dataSize { available := dataSize; }
      result, read, error := ProcessData(buffer[from..from + available]);
      assert buffer[from..from + available][..read] == buffer[from..from + read];
      if result == PrContinue {
        FeedThroughData(client, start, cfg, buffer, from, from + read);
        if dataSize != SIZE_UNKNOWN { dataSize := dataSize - read; }
      }
    }

    /** All of a chunk has been delivered. */
    method EndChunk()
      requires Valid() && state == StData && dataSize == 0 && chunked
      modifies this`state
      ensures Valid() && state == StChunkTerm && Settle(Cfg()) == old(Settle(Cfg()))
      ensures Blocks() == old(Blocks()) && Failures() == old(Failures())
    {
      state := StChunkTerm;
    }

    method Process(buffer: string)
      returns (result: ProcessResult, processed: nat, error: HttpError, ghost refused: bool)
      requires Valid()
      modifies this, document
      ensures Valid()
      ensures old(state) == StComplete ==>
                result == PrComplete && processed == 0 && error == HeNone && Cfg() == old(Cfg())
      ensures old(state) != StComplete ==>
                Legal(client, Call(old(Cfg()), buffer, result, processed, error, refused, Cfg()))
      // It stops halfway exactly if the document blocked or the user took over the body, and because
      // of the document exactly if that failed.
      ensures Blocks() + takeovers == old(Blocks() + takeovers) + (if result == PrBlock then 1 else 0)
      ensures Failures() == old(Failures()) + (if refused then 1 else 0) && (refused ==> result == PrComplete)
    {
      hide FeedAll, Valid, Settle, Blocks, Failures;
      processed, error, refused := 0, HeNone, false;
      if state == StComplete { return PrComplete, 0, HeNone, false; }
      ghost var start := Settle(Cfg());
      FeedNothing(client, start, buffer);
      while true
        invariant processed <= |buffer| && error == HeNone && !refused
        invariant Valid() && state != StComplete
        invariant Blocks() == old(Blocks()) && takeovers == old(takeovers) && Failures() == old(Failures())
        invariant FeedAll(client, start, buffer[..processed]) == Settle(Cfg())
        decreases |buffer| - processed, if state == StData then 1 else 0
      {
        SettledIs(Cfg());
        if ReadsLines(state) {
          var pos := LineEnd(buffer, processed);
          if pos >= |buffer| { break; }
          var from := processed;
          processed := pos + 1;
          result, error := TakeLine(start, buffer, from, pos);
          if result != PrContinue { return; }
        } else if dataSize == 0 {
          if !chunked { return PrComplete, processed, HeNone, false; }
          EndChunk();
        } else {
          if processed == |buffer| { break; }
          var read;
          result, read, error := TakeData(start, buffer, processed);
          processed := processed + read;
          refused := result == PrComplete;
          if result != PrContinue { return; }
        }
      }
      result := PrContinue;
    }

    predicate IsValidEndOfInput()
      reads this
    {
      ValidEnd(state, dataSize)
    }
  }
}
