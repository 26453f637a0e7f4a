/** The mode machine of HttpBase (src/talk/base/httpbase.cc): which operation is under way,
    and what is reported about it. How far a flush or a receive gets is a parameter here;
    HttpSending and HttpReceiving say what it may be. */
module HttpModes {
  import opened HttpText
  import opened HttpParsing
  import opened HttpSending

  /** `SE_OPEN`, `SE_READ`, `SE_WRITE` and `SE_CLOSE`, which may be combined. */
  datatype StreamEvents = StreamEvents(open: bool, read: bool, write: bool, close: bool)

  /** An operation that HttpBase takes on, and what it tells IHttpNotify. */
  datatype Note =
    | Begun(mode: Mode)
    | Completed(mode: Mode, error: HttpError)  // onHttpComplete
    | ClosedIdle(error: HttpError)             // onHttpClosed

  /** What a turn of DoReceiveLoop comes to: whether the receive is over and with what error,
      where it leaves the parser, and whether the user asked for the document stream. */
  datatype Turn = Turn(complete: bool, error: HttpError, state: State, size: Size, asked: bool)

  // ----- The promise -----

  datatype Track = Idle | Busy(mode: Mode) | Bad

  function After(t: Track, note: Note): Track {
    match note
    case Begun(m) => if t.Idle? && m != HmNone then Busy(m) else Bad
    case Completed(m, _) => if t == Busy(m) then Idle else Bad
    case ClosedIdle(_) => if t.Idle? then Idle else Bad
  }

  function TrackOf(log: seq<Note>): Track {
    if log == [] then Idle else After(TrackOf(log[..|log| - 1]), log[|log| - 1])
  }

  /** Whatever is taken on is completed next, once, under its own mode; nothing else is
      completed; and a closed stream is reported only when nothing is under way. */
  ghost predicate OnePerOperation(log: seq<Note>) {
    forall i :: 0 <= i < |log| ==> InPlace(log, i)
  }

  /** One report is added: the completion of what was under way, or else a closed stream. */
  ghost predicate AddsOne(before: seq<Note>, mode: Mode, after: seq<Note>) {
    exists e :: after == before + [if mode == HmNone then ClosedIdle(e) else Completed(mode, e)]
  }

  predicate InPlace(log: seq<Note>, i: nat)
    requires i < |log|
  {
    match log[i]
    case Begun(m) => i + 1 == |log| || (log[i + 1].Completed? && log[i + 1].mode == m)
    case Completed(m, _) => i > 0 && log[i - 1] == Begun(m)
    case ClosedIdle(_) => i == 0 || !log[i - 1].Begun?
  }

  lemma {:induction false} TrackedIsOnePerOperation(log: seq<Note>)
    requires TrackOf(log) != Bad
    ensures OnePerOperation(log)
    ensures TrackOf(log).Busy? <==> |log| > 0 && log[|log| - 1].Begun?
    ensures TrackOf(log).Busy? ==> log[|log| - 1] == Begun(TrackOf(log).mode)
  {
    if log != [] {
      var first := log[..|log| - 1];
      TrackedIsOnePerOperation(first);
      forall i | 0 <= i < |log| ensures InPlace(log, i) {
        if i < |first| { assert InPlace(first, i); }
      }
    }
  }

  // ----- The machine -----

  /** The value of HE_DISCONNECTED, which `send` and `recv` pass as if it were a stream error. */
  const DISCONNECTED_CODE: int := 2

  /** Whether a close among the events gets through: each of the other three events comes first
      in the mode that waits for it, and then the close is not looked at. */
  predicate SeesClose(mode: Mode, events: StreamEvents) {
    && events.close
    && !(events.open && mode == HmConnect)
    && !(events.write && mode == HmSend)
    && !(events.read && mode == HmRecv)
  }

  /** What is reported about a flush, given what HttpSending.Sender.FlushData comes to. */
  function NotesOfFlush(r: FlushResult): seq<Note> {
    match r
    case Complete(error) => [Completed(HmSend, error)]
    case Broken(code) => [Completed(HmSend, CloseError(HmSend, false, code))]
    case Pending => []
    case Spinning => []
  }

  function NotesOfTurn(turn: Turn): seq<Note> {
    if turn.complete then [Completed(HmRecv, turn.error)] else []
  }

  /** Everything about an HttpBase but what it has reported; `signals` are the events that the user of
      its document stream was told. */
  datatype Standing = Standing(mode: Mode, parserState: State, dataSize: Size, attached: bool, streamMode: bool,
                               signals: seq<StreamEvents>)

  /** Nothing is under way any more, and the user of a document stream who still waits is told. */
  function Ended(s: Standing): Standing {
    if s.mode == HmRecv && s.streamMode then
      s.(mode := HmNone, streamMode := false, signals := s.signals + [StreamEvents(false, false, false, true)])
    else s.(mode := HmNone)
  }

  /** After the stream has closed. */
  function Closed(s: Standing): Standing {
    Ended(if s.mode == HmRecv then s.(parserState := StComplete) else s)
  }

  function Flushed(s: Standing, r: FlushResult): Standing {
    if r.Complete? || r.Broken? then Ended(s) else s
  }

  /** After a turn of the receive loop; one that the user of the document stream asked for tells that
      user by its result how it ended. */
  function Turned(s: Standing, turn: Turn, fromDocumentStream: bool): Standing {
    var t := s.(parserState := turn.state, dataSize := turn.size, streamMode := s.streamMode || turn.asked);
    if turn.complete then
      Ended(t.(parserState := StComplete, streamMode := t.streamMode && !fromDocumentStream))
    else t
  }

  class HttpBase {
    var mode: Mode
    var parserState: State
    var dataSize: Size
    var attached: bool       // http_stream_ is set
    var streamMode: bool     // doc_stream_ is set
    var signals: seq<StreamEvents>
    var log: seq<Note>

    ghost function Now(): Standing
      reads this
    {
      Standing(mode, parserState, dataSize, attached, streamMode, signals)
    }

    /** While receiving, the parser has not completed: a completion is never swallowed. */
    ghost predicate Valid()
      reads this
    {
      && TrackOf(log) == (if mode == HmNone then Idle else Busy(mode))
      && (mode == HmRecv ==> parserState != StComplete)
    }

    /** The error of a stream that closes now. */
    function ErrorOfClose(code: int): HttpError
      reads this
    {
      CloseError(mode, ValidEnd(parserState, dataSize), code)
    }

    /** What is reported about a stream that closes now. */
    function NoteOfClose(code: int): Note
      reads this
    {
      if mode == HmNone then ClosedIdle(ErrorOfClose(code)) else Completed(mode, ErrorOfClose(code))
    }

    constructor ()
      ensures Valid() && Now() == Standing(HmNone, StLeader, SIZE_UNKNOWN, false, false, []) && log == []
    {
      mode, parserState, dataSize, attached, streamMode := HmNone, StLeader, SIZE_UNKNOWN, false, false;
      signals, log := [], [];
    }

    method Record(note: Note)
      modifies this`log
      ensures log == old(log) + [note] && TrackOf(log) == After(TrackOf(old(log)), note)
    {
      log := log + [note];
      assert log[..|log| - 1] == old(log);
    }

    method Attach(opening: bool) returns (ok: bool)
      requires Valid()
      modifies this
      ensures Valid()
      ensures ok == (old(mode) == HmNone && !old(attached))
      ensures log == old(log) + (if ok && opening then [Begun(HmConnect)] else [])
      ensures Now() == if ok then old(Now()).(attached := true, mode := if opening then HmConnect else HmNone)
                       else old(Now())
    {
      hide TrackOf;
      if mode != HmNone || attached { return false; }
      attached := true;
      if opening {
        mode := HmConnect;
        Record(Begun(HmConnect));
      }
      return true;
    }

    method Detach() returns (ok: bool)
      requires Valid()
      modifies this`attached
      ensures Valid() && ok == (mode == HmNone) && attached == (old(attached) && !ok)
    {
      if mode != HmNone { return false; }
      attached := false;
      return true;
    }

    method DoComplete(error: HttpError)
      requires mode != HmNone && TrackOf(log) == Busy(mode)
      modifies this`mode, this`streamMode, this`signals, this`log
      ensures Valid() && log == old(log) + [Completed(old(mode), error)]
      ensures Now() == Ended(old(Now()))
    {
      var was := mode;
      mode := HmNone;
      if was == HmRecv && streamMode {
        streamMode := false;
        signals := signals + [StreamEvents(false, false, false, true)];
      }
      Record(Completed(was, error));
    }

    /** HttpParser::complete: reports only if the parser had not completed already. */
    method ParserComplete(error: HttpError)
      requires Valid() && mode == HmRecv
      modifies this
      ensures Valid() && mode == HmNone && log == old(log) + [Completed(HmRecv, error)]
      ensures Now() == Closed(old(Now()))
    {
      if parserState != StComplete {
        parserState := StComplete;
        Parsed(error);
      }
    }

    /** OnComplete, called with the parser already marked complete. */
    method Parsed(error: HttpError)
      requires mode == HmRecv && TrackOf(log) == Busy(HmRecv)
      modifies this
      ensures Valid() && mode == HmNone && log == old(log) + [Completed(HmRecv, error)]
      ensures Now() == Ended(old(Now()))
    {
      DoComplete(error);
    }

    /** What flush_data leads to. */
    method FlushData(r: FlushResult)
      requires Valid() && mode == HmSend
      modifies this
      ensures Valid() && (mode == HmSend <==> r.Pending? || r.Spinning?)
      ensures log == old(log) + NotesOfFlush(r) && Now() == Flushed(old(Now()), r)
    {
      match r {
        case Complete(error) => DoComplete(error);
        case Broken(code) => StreamClosed(code);
        case Pending =>
        case Spinning =>
      }
    }

    /** What read_and_process_data, or reading the document stream, leads to. */
    method ReadAndProcess(turn: Turn, fromDocumentStream: bool)
      requires Valid() && mode == HmRecv && turn.state != StComplete
      modifies this
      ensures Valid() && mode == if turn.complete then HmNone else HmRecv
      ensures log == old(log) + NotesOfTurn(turn) && Now() == Turned(old(Now()), turn, fromDocumentStream)
    {
      parserState, dataSize := turn.state, turn.size;
      streamMode := streamMode || turn.asked;
      if turn.complete {
        if fromDocumentStream { streamMode := false; }
        ParserComplete(turn.error);
      }
    }

    method Send(connected: bool, r: FlushResult)
      requires Valid()
      modifies this
      ensures Valid()
      ensures old(mode) != HmNone ==> log == old(log)
      ensures old(mode) == HmNone && connected ==> log == old(log) + [Begun(HmSend)] + NotesOfFlush(r)
      ensures Now() == if old(mode) == HmNone && connected then Flushed(old(Now()).(mode := HmSend), r) else old(Now())
      ensures old(mode) == HmNone && !connected ==> log == old(log) + [ClosedIdle(HeSocketError)]
    {
      hide TrackOf;
      if mode != HmNone { return; }
      if !connected { StreamClosed(DISCONNECTED_CODE); return; }
      hide CloseError, NotesOfFlush, NotesOfTurn;
      mode := HmSend;
      Record(Begun(HmSend));
      FlushData(r);
    }

    method Recv(connected: bool, turn: Turn)
      requires Valid() && turn.state != StComplete
      modifies this
      ensures Valid()
      ensures old(mode) != HmNone ==> log == old(log)
      ensures old(mode) == HmNone && connected ==>
                if old(streamMode) then log == old(log) + [Begun(HmRecv)]
                else log == old(log) + [Begun(HmRecv)] + NotesOfTurn(turn)
      ensures old(mode) == HmNone && connected && !turn.complete ==> mode == HmRecv
      ensures var begun := old(Now()).(mode := HmRecv, parserState := StLeader, dataSize := SIZE_UNKNOWN);
              Now() == if old(mode) != HmNone || !connected then old(Now())
                       else if !old(streamMode) then Turned(begun, turn, false)
                       else begun.(signals := old(signals) + [StreamEvents(true, true, false, false)])
      ensures old(mode) == HmNone && !connected ==> log == old(log) + [ClosedIdle(HeSocketError)]
    {
      hide TrackOf;
      if mode != HmNone { return; }
      if !connected { StreamClosed(DISCONNECTED_CODE); return; }
      hide CloseError, NotesOfFlush, NotesOfTurn;
      mode, parserState, dataSize := HmRecv, StLeader, SIZE_UNKNOWN;
      Record(Begun(HmRecv));
      if streamMode {
        signals := signals + [StreamEvents(true, true, false, false)];
      } else {
        ReadAndProcess(turn, false);
      }
    }

    method Abort(error: HttpError)
      requires Valid()
      modifies this
      ensures Valid() && mode == HmNone
      ensures log == old(log) + (if old(mode) == HmNone then [] else [Completed(old(mode), error)])
      ensures Now() == Ended(old(Now()))
    {
      if mode != HmNone { DoComplete(error); }
    }

    /** The end of OnHttpStreamEvent: a stream that closes always ends what is under way. */
    method StreamClosed(code: int)
      requires Valid()
      modifies this
      ensures Valid() && mode == HmNone && log == old(log) + [old(NoteOfClose(code))]
      ensures Now() == Closed(old(Now()))
    {
      var error := ErrorOfClose(code);
      if mode == HmRecv {
        ParserComplete(error);
      } else if mode != HmNone {
        DoComplete(error);
      } else {
        Record(ClosedIdle(error));
      }
    }

    /** Any combination of events adds at most one report. A close ends what is under way exactly
        when it gets through. */
    method OnHttpStreamEvent(events: StreamEvents, code: int, r: FlushResult, turn: Turn)
      requires Valid() && turn.state != StComplete
      modifies this
      ensures Valid() && (log == old(log) || AddsOne(old(log), old(mode), log))
      ensures SeesClose(old(mode), events) ==> mode == HmNone && log == old(log) + [old(NoteOfClose(code))]
      // Otherwise only what was waited for has an effect, whatever happens to the stream.
      ensures !SeesClose(old(mode), events) ==>
                log == old(log) + if events.open && old(mode) == HmConnect then [Completed(HmConnect, HeNone)]
                                  else if events.write && old(mode) == HmSend then NotesOfFlush(r)
                                  else if events.read && old(mode) == HmRecv && !old(streamMode) then NotesOfTurn(turn)
                                  else []
      ensures log == old(log) ==> mode == old(mode)
      ensures Now() == if SeesClose(old(mode), events) then Closed(old(Now()))
                       else if events.open && old(mode) == HmConnect then Ended(old(Now()))
                       else if events.write && old(mode) == HmSend then Flushed(old(Now()), r)
                       else if !(events.read && old(mode) == HmRecv) then old(Now())
                       else if !old(streamMode) then Turned(old(Now()), turn, false)
                       else old(Now()).(signals := old(signals) + [StreamEvents(false, true, false, false)])
    {
      if events.open && mode == HmConnect { DoComplete(HeNone); return; }
      if events.write && mode == HmSend { FlushData(r); return; }
      if events.read && mode == HmRecv {
        if streamMode {
          signals := signals + [StreamEvents(false, true, false, false)];
        } else {
          ReadAndProcess(turn, false);
        }
        return;
      }
      if !events.close { return; }
      StreamClosed(code);
    }

    /** Document events are connected only while sending or receiving. */
    method OnDocumentEvent(events: StreamEvents, r: FlushResult, turn: Turn)
      requires Valid() && (mode == HmSend || mode == HmRecv) && turn.state != StComplete
      modifies this
      ensures Valid() && (log == old(log) || AddsOne(old(log), old(mode), log))
      ensures events.close && !(events.write && old(mode) == HmRecv) && !(events.read && old(mode) == HmSend) ==>
                log == old(log) + [Completed(old(mode), HeStream)] && Now() == Ended(old(Now()))
      ensures events.write && old(mode) == HmRecv ==>
                log == old(log) + NotesOfTurn(turn) && Now() == Turned(old(Now()), turn, false)
      ensures events.read && old(mode) == HmSend ==>
                log == old(log) + NotesOfFlush(r) && Now() == Flushed(old(Now()), r)
      ensures !events.close && !(events.write && old(mode) == HmRecv) && !(events.read && old(mode) == HmSend) ==>
                log == old(log) && Now() == old(Now())
    {
      if events.write && mode == HmRecv { ReadAndProcess(turn, false); return; }
      if events.read && mode == HmSend { FlushData(r); return; }
      if events.close { DoComplete(HeStream); }
    }

    method GetDocumentStream() returns (ok: bool)
      requires Valid()
      modifies this`streamMode
      ensures Valid() && streamMode && ok == !old(streamMode)
    {
      ok := !streamMode;
      streamMode := true;
    }

    /** DocumentStream::Read. */
    method ReadDocumentStream(turn: Turn)
      requires Valid() && turn.state != StComplete
      modifies this
      ensures Valid()
      ensures log == old(log) + (if old(streamMode) && old(mode) == HmRecv then NotesOfTurn(turn) else [])
      ensures Now() == if old(streamMode) && old(mode) == HmRecv then Turned(old(Now()), turn, true) else old(Now())
    {
      if streamMode && mode == HmRecv { ReadAndProcess(turn, true); }
    }

    /** DocumentStream::Close. `restart` says that a read event is posted, since the receive may
        have waited for the user of the document stream. */
    method CloseDocumentStream() returns (restart: bool)
      requires Valid()
      modifies this`streamMode
      ensures Valid() && !streamMode && restart == (old(streamMode) && mode == HmRecv && attached)
    {
      if !streamMode { return false; }
      streamMode := false;
      return mode == HmRecv && attached;
    }
  }

  /** While receiving, a close that comes together with a read event is dropped: the receive goes
      on, and only a later event can end it. */
  method CloseCanBeDropped(code: int, turn: Turn) returns (base: HttpBase)
    requires turn.state != StComplete && !turn.complete
    ensures base.Valid() && base.mode == HmRecv && base.log == [Begun(HmRecv)]
  {
    base := new HttpBase();
    base.Recv(true, turn);
    base.OnHttpStreamEvent(StreamEvents(false, true, false, true), code, Pending, turn);
  }

  /** Any run of any length over all operations and events, with any outcome of each. */
  method AnyRun(steps: nat) returns (log: seq<Note>)
    ensures OnePerOperation(log)
  {
    var base := new HttpBase();
    for i := 0 to steps
      invariant base.Valid() && fresh(base)
    {
      var pick: int, flag: bool, code: int, error: HttpError, events: StreamEvents := *, *, *, *, *;
      var r: FlushResult, turn: Turn := *, *;
      if turn.state == StComplete { turn := turn.(state := StData); }
      match pick {
        case 0 => var _ := base.Attach(flag);
        case 1 => var _ := base.Detach();
        case 2 => base.Send(flag, r);
        case 3 => base.Recv(flag, turn);
        case 4 => base.Abort(error);
        case 5 => base.OnHttpStreamEvent(events, code, r, turn);
        case 6 => if base.mode == HmSend || base.mode == HmRecv { base.OnDocumentEvent(events, r, turn); }
        case 7 => var _ := base.GetDocumentStream();
        case 8 => base.ReadDocumentStream(turn);
        case _ => var _ := base.CloseDocumentStream();
      }
    }
    log := base.log;
    TrackedIsOnePerOperation(log);
  }
}
