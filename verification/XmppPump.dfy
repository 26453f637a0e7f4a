/** The file transfer of src/main/customxmpppump.cc: a sending pump, a tunnel that keeps
    the order of its bytes, and a receiving pump, each run by events and suspended whenever
    the tunnel blocks. */
module XmppPump {
  import opened Common
  import opened Buffers
  import opened Streams

  const PUMP_BUFFER: nat := 1024 * 64

  /** What the tunnel answers to a read: a number of bytes, or nothing for one of three reasons.
      More than has been sent or asked for is as good as nothing yet. */
  datatype Answer = Give(n: nat) | Block | End | Fail(code: int)

  /** Whether an answer brings something to a pump with an empty buffer. */
  predicate Gives(answer: Answer, taken: nat, sent: nat) {
    answer.Give? && 0 < answer.n <= PUMP_BUFFER && taken + answer.n <= sent
  }

  /** The receiving end of the P2P tunnel: how much has been read of what has been written to it.
      It may block, end or fail at any time. */
  class TunnelEnd {
    const sent: Sink<byte>
    var taken: nat
    ghost var blocks: nat   // reads that gave nothing yet
    ghost var losses: nat   // reads that met the end of the tunnel or an error

    ghost predicate Valid()
      reads this, sent
    {
      taken <= |sent.contents|
    }

    constructor (sent: Sink<byte>)
      ensures Valid() && this.sent == sent && taken == 0 && blocks == losses == 0
    {
      this.sent, taken, blocks, losses := sent, 0, 0, 0;
    }

    method Read(max: nat, answer: Answer) returns (r: ReadResult<byte>)
      requires Valid() && max > 0
      modifies this
      ensures Valid()
      ensures r.Got? <==> answer.Give? && 0 < answer.n <= max && old(taken) + answer.n <= |sent.contents|
      ensures r.Got? ==> taken == old(taken) + answer.n && r.data == sent.contents[old(taken)..taken]
      ensures !r.Got? ==> taken == old(taken)
      ensures !r.Got? ==> r == match answer
                              case End => ReadEos
                              case Fail(code) => ReadFailed(code)
                              case _ => ReadBlocked
      ensures blocks == old(blocks) + (if r.ReadBlocked? then 1 else 0)
      ensures losses == old(losses) + (if answer.End? || answer.Fail? then 1 else 0)
    {
      match answer {
        case Give(n) =>
          if 0 < n <= max && taken + n <= |sent.contents| {
            r := Got(sent.contents[taken..taken + n]);
            taken := taken + n;
          } else {
            r := ReadBlocked;
            blocks := blocks + 1;
          }
        case Block =>
          r := ReadBlocked;
          blocks := blocks + 1;
        case End =>
          r := ReadEos;
          losses := losses + 1;
        case Fail(code) =>
          r := ReadFailed(code);
          losses := losses + 1;
      }
    }
  }

  /** A text that has grown still begins as it did, and is still a prefix of the whole. */
  datatype Exit =
    | Suspended    // the tunnel blocked; the next event goes on
    | EndOfFile    // "End of file": everything has been handed to the tunnel
    | TunnelLost   // the tunnel ended or failed
    | FileLost     // the file blocked or failed

  // ----- Sending -----

  class SendingPump {
    const tunnel: Sink<byte>   // where the tunnel takes what is written
    const file: Stored<byte>
    const buffer: Buffer<byte>
    var open: bool             // file_ is set

    ghost predicate Sound()
      reads this, tunnel, file, buffer
    {
      && buffer.Valid() && buffer.data.Length == PUMP_BUFFER
      && file.position <= |file.contents|
      && tunnel.contents <= file.contents
    }

    /** The file as far as it has been read is what the tunnel has taken, then the rest. */
    ghost predicate Holds(rest: seq<byte>)
      reads tunnel, file
      requires file.position <= |file.contents|
    {
      tunnel.contents + rest == file.contents[..file.position]
    }

    ghost predicate Valid()
      reads this, tunnel, file, buffer, buffer.data
    {
      Sound() && (open ==> Holds(buffer.Text()))
    }

    constructor (tunnel: Sink<byte>, contents: seq<byte>)
      requires tunnel.contents == []
      ensures Valid() && open && this.tunnel == tunnel && file.contents == contents
      ensures fresh(file) && fresh(buffer) && fresh(buffer.data) && buffer.data.Length == 65536
    {
      this.tunnel := tunnel;
      file := new Stored<byte>(contents);
      buffer := new Buffer<byte>(PUMP_BUFFER);
      open := true;
    }

    /** Writes the buffer to the tunnel, keeping what it could not write if it blocks. */
    method WriteTunnel() returns (exit: Exit, more: bool)
      requires Valid() && open
      modifies this`open, tunnel, buffer, buffer.data
      ensures Valid() && old(tunnel.contents) <= tunnel.contents
      ensures more ==> open && buffer.len == 0
      ensures !more ==> exit == (if open then Suspended else TunnelLost)
      // It stops exactly at the first write that blocks or fails.
      ensures tunnel.blocks == old(tunnel.blocks) + (if !more && open then 1 else 0)
      ensures tunnel.failures == old(tunnel.failures) + (if open then 0 else 1)
    {
      exit, more := Suspended, true;
      var data := buffer.Contents();
      var writePos := 0;
      while writePos < |data|
        invariant writePos <= |data| && Sound() && open && data == buffer.Text()
        invariant Holds(data[writePos..])
        invariant old(tunnel.contents) <= tunnel.contents
        invariant tunnel.blocks == old(tunnel.blocks) && tunnel.failures == old(tunnel.failures)
      {
        var r := tunnel.Write(data[writePos..]);
        match r {
          case Accepted(n) =>
            assert data[writePos..][n..] == data[writePos + n..];
            writePos := writePos + n;
          case WriteBlocked =>
            buffer.Drop(writePos);
            return Suspended, false;
          case WriteEos => open := false; return TunnelLost, false;
          case WriteFailed(_) => open := false; return TunnelLost, false;
        }
      }
      buffer.Shrink(0);
    }

    /** Fills the buffer from the file. */
    method ReadFile() returns (exit: Exit, more: bool)
      requires Valid() && open && buffer.len == 0
      modifies this`open, file, buffer, buffer.data
      ensures Valid() && old(file.position) <= file.position
      ensures more ==> open && file.position > old(file.position)
      ensures !more ==> !open && (exit == FileLost || exit == EndOfFile)
      // The file is lost exactly if a read of it blocked or failed; the buffer is filled up, unless
      // the file ends before that.
      ensures file.blocks + file.failures ==
                old(file.blocks + file.failures) + (if !more && exit == FileLost then 1 else 0)
      ensures file.ends == old(file.ends) + (if (more && buffer.len < PUMP_BUFFER) || (!more && exit == EndOfFile)
                                             then 1 else 0)
      ensures !more && exit == EndOfFile ==> tunnel.contents == file.contents
    {
      exit, more := FileLost, true;
      while buffer.len < PUMP_BUFFER
        invariant Valid() && open && old(file.position) <= file.position && more
        invariant file.blocks == old(file.blocks) && file.failures == old(file.failures) && file.ends == old(file.ends)
        invariant if buffer.len == 0 then file.position == old(file.position) else file.position > old(file.position)
        decreases |file.contents| - file.position
      {
        var r := file.Read(PUMP_BUFFER - buffer.len);
        match r {
          case Got(data) =>
            buffer.Append(data);
          case ReadEos =>
            if buffer.len > 0 { break; }
            assert file.contents[..file.position] == file.contents;
            open := false;
            return EndOfFile, false;
          case ReadBlocked => open := false; return FileLost, false;
          case ReadFailed(_) => open := false; return FileLost, false;
        }
      }
    }

    /** A writable tunnel: pumps until it blocks, the file ends or something is lost. */
    method OnWritable() returns (exit: Exit)
      requires Valid() && open
      modifies this`open, tunnel, file, buffer, buffer.data
      ensures Valid() && old(tunnel.contents) <= tunnel.contents
      ensures open <==> exit == Suspended
      ensures exit == EndOfFile ==> tunnel.contents == file.contents
      // Each exit has its own cause: a write to the tunnel that blocked or failed, a read of the file
      // that blocked or failed, or else the end of the file.
      ensures tunnel.blocks == old(tunnel.blocks) + (if exit == Suspended then 1 else 0)
      ensures tunnel.failures == old(tunnel.failures) + (if exit == TunnelLost then 1 else 0)
      ensures file.blocks + file.failures == old(file.blocks + file.failures) + (if exit == FileLost then 1 else 0)
    {
      while true
        invariant Valid() && open
        invariant old(tunnel.contents) <= tunnel.contents
        invariant tunnel.blocks == old(tunnel.blocks) && tunnel.failures == old(tunnel.failures)
        invariant file.blocks + file.failures == old(file.blocks + file.failures)
        decreases |file.contents| - file.position
      {
        var more;
        exit, more := WriteTunnel();
        if !more { return; }
        exit, more := ReadFile();
        if !more { return; }
      }
    }

    /** SE_CLOSE: Cleanup. */
    method OnClose()
      requires Valid()
      modifies this`open
      ensures Valid() && !open
    {
      open := false;
    }
  }

  // ----- Receiving -----

  class ReceivingPump {
    const tunnel: TunnelEnd
    const file: Sink<byte>
    const buffer: Buffer<byte>
    var open: bool

    ghost predicate Sound()
      reads this, tunnel, tunnel.sent, file, buffer
    {
      && tunnel.Valid() && buffer.Valid() && buffer.data.Length == PUMP_BUFFER
      && file != tunnel.sent && file.contents <= tunnel.sent.contents
    }

    /** What has been read from the tunnel is what the file has stored, then the rest. */
    ghost predicate Holds(rest: seq<byte>)
      reads tunnel, tunnel.sent, file
      requires tunnel.Valid()
    {
      file.contents + rest == tunnel.sent.contents[..tunnel.taken]
    }

    /** Between events nothing is in flight: every byte read has been stored. */
    ghost predicate Valid()
      reads this, tunnel, tunnel.sent, file, buffer
    {
      Sound() && (open ==> Holds([]))
    }

    constructor (tunnel: TunnelEnd)
      requires tunnel.Valid() && tunnel.taken == 0
      ensures Valid() && open && this.tunnel == tunnel && file.contents == []
      ensures fresh(file) && fresh(buffer) && fresh(buffer.data) && buffer.data.Length == 65536
    {
      this.tunnel := tunnel;
      file := new Sink<byte>();
      buffer := new Buffer<byte>(PUMP_BUFFER);
      open := true;
    }

    /** The tunnel gives one byte and then ends. */
    ghost predicate GivesOneAndEnds(answers: nat -> Answer)
      reads this, tunnel, tunnel.sent
    {
      answers(0) == Give(1) && answers(1) == End && tunnel.taken < |tunnel.sent.contents|
    }

    /** Fills the buffer from the tunnel, which answers the reads as given. If the tunnel ends
        meanwhile, what the buffer holds is lost. */
    method ReadTunnel(answers: nat -> Answer) returns (exit: Exit, more: bool)
      requires Valid() && open
      modifies this`open, tunnel, buffer, buffer.data
      ensures Sound() && Holds(buffer.Text())
      ensures tunnel.sent.contents == old(tunnel.sent.contents) && old(tunnel.taken) <= tunnel.taken
      ensures more ==> open && tunnel.taken > old(tunnel.taken)
      ensures !more ==> exit == if open then Suspended else TunnelLost
      ensures !more && open ==> buffer.len == 0
      // The tunnel is lost exactly if it ended or failed; the buffer is filled up, unless the tunnel
      // blocks before that.
      ensures tunnel.losses == old(tunnel.losses) + (if open then 0 else 1)
      ensures tunnel.blocks == old(tunnel.blocks) + (if open && (!more || buffer.len < PUMP_BUFFER) then 1 else 0)
      ensures old(GivesOneAndEnds(answers)) ==> exit == TunnelLost && !more && tunnel.taken == old(tunnel.taken) + 1
      ensures buffer.len == 0 <==> !Gives(answers(0), old(tunnel.taken), |tunnel.sent.contents|)
    {
      exit, more := Suspended, true;
      buffer.Shrink(0);
      var calls := 0;
      while buffer.len < PUMP_BUFFER
        invariant Sound() && open && Holds(buffer.Text())
        invariant tunnel.sent.contents == old(tunnel.sent.contents) && old(tunnel.taken) <= tunnel.taken
        invariant tunnel.blocks == old(tunnel.blocks) && tunnel.losses == old(tunnel.losses) && more
        invariant buffer.len > 0 ==> tunnel.taken > old(tunnel.taken)
        invariant calls == 0 ==> buffer.len == 0 && tunnel.taken == old(tunnel.taken)
        invariant calls > 0 ==> buffer.len > 0 && Gives(answers(0), old(tunnel.taken), |tunnel.sent.contents|)
        invariant old(GivesOneAndEnds(answers)) ==>
                    calls <= 1 && tunnel.taken == old(tunnel.taken) + calls && buffer.len == calls
        decreases |tunnel.sent.contents| - tunnel.taken
      {
        var r := tunnel.Read(PUMP_BUFFER - buffer.len, answers(calls));
        calls := calls + 1;
        match r {
          case Got(data) =>
            buffer.Append(data);
          case ReadBlocked =>
            if buffer.len > 0 { break; }
            return Suspended, false;
          case ReadEos => open := false; return TunnelLost, false;
          case ReadFailed(_) => open := false; return TunnelLost, false;
        }
      }
    }

    /** Stores the buffer in the file. */
    method WriteFile() returns (more: bool)
      requires Sound() && open && Holds(buffer.Text())
      modifies this`open, file
      ensures Sound() && more == open && (open ==> Holds([]))
      ensures old(file.contents) <= file.contents
      ensures file.blocks + file.failures == old(file.blocks + file.failures) + (if more then 0 else 1)
    {
      var data := buffer.Contents();
      var writePos := 0;
      while writePos < |data|
        invariant writePos <= |data| && Sound() && open && Holds(data[writePos..])
        invariant old(file.contents) <= file.contents
        invariant file.blocks + file.failures == old(file.blocks + file.failures)
      {
        var r := file.Write(data[writePos..]);
        match r {
          case Accepted(n) =>
            assert data[writePos..][n..] == data[writePos + n..];
            writePos := writePos + n;
          case _ => open := false; return false;
        }
      }
      assert data[writePos..] == [];
      return true;
    }

    /** A readable tunnel: pumps until it blocks or something is lost. */
    method OnReadable(answers: nat -> nat -> Answer) returns (exit: Exit, ghost turn: nat, ghost start: nat)
      requires Valid() && open
      modifies this`open, tunnel, file, buffer, buffer.data
      ensures Valid() && tunnel.sent.contents == old(tunnel.sent.contents) && old(file.contents) <= file.contents
      ensures open <==> exit == Suspended
      // Each exit has its own cause: the tunnel has ended or failed, the file has refused a write, or
      // else the tunnel has blocked.
      ensures exit == Suspended || exit == TunnelLost || exit == FileLost
      ensures tunnel.losses == old(tunnel.losses) + (if exit == TunnelLost then 1 else 0)
      ensures file.blocks + file.failures == old(file.blocks + file.failures) + (if exit == FileLost then 1 else 0)
      ensures exit == Suspended ==> tunnel.blocks > old(tunnel.blocks)
      // A lost tunnel costs what has been read in the last turn, from position `start` on; so it
      // costs nothing exactly if the first read of that turn gave nothing.
      ensures exit == TunnelLost ==> Holds(buffer.Text()) && start <= tunnel.taken
      ensures exit == TunnelLost ==> file.contents == tunnel.sent.contents[..start]
      ensures exit == TunnelLost ==>
                (file.contents == tunnel.sent.contents[..tunnel.taken]
                 <==> !Gives(answers(turn)(0), start, |tunnel.sent.contents|))
      ensures old(GivesOneAndEnds(answers(0))) ==>
                exit == TunnelLost && file.contents == old(file.contents) && tunnel.taken == old(tunnel.taken) + 1
    {
      var turns := 0;
      while true
        invariant Valid() && open
        invariant old(GivesOneAndEnds(answers(0))) ==> turns == 0
        invariant turns == 0 ==> file.contents == old(file.contents) && tunnel.taken == old(tunnel.taken)
        invariant tunnel.sent.contents == old(tunnel.sent.contents) && old(file.contents) <= file.contents
        invariant tunnel.losses == old(tunnel.losses) && tunnel.blocks >= old(tunnel.blocks)
        invariant file.blocks + file.failures == old(file.blocks + file.failures)
        decreases |tunnel.sent.contents| - tunnel.taken
      {
        var more;
        turn, start := turns, tunnel.taken;
        assert file.contents + [] == file.contents;
        exit, more := ReadTunnel(answers(turns));
        turns := turns + 1;
        if !more {
          assert |file.contents + buffer.Text()| == |file.contents| + buffer.len;
          return;
        }
        more := WriteFile();
        if !more {
          exit := FileLost;
          return;
        }
      }
    }

    method OnClose()
      requires Valid()
      modifies this`open
      ensures Valid() && !open
    {
      open := false;
    }
  }

  /** Such a loss can happen in every state in which a byte waits in the tunnel: it is read, the
      tunnel ends, and the byte is not stored. */
  method TunnelEndLosesAByte(pump: ReceivingPump)
    requires pump.Valid() && pump.open && pump.tunnel.taken < |pump.tunnel.sent.contents|
    modifies pump, pump.tunnel, pump.file, pump.buffer, pump.buffer.data
    ensures pump.Valid() && !pump.open && pump.tunnel.taken == old(pump.tunnel.taken) + 1
    ensures pump.file.contents == old(pump.file.contents)
    ensures pump.file.contents == pump.tunnel.sent.contents[..pump.tunnel.taken - 1]
  {
    var exit, turn, start := pump.OnReadable(turn => call => if call == 0 then Give(1) else End);
    assert old(pump.file.contents) + [] == old(pump.file.contents);
  }

  // ----- The whole transfer -----

  /** Two pumps on one tunnel. */
  class Connection {
    const sender: SendingPump
    const receiver: ReceivingPump
    var ended: bool   // the sender has left with "End of file"

    ghost predicate Apart()
    {
      sender.buffer != receiver.buffer && sender.buffer.data != receiver.buffer.data
      && sender.tunnel == receiver.tunnel.sent
    }

    ghost predicate Valid()
      reads this, sender, receiver, sender.tunnel, receiver.tunnel, receiver.tunnel.sent, sender.file, receiver.file
      reads sender.buffer, receiver.buffer, sender.buffer.data
    {
      && Apart() && sender.Valid() && receiver.Valid()
      && (ended ==> sender.tunnel.contents == sender.file.contents && !sender.open)
    }

    constructor (contents: seq<byte>)
      ensures Valid() && sender.file.contents == contents && sender.open && receiver.open
      ensures fresh(sender) && fresh(receiver) && fresh(sender.tunnel) && fresh(receiver.tunnel)
      ensures fresh(sender.file) && fresh(receiver.file) && fresh(sender.buffer) && fresh(receiver.buffer)
      ensures fresh(sender.buffer.data) && fresh(receiver.buffer.data)
    {
      var pipe := new Sink<byte>();
      sender := new SendingPump(pipe, contents);
      var tunnel := new TunnelEnd(pipe);
      receiver := new ReceivingPump(tunnel);
      ended := false;
    }

    method SenderEvent()
      requires Valid()
      modifies this`ended, sender, sender.tunnel, sender.file, sender.buffer, sender.buffer.data
      ensures Valid()
      // Without a refusal anywhere, one event sends the whole file.
      ensures sender.tunnel.blocks >= old(sender.tunnel.blocks) && sender.tunnel.failures >= old(sender.tunnel.failures)
      ensures sender.file.blocks + sender.file.failures >= old(sender.file.blocks + sender.file.failures)
      ensures old(sender.open) && sender.tunnel.blocks == old(sender.tunnel.blocks)
              && sender.tunnel.failures == old(sender.tunnel.failures)
              && sender.file.blocks + sender.file.failures == old(sender.file.blocks + sender.file.failures) ==>
                ended
    {
      if sender.open {
        ghost var (sent, taken) := (sender.tunnel.contents, receiver.tunnel.taken);
        var exit := sender.OnWritable();
        assert sender.tunnel.contents[..taken] == sent[..taken];
        ended := exit == EndOfFile;
      }
    }

    method ReceiverEvent(answers: nat -> nat -> Answer)
      requires Valid()
      modifies receiver, receiver.tunnel, receiver.file, receiver.buffer, receiver.buffer.data
      ensures Valid()
      // Without a loss of the tunnel or a refusal of the file, the receiver waits for more.
      ensures receiver.tunnel.losses >= old(receiver.tunnel.losses)
      ensures receiver.file.blocks + receiver.file.failures >= old(receiver.file.blocks + receiver.file.failures)
      ensures old(receiver.open) && receiver.tunnel.losses == old(receiver.tunnel.losses)
              && receiver.file.blocks + receiver.file.failures == old(receiver.file.blocks + receiver.file.failures) ==>
                receiver.open && receiver.tunnel.blocks > old(receiver.tunnel.blocks)
    {
      if receiver.open {
        var _, _, _ := receiver.OnReadable(answers);
      }
    }

    method CloseEvent(atSender: bool)
      requires Valid()
      modifies sender, receiver
      ensures Valid()
    {
      if atSender { sender.OnClose(); } else { receiver.OnClose(); }
    }
  }

  /** Any run of any length of events at both ends, in any order and with any behaviour of
      tunnel and files: what is stored is always a prefix of the file sent; and it is the
      file once the sender has seen its end and the receiver waits with the tunnel empty. */
  method Transfer(contents: seq<byte>, events: nat, answers: nat -> nat -> nat -> Answer)
    returns (stored: seq<byte>, complete: bool)
    ensures stored <= contents
    ensures complete ==> stored == contents
  {
    var c := new Connection(contents);
    for i := 0 to events
      invariant c.Valid() && fresh(c) && fresh(c.sender) && fresh(c.receiver) && fresh(c.sender.tunnel)
      invariant fresh(c.receiver.tunnel)
      invariant fresh(c.sender.file) && fresh(c.receiver.file) && fresh(c.sender.buffer)
      invariant fresh(c.receiver.buffer) && fresh(c.sender.buffer.data) && fresh(c.receiver.buffer.data)
    {
      var pick: int, atSender: bool := *, *;
      match pick {
        case 0 => c.SenderEvent();
        case 1 => c.ReceiverEvent(answers(i));
        case _ => c.CloseEvent(atSender);
      }
    }
    var tunnel := c.receiver.tunnel;
    complete := c.ended && c.receiver.open && tunnel.taken == |tunnel.sent.contents|;
    stored := c.receiver.file.contents;
    assert complete ==> stored + [] == tunnel.sent.contents;
  }

  /** One event at each end, where nothing is refused or lost and the tunnel blocks only when all has been
      read: the file arrives whole. */
  method SmoothTransfer(contents: seq<byte>, answers: nat -> nat -> Answer)
    returns (stored: seq<byte>, complete: bool, ghost trouble: nat, ghost unread: nat)
    ensures complete ==> stored == contents
    ensures trouble == unread == 0 ==> complete
  {
    var c := new Connection(contents);
    c.SenderEvent();
    c.ReceiverEvent(answers);
    var (pipe, tunnel) := (c.sender.tunnel, c.receiver.tunnel);
    trouble := pipe.blocks + pipe.failures + c.sender.file.blocks + c.sender.file.failures
               + tunnel.losses + c.receiver.file.blocks + c.receiver.file.failures;
    unread := |pipe.contents| - tunnel.taken;
    complete := c.ended && c.receiver.open && tunnel.taken == |tunnel.sent.contents|;
    stored := c.receiver.file.contents;
    assert complete ==> stored + [] == tunnel.sent.contents;
  }
}
