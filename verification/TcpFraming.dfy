/** AsyncTCPSocket of src/talk/base/asynctcpsocket.cc: packets over a byte stream, each
    behind a 16-bit length in network order. */
module TcpFraming {
  import opened Common
  import opened ByteBuffers
  import opened Buffers
  import opened Streams

  type Packet = seq<byte>

  const MAX_PACKET_SIZE: nat := 64 * 1024
  const PKT_LEN_SIZE: nat := 2
  const BUF_SIZE: nat := MAX_PACKET_SIZE + PKT_LEN_SIZE

  // ----- The format -----

  /** The length is cast to 16 bits. */
  function Frame(p: Packet): (r: seq<byte>)
    ensures |r| == PKT_LEN_SIZE + |p|
  {
    var n := |p| % 0x1_0000;
    [n / 256, n % 256] + p
  }

  function Frames(ps: seq<Packet>): seq<byte> {
    if ps == [] then [] else Frame(ps[0]) + Frames(ps[1..])
  }

  function LengthField(s: seq<byte>): nat
    requires |s| >= PKT_LEN_SIZE
  {
    (s[0] as int) * 256 + s[1] as int
  }

  predicate HasPacket(s: seq<byte>) {
    |s| >= PKT_LEN_SIZE && |s| >= PKT_LEN_SIZE + LengthField(s)
  }

  /** The packets at the front of a byte sequence. */
  function Packets(s: seq<byte>): seq<Packet>
    decreases |s|
  {
    if !HasPacket(s) then []
    else
      var n := PKT_LEN_SIZE + LengthField(s);
      [s[PKT_LEN_SIZE..n]] + Packets(s[n..])
  }

  /** What is left behind them. */
  function Rest(s: seq<byte>): seq<byte>
    decreases |s|
  {
    if !HasPacket(s) then s else Rest(s[PKT_LEN_SIZE + LengthField(s)..])
  }

  lemma {:induction false} RestHasNoPacket(s: seq<byte>)
    ensures !HasPacket(Rest(s)) && |Rest(s)| <= |s|
    decreases |s|
  {
    if HasPacket(s) { RestHasNoPacket(s[PKT_LEN_SIZE + LengthField(s)..]); }
  }

  lemma TwoBytes(n: nat)
    requires n < 0x1_0000
    ensures BigEndian(n, 2) == [n / 256, n % 256]
  {
    assert BigEndian(n / 256, 1) == BigEndian(n / 256 / 256, 0) + [n / 256 % 256];
  }

  /** On the wire a frame is the length, the high byte first, and then the packet. */
  lemma OnTheWire(p: Packet)
    requires |p| < 0x1_0000
    ensures Frame(p) == [|p| / 256, |p| % 256] + p
  {
  }

  /** That is the length in network order. */
  lemma InNetworkOrder(p: Packet)
    ensures Frame(p) == BigEndian(|p| % 0x1_0000, 2) + p
  {
    TwoBytes(|p| % 0x1_0000);
    hide BigEndian;
    assert Frame(p) == [|p| % 0x1_0000 / 256, |p| % 0x1_0000 % 256] + p;
    hide Frame;
  }

  /** And the length is read in that order. */
  lemma LengthOnTheWire(s: seq<byte>)
    requires |s| >= PKT_LEN_SIZE
    ensures LengthField(s) == GetBigEndian(s[..PKT_LEN_SIZE])
    ensures s[0] == 0 ==> LengthField(s) == s[1]
  {
    var t := s[..PKT_LEN_SIZE];
    assert t[..1] == [s[0]] && [s[0]][..0] == [] && t[1] == s[1];
    assert GetBigEndian([s[0]]) == s[0];
  }

  /** Where the frame of the i-th packet begins. */
  function Offset(ps: seq<Packet>, i: nat): nat
    requires i <= |ps|
  {
    if i == 0 then 0 else Offset(ps, i - 1) + PKT_LEN_SIZE + |ps[i - 1]|
  }

  /** In the frames of a list each packet stands behind its length in network order. */
  lemma {:induction false} EachOnTheWire(ps: seq<Packet>, i: nat)
    requires i < |ps|
    ensures var (at, n) := (Offset(ps, i), |ps[i]| % 0x1_0000);
            at + PKT_LEN_SIZE + |ps[i]| <= |Frames(ps)|
            && Frames(ps)[at..at + PKT_LEN_SIZE + |ps[i]|] == [n / 256, n % 256] + ps[i]
  {
    hide BigEndian;
    var (first, rest) := (ps[..i], ps[i..]);
    assert ps == first + rest;
    FramesAppend(first, rest);
    OffsetIsLength(ps, i);
    assert Frame(ps[i]) == [|ps[i]| % 0x1_0000 / 256, |ps[i]| % 0x1_0000 % 256] + ps[i];
    assert Frames(rest) == Frame(ps[i]) + Frames(rest[1..]);
  }

  lemma {:induction false} OffsetIsLength(ps: seq<Packet>, i: nat)
    requires i <= |ps|
    ensures Offset(ps, i) == |Frames(ps[..i])|
  {
    if i > 0 {
      OffsetIsLength(ps, i - 1);
      assert ps[..i] == ps[..i - 1] + [ps[i - 1]];
      FramesOne(ps[..i - 1], ps[i - 1]);
    } else {
      assert ps[..0] == [];
    }
  }

  /** Reading on after more bytes have arrived. */
  lemma {:induction false} PacketsAppend(s: seq<byte>, t: seq<byte>)
    ensures Packets(s + t) == Packets(s) + Packets(Rest(s) + t)
    ensures Rest(s + t) == Rest(Rest(s) + t)
    decreases |s|
  {
    if HasPacket(s) {
      var n := PKT_LEN_SIZE + LengthField(s);
      var (u, p) := (s + t, s[PKT_LEN_SIZE..n]);
      assert LengthField(u) == LengthField(s) && HasPacket(u);
      assert u[n..] == s[n..] + t && u[PKT_LEN_SIZE..n] == p;
      PacketsAppend(s[n..], t);
      assert Packets(u) == [p] + (Packets(s[n..]) + Packets(Rest(s) + t));
    }
  }

  lemma {:induction false} FramesAppend(ps: seq<Packet>, qs: seq<Packet>)
    ensures Frames(ps + qs) == Frames(ps) + Frames(qs)
    decreases |ps|
  {
    if ps == [] {
      assert ps + qs == qs;
    } else {
      assert (ps + qs)[1..] == ps[1..] + qs;
      FramesAppend(ps[1..], qs);
      assert Frames(ps + qs) == Frame(ps[0]) + (Frames(ps[1..]) + Frames(qs));
    }
  }

  lemma FramesOne(ps: seq<Packet>, p: Packet)
    ensures Frames(ps + [p]) == Frames(ps) + Frame(p)
  {
    FramesAppend(ps, [p]);
    assert [p][1..] == [] && Frames([p]) == Frame(p) + [];
  }

  /** A frame gives back its packet exactly when the length fits 16 bits. */
  lemma FrameSurvivesIff(p: Packet)
    requires |p| <= MAX_PACKET_SIZE
    ensures Packets(Frame(p)) == [p] <==> |p| < MAX_PACKET_SIZE
  {
    var f := Frame(p);
    if |p| < MAX_PACKET_SIZE {
      assert LengthField(f) == |p| && f[PKT_LEN_SIZE..|f|] == p && Packets(f[|f|..]) == [];
    } else {
      assert LengthField(f) == 0 && Packets(f)[0] == f[PKT_LEN_SIZE..PKT_LEN_SIZE] == [];
    }
  }

  lemma LaterPrefix(p: Packet, qs: seq<Packet>, ps: seq<Packet>)
    requires ps != [] && ps[0] == p && qs <= ps[1..]
    ensures [p] + qs <= ps && (qs == ps[1..] ==> [p] + qs == ps)
  {
  }

  /** What the first k bytes of a frame and its successors hold. */
  lemma FrameArrives(p: Packet, rest: seq<byte>, k: nat)
    requires |p| < MAX_PACKET_SIZE && k <= PKT_LEN_SIZE + |p| + |rest|
    ensures var (s, n) := ((Frame(p) + rest)[..k], PKT_LEN_SIZE + |p|);
            if k < n then Packets(s) == []
            else Packets(s) == [p] + Packets(rest[..k - n]) && Rest(s) == Rest(rest[..k - n])
  {
    var (s, n) := ((Frame(p) + rest)[..k], PKT_LEN_SIZE + |p|);
    assert k >= PKT_LEN_SIZE ==> LengthField(s) == |p|;
    if k >= n {
      assert Frame(p)[PKT_LEN_SIZE..] == p;
      assert s[PKT_LEN_SIZE..n] == Frame(p)[PKT_LEN_SIZE..];
      assert s[n..] == rest[..k - n];
    }
  }

  /** The frame of a packet of 65536 bytes is read as an empty packet, whatever follows. */
  lemma TooLongReadsEmpty(p: Packet, rest: seq<byte>)
    requires |p| == MAX_PACKET_SIZE
    ensures Packets(Frame(p) + rest) != [] && Packets(Frame(p) + rest)[0] == []
  {
    var s := Frame(p) + rest;
    assert LengthField(s) == 0 && s[PKT_LEN_SIZE..PKT_LEN_SIZE] == [];
  }

  lemma FrameReadsBack(p: Packet, rest: seq<byte>)
    requires |p| < MAX_PACKET_SIZE
    ensures Packets(Frame(p) + rest) == [p] + Packets(rest) && Rest(Frame(p) + rest) == Rest(rest)
  {
    hide Packets, Rest, Frame;
    var n := PKT_LEN_SIZE + |p| + |rest|;
    FrameArrives(p, rest, n);
    assert (Frame(p) + rest)[..n] == Frame(p) + rest && rest[..|rest|] == rest;
  }

  /** Of packets that Send admits, a list is read back exactly when all are below 65536 bytes. */
  lemma {:induction false} FramesSurviveIff(ps: seq<Packet>)
    requires forall p :: p in ps ==> |p| <= MAX_PACKET_SIZE
    ensures Packets(Frames(ps)) == ps <==> forall p :: p in ps ==> |p| < MAX_PACKET_SIZE
    decreases |ps|
  {
    if ps != [] {
      hide Packets, Frame;
      var (p, rest) := (ps[0], ps[1..]);
      assert ps == [p] + rest;
      if |p| < MAX_PACKET_SIZE {
        FrameReadsBack(p, Frames(rest));
        FramesSurviveIff(rest);
        LaterEqual(p, Packets(Frames(rest)), ps);
      } else {
        TooLongReadsEmpty(p, Frames(rest));
      }
    }
  }

  lemma LaterEqual(p: Packet, qs: seq<Packet>, ps: seq<Packet>)
    requires ps != [] && ps[0] == p
    ensures [p] + qs == ps <==> qs == ps[1..]
  {
    if [p] + qs == ps {
      assert ps[1..] == qs;
    }
  }

  lemma {:induction false} AllArrived(ps: seq<Packet>)
    requires forall p :: p in ps ==> |p| < MAX_PACKET_SIZE
    ensures Packets(Frames(ps)) == ps && Rest(Frames(ps)) == []
    decreases |ps|
  {
    if ps != [] {
      hide Packets, Rest, Frame;
      assert ps == [ps[0]] + ps[1..];
      FrameReadsBack(ps[0], Frames(ps[1..]));
      AllArrived(ps[1..]);
    }
  }

  /** Whatever part of the frames has arrived, the packets read from it are the first ones. */
  lemma {:induction false} FirstArrived(ps: seq<Packet>, k: nat)
    requires forall p :: p in ps ==> |p| < MAX_PACKET_SIZE
    requires k <= |Frames(ps)|
    ensures Packets(Frames(ps)[..k]) <= ps
    decreases |ps|
  {
    if ps != [] {
      var (p, rest, n) := (ps[0], Frames(ps[1..]), PKT_LEN_SIZE + |ps[0]|);
      assert Frames(ps) == Frame(p) + rest;
      hide Packets, Rest, Frame, Frames;
      FrameArrives(p, rest, k);
      if k >= n {
        FirstArrived(ps[1..], k - n);
        LaterPrefix(p, Packets(rest[..k - n]), ps);
      }
    } else {
      assert Frames(ps)[..k] == [];
    }
  }

  /** Whatever part of the frames has arrived, the packets read from it are the first ones,
      and all of them once everything has arrived. */
  lemma ArrivedPackets(ps: seq<Packet>, k: nat)
    requires forall p :: p in ps ==> |p| < MAX_PACKET_SIZE
    requires k <= |Frames(ps)|
    ensures Packets(Frames(ps)[..k]) <= ps
    ensures k == |Frames(ps)| ==> Packets(Frames(ps)) == ps && Rest(Frames(ps)) == []
  {
    hide Packets, Rest, Frames;
    FirstArrived(ps, k);
    AllArrived(ps);
  }

  // ----- Subsequences -----

  predicate Subsequence<T(==)>(a: seq<T>, b: seq<T>)
    decreases |b|
  {
    a == [] ||
    (b != [] &&
     (Subsequence(a, b[..|b| - 1])
      || (a[|a| - 1] == b[|b| - 1] && Subsequence(a[..|a| - 1], b[..|b| - 1]))))
  }

  lemma SubsequenceGrows<T>(a: seq<T>, b: seq<T>, x: T)
    requires Subsequence(a, b)
    ensures Subsequence(a, b + [x]) && Subsequence(a + [x], b + [x])
  {
    assert (b + [x])[..|b|] == b && (a + [x])[..|a|] == a;
  }

  lemma {:induction false} SubsequencePrefix<T>(a: seq<T>, b: seq<T>, k: nat)
    requires Subsequence(a, b) && k <= |a|
    ensures Subsequence(a[..k], b)
    decreases |b|
  {
    if k == |a| {
      assert a[..k] == a;
    } else if k > 0 {
      var (a1, b1) := (a[..|a| - 1], b[..|b| - 1]);
      if Subsequence(a, b1) {
        SubsequencePrefix(a, b1, k);
      } else {
        assert a1[..k] == a[..k];
        SubsequencePrefix(a1, b1, k);
      }
    }
  }

  // ----- The socket -----

  class AsyncTcpSocket {
    const output: Sink<byte>       // what the socket has taken
    const input: Source<byte>      // what it has delivered
    const outbuf: Buffer<byte>
    const inbuf: Buffer<byte>
    var signalled: seq<Packet>     // SignalReadPacket

    ghost var offered: seq<Packet>   // packets passed to Send and not refused for their size
    ghost var accepted: seq<Packet>  // those that were not dropped

    /** The bytes taken by the socket, then those waiting, are the frames of the accepted
        packets; and those are some of the offered ones, in order. */
    ghost predicate ValidOut()
      reads this, output, outbuf, outbuf.data
    {
      && outbuf.Valid() && outbuf.data.Length == BUF_SIZE
      && output.contents + outbuf.Text() == Frames(accepted)
      && Subsequence(accepted, offered)
    }

    /** The packets signalled and the bytes kept are what reading all input gives. */
    ghost predicate ValidIn()
      reads this, input, inbuf, inbuf.data
    {
      && inbuf.Valid() && inbuf.data.Length == BUF_SIZE
      && signalled == Packets(input.received)
      && inbuf.Text() == Rest(input.received)
    }

    ghost predicate Valid()
      reads this, output, input, outbuf, inbuf, outbuf.data, inbuf.data
    {
      ValidOut() && ValidIn() && outbuf != inbuf && outbuf.data != inbuf.data
    }

    constructor ()
      ensures Valid() && offered == accepted == signalled == []
      ensures output.contents == [] && input.received == []
    {
      output := new Sink<byte>();
      input := new Source<byte>();
      outbuf := new Buffer<byte>(BUF_SIZE);
      inbuf := new Buffer<byte>(BUF_SIZE);
      signalled, offered, accepted := [], [], [];
    }

    /** Gives the socket what is waiting; the result is what `socket_->Send` said. */
    method Flush() returns (res: int)
      requires outbuf.Valid() && outbuf.len > 0
      modifies output, outbuf, outbuf.data
      ensures outbuf.Valid() && output.contents + outbuf.Text() == old(output.contents + outbuf.Text())
      ensures outbuf.len == old(outbuf.len) - (if res > 0 then res else 0)
      ensures res >= -1 && (res <= 0 ==> output.contents == old(output.contents))
      ensures output.blocks + output.failures == old(output.blocks + output.failures) + (if res > 0 then 0 else 1)
    {
      var text := outbuf.Contents();
      var r := output.Write(text);
      if !r.Accepted? { return if r.WriteEos? then 0 else -1; }
      outbuf.Drop(r.count);
      assert text == text[..r.count] + outbuf.Text();
      return r.count;
    }

    method Send(p: Packet) returns (res: int)
      requires Valid()
      modifies this`offered, this`accepted, output, outbuf, outbuf.data
      ensures Valid()
      ensures |p| > MAX_PACKET_SIZE ==>
                res == -1 && offered == old(offered) && accepted == old(accepted)
                && output.contents == old(output.contents)
      ensures |p| <= MAX_PACKET_SIZE ==> offered == old(offered) + [p]
      // Dropped whole, or taken whole with at least one byte already out.
      ensures accepted == old(accepted) + [p] || accepted == old(accepted)
      ensures accepted == old(accepted) ==>
                output.contents == old(output.contents) && outbuf.len == old(outbuf.len)
      ensures accepted != old(accepted) ==>
                old(outbuf.len) == 0 && res == |p| && |output.contents| > |old(output.contents)|
      ensures old(outbuf.len) > 0 && |p| <= MAX_PACKET_SIZE ==> res == |p|
      ensures old(outbuf.len) == 0 && accepted == old(accepted) ==> res <= 0
      // With nothing waiting, a packet is dropped only if the socket took nothing of it.
      ensures output.blocks + output.failures == old(output.blocks + output.failures)
                + (if old(outbuf.len) == 0 && |p| <= MAX_PACKET_SIZE && accepted == old(accepted) then 1 else 0)
    {
      if |p| > MAX_PACKET_SIZE { return -1; }
      SubsequenceGrows(accepted, offered, p);
      offered := offered + [p];
      if outbuf.len > 0 { return |p|; }
      outbuf.Append(Frame(p));
      ghost var sent := output.contents;
      assert sent + outbuf.Text() == Frames(accepted) + Frame(p);
      res := Flush();
      if res <= 0 {
        outbuf.Shrink(0);
        return res;
      }
      FramesOne(accepted, p);
      accepted := accepted + [p];
      return |p|;
    }

    method OnWriteEvent()
      requires Valid()
      modifies output, outbuf, outbuf.data
      ensures Valid() && outbuf.len <= old(outbuf.len)
      ensures outbuf.len < old(outbuf.len) || old(outbuf.len) == 0
              || output.blocks + output.failures > old(output.blocks + output.failures)
    {
      if outbuf.len > 0 {
        var _ := Flush();
      }
    }

    /** Signals every complete packet at the front of the input buffer. */
    method ProcessInput()
      requires inbuf.Valid()
      modifies this`signalled, inbuf, inbuf.data
      ensures inbuf.Valid() && inbuf.Text() == Rest(old(inbuf.Text()))
      ensures signalled == old(signalled) + Packets(old(inbuf.Text()))
    {
      while true
        invariant inbuf.Valid()
        invariant signalled + Packets(inbuf.Text()) == old(signalled) + Packets(old(inbuf.Text()))
        invariant Rest(inbuf.Text()) == Rest(old(inbuf.Text()))
        decreases inbuf.len
      {
        if inbuf.len < PKT_LEN_SIZE { return; }
        var data := inbuf.Contents();
        var n := PKT_LEN_SIZE + LengthField(data);
        if inbuf.len < n { return; }
        assert signalled + Packets(data) == (signalled + [data[PKT_LEN_SIZE..n]]) + Packets(data[n..]);
        signalled := signalled + [data[PKT_LEN_SIZE..n]];
        inbuf.Drop(n);
      }
    }

    method OnReadEvent()
      requires Valid()
      modifies this`signalled, input, inbuf, inbuf.data
      ensures Valid() && old(signalled) <= signalled
      // The "input buffer overflow" branch of the source is never taken.
      ensures inbuf.len < inbuf.data.Length
      ensures |input.received| > |old(input.received)|
              || input.blocks + input.failures > old(input.blocks + input.failures)
    {
      ghost var before := input.received;
      RestHasNoPacket(before);
      var r := input.Read(BUF_SIZE - inbuf.len);
      if !r.Got? { return; }
      PacketsAppend(before, r.data);
      inbuf.Append(r.data);
      ProcessInput();
      RestHasNoPacket(input.received);
      if inbuf.len >= BUF_SIZE {
        assert false;
      }
    }
  }

  /** What the socket has taken, then what is waiting, holds every accepted packet behind its
      length, the high byte first. */
  lemma AcceptedOnTheWire(socket: AsyncTcpSocket, i: nat)
    requires socket.ValidOut() && i < |socket.accepted|
    ensures var (wire, p, at) := (socket.output.contents + socket.outbuf.Text(), socket.accepted[i],
                                  Offset(socket.accepted, i));
            at + PKT_LEN_SIZE + |p| <= |wire|
            && wire[at..at + PKT_LEN_SIZE + |p|] == [|p| % 0x1_0000 / 256, |p| % 0x1_0000 % 256] + p
  {
    EachOnTheWire(socket.accepted, i);
    hide Frames, Offset, Subsequence;
  }

  /** End to end: if the receiver's input is a part of what the sender's socket took, then
      the packets it signals are the first accepted ones, byte for byte, hence some of the
      packets passed to Send, in order; and all accepted ones once everything arrived. */
  lemma DeliveredPackets(sender: AsyncTcpSocket, receiver: AsyncTcpSocket)
    requires sender.ValidOut() && receiver.ValidIn()
    requires receiver.input.received <= sender.output.contents
    requires forall p :: p in sender.accepted ==> |p| < MAX_PACKET_SIZE
    ensures receiver.signalled <= sender.accepted
    ensures Subsequence(receiver.signalled, sender.offered)
    ensures receiver.input.received == sender.output.contents && sender.outbuf.len == 0 ==>
              receiver.signalled == sender.accepted && receiver.inbuf.len == 0
  {
    var (wire, got) := (Frames(sender.accepted), receiver.input.received);
    assert got == wire[..|got|];
    ArrivedPackets(sender.accepted, |got|);
    SubsequencePrefix(sender.accepted, sender.offered, |receiver.signalled|);
    assert sender.accepted[..|receiver.signalled|] == receiver.signalled;
    if got == sender.output.contents && sender.outbuf.len == 0 {
      assert got == wire;
    }
  }
}
