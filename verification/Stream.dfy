/** `sendall`, `recvall` and the subscriber's frame dispatch over a byte stream that
    the kernel may cut anywhere. */
module Stream {
  import opened Lists
  import opened Wire

  /** As much of the bytes as a connection that breaks after `limit` of them takes. */
  function Taken(bytes: seq<byte>, limit: nat): seq<byte> {
    if |bytes| <= limit then bytes else bytes[..limit]
  }

  /** What a connection has taken, and after how many bytes a call of `send` will fail and
      leave it open. */
  datatype Line = Line(sent: seq<byte>, faults: seq<nat>)

  /** How many bytes the connection takes before `send` fails next. */
  function Stop(line: Line, limit: nat): (stop: nat)
    requires |line.sent| <= limit
    ensures |line.sent| <= stop <= limit && (stop < limit ==> line.faults != [])
  {
    if line.faults == [] || limit <= line.faults[0] then limit
    else if line.faults[0] < |line.sent| then |line.sent|
    else line.faults[0]
  }

  predicate Accepts(line: Line, limit: nat, data: seq<byte>)
    requires |line.sent| <= limit
  {
    |line.sent + data| <= Stop(line, limit)
  }

  /** Data handed to `sendall`: what comes before the failure is taken, and the failure is
      used up unless the connection is broken. */
  function Push(line: Line, limit: nat, data: seq<byte>): (after: Line)
    requires |line.sent| <= limit
    ensures |after.sent| <= limit
  {
    var stop := Stop(line, limit);
    Line(Taken(line.sent + data, stop),
         if Accepts(line, limit, data) || stop == limit then line.faults else line.faults[1..])
  }

  /** The next failure, if it comes before the last byte of the data, is where the taking
      stops: a fault is then used up, the final break is not. Otherwise all is taken. */
  lemma PushExactly(line: Line, limit: nat, data: seq<byte>)
    requires |line.sent| <= limit
    ensures var fault := line.faults != [] && line.faults[0] < limit;
      var stop := if !fault then limit else if line.faults[0] < |line.sent| then |line.sent| else line.faults[0];
      var after := Push(line, limit, data);
      && (Accepts(line, limit, data) <==> |line.sent| + |data| <= stop)
      && (|line.sent| + |data| <= stop ==> after == Line(line.sent + data, line.faults))
      && (|line.sent| + |data| > stop ==>
            && |line.sent| <= stop && after.sent == line.sent + data[..stop - |line.sent|]
            && after.faults == if fault && stop < limit then line.faults[1..] else line.faults)
  {
  }

  /** A frame, as its two halves are handed over: the body of a message follows its header
      only when that was taken, the body of an acknowledgement in any case. */
  function PushFrame(line: Line, limit: nat, f: Frame): (after: Line)
    requires |line.sent| <= limit
    ensures |after.sent| <= limit
  {
    var next := Push(line, limit, [Header(f)]);
    if f.MessageFrame? && !Accepts(line, limit, [Header(f)]) then next else Push(next, limit, Body(f))
  }

  function PushFrames(line: Line, limit: nat, frames: seq<Frame>): (after: Line)
    requires |line.sent| <= limit
    ensures |after.sent| <= limit
    decreases |frames|
  {
    if frames == [] then line else PushFrames(PushFrame(line, limit, frames[0]), limit, frames[1..])
  }

  /** Both halves of the frame are taken whole. */
  predicate Whole(line: Line, limit: nat, f: Frame)
    requires |line.sent| <= limit
  {
    Accepts(line, limit, [Header(f)]) && Accepts(Push(line, limit, [Header(f)]), limit, Body(f))
  }

  /** A connected TCP socket. `send` takes any non-empty part of what it is offered, fails
      once at each fault it comes to, and fails for good when the connection has broken
      after `limit` bytes. `recv` gives any non-empty part of what is coming, and may be
      interrupted a finite number of times. After the last byte the stream ends or is reset. */
  class Socket {
    var sent: seq<byte>
    var faults: seq<nat>
    const limit: nat
    var incoming: seq<byte>
    var interrupts: nat
    const reset: bool

    ghost predicate Valid()
      reads `sent
    {
      |sent| <= limit
    }

    function Out(): Line
      reads `sent, `faults
    {
      Line(sent, faults)
    }

    constructor (limit: nat, faults: seq<nat>, incoming: seq<byte>, interrupts: nat, reset: bool)
      ensures Valid() && Out() == Line([], faults) && this.limit == limit
      ensures this.incoming == incoming && this.interrupts == interrupts && this.reset == reset
    {
      this.sent, this.faults, this.limit := [], faults, limit;
      this.incoming, this.interrupts, this.reset := incoming, interrupts, reset;
    }

    method Send(data: seq<byte>) returns (rc: int)
      requires Valid() && data != []
      modifies `sent, `faults
      ensures Valid()
      ensures var line, stop := old(Out()), Stop(old(Out()), limit);
        if |line.sent| == stop then
          rc == -1 && sent == line.sent && faults == if stop == limit then line.faults else line.faults[1..]
        else
          && 0 < rc <= |data| && |line.sent| + rc <= stop
          && sent == line.sent + data[..rc] && faults == line.faults
    {
      var stop := Stop(Out(), limit);
      if |sent| == stop {
        rc, faults := -1, if stop == limit then faults else faults[1..];
      } else {
        rc :| 0 < rc <= |data| && |sent| + rc <= stop;
        sent := sent + data[..rc];
      }
    }

    method Recv(data: array<byte>, offset: nat, size: nat) returns (rc: int, interrupted: bool)
      requires 0 < size && offset + size <= data.Length
      modifies `incoming, `interrupts, data
      ensures interrupted ==>
        rc < 0 && incoming == old(incoming) && interrupts < old(interrupts) && data[..] == old(data[..])
      ensures !interrupted && old(incoming) == [] ==>
        rc == (if reset then -1 else 0) && incoming == [] && interrupts == old(interrupts) && data[..] == old(data[..])
      ensures !interrupted && old(incoming) != [] ==>
        && 0 < rc <= size && rc <= |old(incoming)| && interrupts == old(interrupts)
        && incoming == old(incoming)[rc..]
        && data[..] == old(data[..])[..offset] + old(incoming)[..rc] + old(data[..])[offset + rc..]
    {
      interrupted := *;
      interrupted := interrupted && interrupts > 0;
      if interrupted {
        rc := -1;
        interrupts := interrupts - 1;
      } else if incoming == [] {
        rc := if reset then -1 else 0;
      } else {
        rc :| 0 < rc <= size && rc <= |incoming|;
        forall i | 0 <= i < rc {
          data[offset + i] := incoming[i];
        }
        incoming := incoming[rc..];
      }
    }
  }

  /** Sends the whole buffer, however little `send` takes at a time: all of it is sent,
      unless a call fails first, and then everything up to there is. */
  method SendAll(socket: Socket, data: seq<byte>) returns (rc: int)
    requires socket.Valid()
    modifies socket`sent, socket`faults
    ensures socket.Valid() && socket.Out() == Push(old(socket.Out()), socket.limit, data)
    ensures rc == if Accepts(old(socket.Out()), socket.limit, data) then |data| else -1
  {
    var bytesSent, bytesRemaining := 0, |data|;
    ghost var stop := Stop(socket.Out(), socket.limit);
    while bytesRemaining > 0
      invariant bytesSent + bytesRemaining == |data| && 0 <= bytesSent && 0 <= bytesRemaining
      invariant socket.Valid() && socket.sent == old(socket.sent) + data[..bytesSent]
      invariant socket.faults == old(socket.faults) && Stop(socket.Out(), socket.limit) == stop
    {
      var sentNow := socket.Send(data[bytesSent..]);
      if sentNow < 0 {
        assert (old(socket.sent) + data)[..stop] == old(socket.sent) + data[..bytesSent];
        return -1;
      }
      assert data[..bytesSent] + data[bytesSent..][..sentNow] == data[..bytesSent + sentNow];
      bytesSent := bytesSent + sentNow;
      bytesRemaining := bytesRemaining - sentNow;
    }
    assert data[..bytesSent] == data;
    return bytesSent;
  }

  /** A message: its header byte, and its body unless the header already failed. */
  method SendMessage(socket: Socket, packet: Packet) returns (ok: bool)
    requires socket.Valid() && packet.Packed()
    modifies socket`sent, socket`faults
    ensures socket.Valid()
    ensures socket.Out() == PushFrame(old(socket.Out()), socket.limit, MessageFrame(packet))
    ensures ok <==> Whole(old(socket.Out()), socket.limit, MessageFrame(packet))
  {
    hide EncodePacket, Push, Accepts;
    var rc := SendAll(socket, [HEADER_MESSAGE]);
    if rc < 0 {
      return false;
    }
    rc := SendAll(socket, EncodePacket(packet));
    return rc >= 0;
  }

  /** An acknowledgement: header and body, without looking at the return codes. */
  method SendAck(socket: Socket, request: SubscribeRequest)
    requires socket.Valid() && request.Packed()
    modifies socket`sent, socket`faults
    ensures socket.Valid()
    ensures socket.Out() == PushFrame(old(socket.Out()), socket.limit, AckFrame(request))
  {
    hide EncodeRequest, Push, Accepts;
    var rc := SendAll(socket, [HEADER_SUBSCRIBE_ACK]);
    rc := SendAll(socket, EncodeRequest(request));
  }

  /** The frames of one connection, one after the other, whatever happens to each. */
  method SendFrames(socket: Socket, frames: seq<Frame>)
    requires socket.Valid() && AllPacked(frames)
    modifies socket`sent, socket`faults
    ensures socket.Valid()
    ensures socket.Out() == PushFrames(old(socket.Out()), socket.limit, frames)
  {
    hide PushFrame;
    for k := 0 to |frames|
      invariant socket.Valid()
      invariant PushFrames(socket.Out(), socket.limit, frames[k..])
             == PushFrames(old(socket.Out()), socket.limit, frames)
    {
      assert frames[k..][1..] == frames[k + 1..];
      assert frames[k] in frames && frames[k].Packed();
      match frames[k] {
        case MessageFrame(packet) =>
          var ok := SendMessage(socket, packet);
        case AckFrame(request) =>
          SendAck(socket, request);
      }
    }
  }

  lemma TakenOn(sent: seq<byte>, a: seq<byte>, b: seq<byte>, limit: nat)
    ensures |sent + a| > limit ==> Taken(sent + a, limit) == Taken(sent + (a + b), limit)
    ensures Taken(Taken(sent + a, limit) + b, limit) == Taken(sent + (a + b), limit)
  {
    assert sent + (a + b) == sent + a + b;
  }

  /** A connection without faults takes the encoding of the frames until it breaks. */
  lemma {:induction false} WithoutFaults(line: Line, limit: nat, frames: seq<Frame>)
    requires |line.sent| <= limit && line.faults == []
    ensures PushFrames(line, limit, frames) == Line(Taken(line.sent + EncodeFrames(frames), limit), [])
    decreases |frames|
  {
    hide EncodeFrame, PushFrame;
    if frames == [] {
      assert line.sent + EncodeFrames([]) == line.sent;
    } else {
      FrameWithoutFaults(line, limit, frames[0]);
      TakenOn(line.sent, EncodeFrame(frames[0]), EncodeFrames(frames[1..]), limit);
      WithoutFaults(PushFrame(line, limit, frames[0]), limit, frames[1..]);
    }
  }

  lemma FrameWithoutFaults(line: Line, limit: nat, f: Frame)
    requires |line.sent| <= limit && line.faults == []
    ensures PushFrame(line, limit, f) == Line(Taken(line.sent + EncodeFrame(f), limit), [])
  {
    hide Body, Taken;
    TakenOn(line.sent, [Header(f)], Body(f), limit);
  }

  lemma {:induction false} EncodeFramesAppend(a: seq<Frame>, b: seq<Frame>)
    ensures EncodeFrames(a + b) == EncodeFrames(a) + EncodeFrames(b)
  {
    hide EncodeFrame;
    if a == [] {
      assert a + b == b;
    } else {
      EncodeFramesAppend(a[1..], b);
      assert (a + b)[1..] == a[1..] + b && (a + b)[0] == a[0];
      assert EncodeFrames(a + b) == EncodeFrame(a[0]) + (EncodeFrames(a[1..]) + EncodeFrames(b));
    }
  }

  lemma EncodeFramesSnoc(frames: seq<Frame>, k: nat)
    requires k < |frames|
    ensures EncodeFrames(frames[..k + 1]) == EncodeFrames(frames[..k]) + EncodeFrame(frames[k])
  {
    hide EncodeFrame;
    EncodeFramesAppend(frames[..k], [frames[k]]);
    assert frames[..k + 1] == frames[..k] + [frames[k]];
    assert EncodeFrames([frames[k]]) == EncodeFrame(frames[k]) + EncodeFrames([]);
  }

  /** Fills the first `size` bytes of the buffer with the next bytes of the stream,
      however it is cut; 0 or -1 when the stream ends before that. */
  method RecvAll(socket: Socket, data: array<byte>, size: nat) returns (rc: int)
    requires size <= data.Length
    modifies socket`incoming, socket`interrupts, data
    ensures size <= |old(socket.incoming)| ==>
      && rc == size && data[..size] == old(socket.incoming)[..size]
      && socket.incoming == old(socket.incoming)[size..]
    ensures |old(socket.incoming)| < size ==>
      rc == (if socket.reset then -1 else 0) && socket.incoming == []
  {
    var bytesReceived, bytesRemaining := 0, size;
    while bytesRemaining > 0
      invariant bytesReceived + bytesRemaining == size && 0 <= bytesReceived && 0 <= bytesRemaining
      invariant bytesReceived <= |old(socket.incoming)|
      invariant socket.incoming == old(socket.incoming)[bytesReceived..]
      invariant data[..bytesReceived] == old(socket.incoming)[..bytesReceived]
      decreases bytesRemaining, socket.interrupts
    {
      var received, interrupted := socket.Recv(data, bytesReceived, bytesRemaining);
      if received == 0 {
        return 0;
      }
      if received < 0 {
        if interrupted {
          continue;
        }
        return -1;
      }
      bytesReceived := bytesReceived + received;
      bytesRemaining := bytesRemaining - received;
    }
    return bytesReceived;
  }

  /** The frames a byte stream carries; a frame cut short by the end is lost, and a
      byte that is no header is skipped. */
  function DecodeStream(bytes: seq<byte>): seq<Frame> {
    if bytes == [] then []
    else if bytes[0] == HEADER_MESSAGE then
      if |bytes| < 1 + PACKET_SIZE then []
      else [MessageFrame(DecodePacket(bytes[1..1 + PACKET_SIZE]))] + DecodeStream(bytes[1 + PACKET_SIZE..])
    else if bytes[0] == HEADER_SUBSCRIBE_ACK then
      if |bytes| < 1 + REQUEST_SIZE then []
      else [AckFrame(DecodeRequest(bytes[1..1 + REQUEST_SIZE]))] + DecodeStream(bytes[1 + REQUEST_SIZE..])
    else DecodeStream(bytes[1..])
  }

  /** The receiving half of the subscriber program: everything it shows. */
  class Subscriber {
    const socket: Socket
    var shown: seq<Frame>

    constructor (socket: Socket)
      ensures this.socket == socket && shown == []
    {
      this.socket, shown := socket, [];
    }

    method ReceiveMessage() returns (rc: int)
      modifies this`shown, socket`incoming, socket`interrupts
      ensures if |old(socket.incoming)| < PACKET_SIZE then
          rc < 0 && shown == old(shown) && socket.incoming == []
        else
          && rc == 0 && socket.incoming == old(socket.incoming)[PACKET_SIZE..]
          && shown == old(shown) + [MessageFrame(DecodePacket(old(socket.incoming)[..PACKET_SIZE]))]
    {
      var packet := new byte[PACKET_SIZE];
      rc := RecvAll(socket, packet, PACKET_SIZE);
      if rc <= 0 {
        return -1;
      }
      assert packet[..] == packet[..PACKET_SIZE];
      shown := shown + [MessageFrame(DecodePacket(packet[..]))];
      return 0;
    }

    method ReceiveSubscribeAck() returns (rc: int)
      modifies this`shown, socket`incoming, socket`interrupts
      ensures if |old(socket.incoming)| < REQUEST_SIZE then
          rc < 0 && shown == old(shown) && socket.incoming == []
        else
          && rc == 0 && socket.incoming == old(socket.incoming)[REQUEST_SIZE..]
          && shown == old(shown) + [AckFrame(DecodeRequest(old(socket.incoming)[..REQUEST_SIZE]))]
    {
      var request := new byte[REQUEST_SIZE];
      rc := RecvAll(socket, request, REQUEST_SIZE);
      if rc <= 0 {
        return -1;
      }
      assert request[..] == request[..REQUEST_SIZE];
      shown := shown + [AckFrame(DecodeRequest(request[..]))];
      return 0;
    }

    /** The loop of `main`, restricted to the socket: dispatch on one header byte. */
    method Run()
      modifies this`shown, socket`incoming, socket`interrupts
      ensures shown == old(shown) + DecodeStream(old(socket.incoming))
      ensures socket.incoming == []
    {
      hide DecodeStream, DecodePacket, DecodeRequest;
      var header := new byte[1];
      DecodeNothing();
      while true
        invariant shown + DecodeStream(socket.incoming) == old(shown) + DecodeStream(old(socket.incoming))
        decreases |socket.incoming|
      {
        ghost var coming, before := socket.incoming, shown;
        var rc := RecvAll(socket, header, 1);
        if rc <= 0 {
          break;
        }
        assert header[..1][0] == coming[0];
        if header[0] == HEADER_MESSAGE {
          rc := ReceiveMessage();
        } else if header[0] == HEADER_SUBSCRIBE_ACK {
          rc := ReceiveSubscribeAck();
        }
        DecodeStep(coming);
        AppendAssociates(before, shown[|before|..], DecodeStream(socket.incoming));
        if rc < 0 {
          break;
        }
      }
    }
  }

  /** How much of the stream the frame at its start takes, and what it shows. */
  lemma DecodeStep(bytes: seq<byte>)
    requires bytes != []
    ensures var rest := bytes[1..];
      DecodeStream(bytes) ==
        if bytes[0] == HEADER_MESSAGE then
          if |rest| < PACKET_SIZE then []
          else [MessageFrame(DecodePacket(rest[..PACKET_SIZE]))] + DecodeStream(rest[PACKET_SIZE..])
        else if bytes[0] == HEADER_SUBSCRIBE_ACK then
          if |rest| < REQUEST_SIZE then []
          else [AckFrame(DecodeRequest(rest[..REQUEST_SIZE]))] + DecodeStream(rest[REQUEST_SIZE..])
        else DecodeStream(rest)
  {
    var rest := bytes[1..];
    if |rest| >= PACKET_SIZE {
      assert rest[..PACKET_SIZE] == bytes[1..1 + PACKET_SIZE];
      assert rest[PACKET_SIZE..] == bytes[1 + PACKET_SIZE..];
    }
    if |rest| >= REQUEST_SIZE {
      assert rest[..REQUEST_SIZE] == bytes[1..1 + REQUEST_SIZE];
      assert rest[REQUEST_SIZE..] == bytes[1 + REQUEST_SIZE..];
    }
  }

  /** A byte that announces no frame is skipped. */
  lemma UnknownHeader(b: byte, rest: seq<byte>)
    requires b > 1
    ensures DecodeStream([b] + rest) == DecodeStream(rest)
  {
    assert ([b] + rest)[1..] == rest;
  }

  /** How many of the frames are wholly within the first `n` bytes of their encoding. */
  function Complete(frames: seq<Frame>, n: nat): (k: nat)
    ensures k <= |frames|
  {
    if frames == [] || n < |EncodeFrame(frames[0])| then 0
    else 1 + Complete(frames[1..], n - |EncodeFrame(frames[0])|)
  }

  /** `Complete` is the last frame boundary within the first `n` bytes. */
  lemma {:induction false} CompleteIsLast(frames: seq<Frame>, n: nat)
    ensures var k := Complete(frames, n);
      && |EncodeFrames(frames[..k])| <= n
      && (k < |frames| ==> n < |EncodeFrames(frames[..k + 1])|)
      && (n >= |EncodeFrames(frames)| ==> k == |frames|)
  {
    if frames != [] {
      var size := |EncodeFrame(frames[0])|;
      if n < size {
        assert frames[..1] == [frames[0]] && frames[..1][1..] == [];
      } else {
        var k := Complete(frames[1..], n - size);
        CompleteIsLast(frames[1..], n - size);
        assert frames[..k + 1][1..] == frames[1..][..k];
        if k < |frames[1..]| {
          assert frames[..k + 2][1..] == frames[1..][..k + 1];
        }
      }
    }
  }

  lemma BodyRoundTrip(f: Frame)
    requires f.Packed()
    ensures f.MessageFrame? ==> DecodePacket(Body(f)) == f.packet
    ensures f.AckFrame? ==> DecodeRequest(Body(f)) == f.request
  {
    if f.MessageFrame? {
      PacketRoundTrip(f.packet);
    }
  }

  /** A whole frame at the start of the stream is shown, and the rest follows. */
  lemma DecodeWhole(f: Frame, rest: seq<byte>)
    requires f.Packed()
    ensures DecodeStream(EncodeFrame(f) + rest) == [f] + DecodeStream(rest)
  {
    hide DecodeStream, EncodePacket, DecodePacket, EncodeRequest, DecodeRequest;
    var bytes := EncodeFrame(f) + rest;
    assert bytes[1..] == Body(f) + rest;
    DecodeStep(bytes);
    BodyRoundTrip(f);
  }

  /** Part of one frame shows nothing. */
  lemma DecodePart(f: Frame, n: nat)
    requires f.Packed() && n < |EncodeFrame(f)|
    ensures DecodeStream(EncodeFrame(f)[..n]) == []
  {
  }

  /** Cut anywhere, a stream of frames decodes to exactly its complete frames. */
  lemma {:induction false} DecodeCut(frames: seq<Frame>, n: nat)
    requires AllPacked(frames)
    requires n <= |EncodeFrames(frames)|
    ensures DecodeStream(EncodeFrames(frames)[..n]) == frames[..Complete(frames, n)]
  {
    hide DecodeStream, EncodeFrame;
    if frames == [] {
      DecodeNothing();
    } else {
      var f, rest := frames[0], frames[1..];
      var size := |EncodeFrame(f)|;
      assert f in frames && forall g :: g in rest ==> g in frames;
      if n < size {
        assert EncodeFrames(frames)[..n] == EncodeFrame(f)[..n];
        DecodePart(f, n);
      } else {
        assert EncodeFrames(frames)[..n] == EncodeFrame(f) + EncodeFrames(rest)[..n - size];
        DecodeCut(rest, n - size);
        DecodeWhole(f, EncodeFrames(rest)[..n - size]);
        assert frames[..Complete(frames, n)] == [f] + rest[..Complete(rest, n - size)];
      }
    }
  }

  lemma DecodeNothing()
    ensures DecodeStream([]) == []
  {
  }

  /** The whole stream decodes to the frames that were written, in order. */
  lemma StreamRoundTrip(frames: seq<Frame>)
    requires AllPacked(frames)
    ensures DecodeStream(EncodeFrames(frames)) == frames
  {
    var all := EncodeFrames(frames);
    DecodeCut(frames, |all|);
    CompleteIsLast(frames, |all|);
    assert all[..|all|] == all && frames[..|frames|] == frames;
  }
}
