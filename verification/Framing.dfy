/** When a subscriber stays in step with the frames sent to it, although a `send` may fail
    and the connection go on. */
module Framing {
  import opened Lists
  import opened Stream
  import opened Wire

  /** Whatever is sent next over the connection is shown as it was sent. */
  ghost predicate InStep(bytes: seq<byte>) {
    forall more :: AllPacked(more) ==> DecodeStream(bytes + EncodeFrames(more)) == DecodeStream(bytes) + more
  }

  /** The incomplete frame that the end of the bytes leaves the receiver in. */
  function Residue(bytes: seq<byte>): seq<byte> {
    if bytes == [] then []
    else if bytes[0] == HEADER_MESSAGE then
      if |bytes| < 1 + PACKET_SIZE then bytes else Residue(bytes[1 + PACKET_SIZE..])
    else if bytes[0] == HEADER_SUBSCRIBE_ACK then
      if |bytes| < 1 + REQUEST_SIZE then bytes else Residue(bytes[1 + REQUEST_SIZE..])
    else Residue(bytes[1..])
  }

  /** The size of the frame that a byte announces; other bytes are skipped alone. */
  function Announced(b: byte): nat {
    if b == HEADER_MESSAGE then 1 + PACKET_SIZE else if b == HEADER_SUBSCRIBE_ACK then 1 + REQUEST_SIZE else 1
  }

  predicate LooksLikeHeader(b: byte) {
    b == HEADER_MESSAGE || b == HEADER_SUBSCRIBE_ACK
  }

  lemma {:induction false} ResidueIsPart(bytes: seq<byte>)
    ensures var r := Residue(bytes);
      r != [] ==> LooksLikeHeader(r[0]) && |r| < Announced(r[0])
    decreases |bytes|
  {
    if bytes != [] && |bytes| >= Announced(bytes[0]) {
      ResidueIsPart(bytes[Announced(bytes[0])..]);
    }
  }

  /** What a whole unit shows: a frame, or nothing when it is a skipped byte. */
  function Shows(unit: seq<byte>): seq<Frame>
    requires unit != [] && |unit| == Announced(unit[0])
  {
    if unit[0] == HEADER_MESSAGE then [MessageFrame(DecodePacket(unit[1..]))]
    else if unit[0] == HEADER_SUBSCRIBE_ACK then [AckFrame(DecodeRequest(unit[1..]))]
    else []
  }

  lemma DecodeUnit(bytes: seq<byte>)
    requires bytes != []
    ensures var n := Announced(bytes[0]);
      DecodeStream(bytes) == if |bytes| < n then [] else Shows(bytes[..n]) + DecodeStream(bytes[n..])
  {
    hide DecodeStream, DecodePacket, DecodeRequest, Shows;
    DecodeStep(bytes);
    if |bytes| >= Announced(bytes[0]) {
      SliceTwice(bytes, 1, Announced(bytes[0]));
      ShowsFirst(bytes[..Announced(bytes[0])], bytes);
    }
  }

  lemma ShowsFirst(unit: seq<byte>, bytes: seq<byte>)
    requires bytes != [] && |bytes| >= Announced(bytes[0]) && unit == bytes[..Announced(bytes[0])]
    ensures var rest := bytes[1..];
      Shows(unit) ==
        if bytes[0] == HEADER_MESSAGE then [MessageFrame(DecodePacket(rest[..PACKET_SIZE]))]
        else if bytes[0] == HEADER_SUBSCRIBE_ACK then [AckFrame(DecodeRequest(rest[..REQUEST_SIZE]))]
        else []
  {
    hide DecodePacket, DecodeRequest;
    SliceTwice(bytes, 1, |unit|);
  }

  lemma SliceTwice(bytes: seq<byte>, m: nat, n: nat)
    requires m <= n <= |bytes|
    ensures bytes[..n][m..] == bytes[m..][..n - m] && bytes[m..][n - m..] == bytes[n..]
  {
  }

  lemma ResidueUnit(bytes: seq<byte>)
    requires bytes != []
    ensures var n := Announced(bytes[0]);
      Residue(bytes) == if |bytes| < n then bytes else Residue(bytes[n..])
  {
  }

  /** What the first bytes show does not depend on what follows, and what follows is
      read from the residue on. */
  lemma {:induction false} DecodeOn(a: seq<byte>, b: seq<byte>)
    ensures DecodeStream(a + b) == DecodeStream(a) + DecodeStream(Residue(a) + b)
    ensures Residue(a + b) == Residue(Residue(a) + b)
    decreases |a|
  {
    if a == [] {
      assert a + b == b;
    } else {
      hide DecodeStream, Residue, Shows;
      DecodeUnit(a);
      ResidueUnit(a);
      var n := Announced(a[0]);
      if |a| >= n {
        DecodeUnit(a + b);
        ResidueUnit(a + b);
        DecodeOn(a[n..], b);
        CutFirst(a, b, n);
        AppendAssociates(Shows(a[..n]), DecodeStream(a[n..]), DecodeStream(Residue(a) + b));
      } else {
        DecodeShort(a, b);
      }
    }
  }

  lemma CutFirst(a: seq<byte>, b: seq<byte>, n: nat)
    requires n <= |a|
    ensures (a + b)[..n] == a[..n] && (a + b)[n..] == a[n..] + b
    ensures a != [] ==> (a + b)[0] == a[0]
  {
  }

  lemma DecodeShort(a: seq<byte>, b: seq<byte>)
    requires DecodeStream(a) == []
    ensures DecodeStream(a) + DecodeStream(a + b) == DecodeStream(a + b)
  {
  }

  /** The receiver is in step exactly when no frame is left incomplete. */
  lemma InStepExactly(bytes: seq<byte>)
    ensures InStep(bytes) <==> Residue(bytes) == []
  {
    hide DecodeStream, EncodeFrames, Residue;
    var r, shown := Residue(bytes), DecodeStream(bytes);
    if r == [] {
      forall more | AllPacked(more)
        ensures DecodeStream(bytes + EncodeFrames(more)) == shown + more
      {
        DecodeOn(bytes, EncodeFrames(more));
        StreamRoundTrip(more);
        assert r + EncodeFrames(more) == EncodeFrames(more);
      }
    } else {
      var f := MessageFrame(DecodePacket(Twos()));
      var garbled := DecodeStream(r + EncodeFrames([f]));
      ResidueIsPart(bytes);
      DecodeOn(bytes, EncodeFrames([f]));
      NextIsGarbled(r, f);
      assert (shown + garbled)[|shown|..] == garbled && (shown + [f])[|shown|..] == [f];
    }
  }

  function Twos(): (body: seq<byte>)
    ensures |body| == PACKET_SIZE
  {
    seq(PACKET_SIZE, _ => 2)
  }

  /** A message whose body holds no 0 is not shown behind an incomplete frame. */
  lemma NextIsGarbled(r: seq<byte>, f: Frame)
    requires r != [] && LooksLikeHeader(r[0]) && |r| < Announced(r[0])
    requires f == MessageFrame(DecodePacket(Twos()))
    ensures AllPacked([f]) && DecodeStream(r + EncodeFrames([f])) != [f]
  {
    hide DecodeStream, DecodePacket, EncodePacket;
    PacketOfBytes(Twos());
    assert EncodeFrames([f]) == [HEADER_MESSAGE] + Twos();
    var bytes := r + EncodeFrames([f]);
    DecodeStep(bytes);
    if r[0] == HEADER_MESSAGE {
      PacketOfBytes(bytes[1..][..PACKET_SIZE]);
      assert bytes[1..][..PACKET_SIZE][|r| - 1] == HEADER_MESSAGE && Twos()[|r| - 1] == 2;
    }
  }

  /** The part of the frame that got through may be taken for a frame, or the start of one,
      and the connection goes on. */
  predicate Torn(line: Line, limit: nat, f: Frame)
    requires |line.sent| <= limit
  {
    var next := Push(line, limit, [Header(f)]);
    && |PushFrame(line, limit, f).sent| < limit
    && if Accepts(line, limit, [Header(f)]) then !Accepts(next, limit, Body(f))
       else f.AckFrame? && exists b :: b in Push(next, limit, Body(f)).sent[|line.sent|..] && LooksLikeHeader(b)
  }

  // One frame.

  lemma WholeFrame(f: Frame)
    requires f.Packed()
    ensures DecodeStream(EncodeFrame(f)) == [f] && Residue(EncodeFrame(f)) == []
  {
    hide DecodeStream;
    DecodeWhole(f, []);
    DecodeNothing();
    assert EncodeFrame(f) + [] == EncodeFrame(f);
  }

  lemma PartOfFrame(f: Frame, n: nat)
    requires f.Packed() && n <= |Body(f)|
    ensures n < |Body(f)| ==>
      DecodeStream([Header(f)] + Body(f)[..n]) == [] && Residue([Header(f)] + Body(f)[..n]) != []
  {
  }

  /** The body of an acknowledgement without its header shows nothing, and leaves the
      receiver in step if and only if nothing in it looks like a header. */
  lemma {:induction false} Headerless(body: seq<byte>)
    requires |body| <= REQUEST_SIZE
    ensures DecodeStream(body) == []
    ensures Residue(body) == [] <==> !exists b :: b in body && LooksLikeHeader(b)
    decreases |body|
  {
    if body != [] && !LooksLikeHeader(body[0]) {
      Headerless(body[1..]);
      assert body == [body[0]] + body[1..];
    }
  }

  /** What `sendall` adds to the connection: a part of the data, all of it if accepted. */
  lemma PushAdds(line: Line, limit: nat, data: seq<byte>) returns (n: nat)
    requires |line.sent| <= limit
    ensures n <= |data| && Push(line, limit, data).sent == line.sent + data[..n]
    ensures Accepts(line, limit, data) <==> n == |data|
  {
    n := if Accepts(line, limit, data) then |data| else Stop(line, limit) - |line.sent|;
  }

  /** One frame is shown if and only if it got through whole, and the receiver stays in
      step if and only if it is not torn. */
  lemma FrameShown(line: Line, limit: nat, f: Frame)
    requires |line.sent| <= limit && f.Packed() && Residue(line.sent) == []
    ensures var after := PushFrame(line, limit, f);
      && DecodeStream(after.sent) == DecodeStream(line.sent) + (if Whole(line, limit, f) then [f] else [])
      && (|after.sent| < limit ==> (Residue(after.sent) == [] <==> !Torn(line, limit, f)))
      && (|after.sent| == limit ==> !Torn(line, limit, f))
  {
    hide DecodeStream, Residue, Push, Accepts, LooksLikeHeader, Body;
    var header, body, next := [Header(f)], Body(f), Push(line, limit, [Header(f)]);
    var i := PushAdds(line, limit, header);
    var j := PushAdds(next, limit, body);
    var piece := if i == 1 then header + body[..j] else if f.MessageFrame? then [] else body[..j];
    assert PushFrame(line, limit, f).sent == line.sent + piece;
    DecodeOn(line.sent, piece);
    assert [] + piece == piece;
    if i == 1 {
      WholeFrame(f);
      PartOfFrame(f, j);
      assert body[..|body|] == body;
    } else if f.MessageFrame? {
      NothingLeft();
    } else {
      AckSize(f);
      Headerless(body[..j]);
    }
  }

  lemma NothingLeft()
    ensures DecodeStream([]) == [] && Residue([]) == []
  {
  }

  lemma AckSize(f: Frame)
    requires f.Packed() && f.AckFrame?
    ensures |Body(f)| == REQUEST_SIZE
  {
  }

  /** The return code that an acknowledgement ignores: when only its header fails, its body
      puts the receiver out of step, because the topic in it ends with a NUL. A message,
      which is given up then, never does. */
  lemma HeaderLost(line: Line, limit: nat, f: Frame)
    requires |line.sent| <= limit && f.Packed() && !Accepts(line, limit, [Header(f)])
    ensures f.MessageFrame? ==> PushFrame(line, limit, f).sent == line.sent && !Torn(line, limit, f)
    ensures var next := Push(line, limit, [Header(f)]);
      f.AckFrame? && 0 in f.request.topic && Accepts(next, limit, Body(f)) ==>
        && PushFrame(line, limit, f).sent == line.sent + Body(f)
        && (|line.sent + Body(f)| < limit ==> Torn(line, limit, f))
  {
    var next := Push(line, limit, [Header(f)]);
    assert next.sent == line.sent;
    if f.AckFrame? && 0 in f.request.topic && Accepts(next, limit, Body(f)) {
      assert (line.sent + Body(f))[|line.sent|..] == Body(f);
      assert LooksLikeHeader(0) && 0 in Body(f);
    }
  }

  // Whole connections.

  /** After each frame of the list the receiver is in step, while the connection holds. */
  ghost predicate AlwaysInStep(line: Line, limit: nat, frames: seq<Frame>)
    requires |line.sent| <= limit
    decreases |frames|
  {
    |line.sent| < limit ==>
      && InStep(line.sent)
      && (frames == [] || AlwaysInStep(PushFrame(line, limit, frames[0]), limit, frames[1..]))
  }

  predicate NeverTorn(line: Line, limit: nat, frames: seq<Frame>)
    requires |line.sent| <= limit
    decreases |frames|
  {
    frames == [] ||
      (!Torn(line, limit, frames[0]) && NeverTorn(PushFrame(line, limit, frames[0]), limit, frames[1..]))
  }

  /** The frames that get through whole. */
  function Kept(line: Line, limit: nat, frames: seq<Frame>): seq<Frame>
    requires |line.sent| <= limit
    decreases |frames|
  {
    if frames == [] then []
    else (if Whole(line, limit, frames[0]) then [frames[0]] else [])
         + Kept(PushFrame(line, limit, frames[0]), limit, frames[1..])
  }

  /** Nothing changes once the connection is broken. */
  lemma {:induction false} Broken(line: Line, limit: nat, frames: seq<Frame>)
    requires |line.sent| == limit && AllPacked(frames)
    ensures PushFrames(line, limit, frames) == line
    ensures Kept(line, limit, frames) == [] && NeverTorn(line, limit, frames)
    decreases |frames|
  {
    if frames != [] {
      BrokenFrame(line, limit, frames[0]);
      Broken(line, limit, frames[1..]);
    }
  }

  lemma BrokenFrame(line: Line, limit: nat, f: Frame)
    requires |line.sent| == limit && f.Packed()
    ensures PushFrame(line, limit, f) == line
    ensures !Whole(line, limit, f) && !Torn(line, limit, f)
  {
  }

  /** Along a connection the receiver is in step throughout if and only if no frame is torn. */
  lemma {:induction false} InStepThroughout(line: Line, limit: nat, frames: seq<Frame>)
    requires |line.sent| <= limit && AllPacked(frames) && InStep(line.sent)
    ensures AlwaysInStep(line, limit, frames) <==> NeverTorn(line, limit, frames)
    decreases |frames|
  {
    hide Torn, PushFrame, InStep;
    if |line.sent| == limit {
      Broken(line, limit, frames);
    } else if frames != [] {
      var next := PushFrame(line, limit, frames[0]);
      InStepExactly(line.sent);
      InStepExactly(next.sent);
      FrameShown(line, limit, frames[0]);
      if |next.sent| == limit {
        Broken(next, limit, frames[1..]);
      } else if InStep(next.sent) {
        InStepThroughout(next, limit, frames[1..]);
      }
    }
  }

  /** As long as no frame is torn, exactly the frames that got through whole are shown. */
  lemma {:induction false} KeptAreShown(line: Line, limit: nat, frames: seq<Frame>)
    requires |line.sent| <= limit && AllPacked(frames)
    requires InStep(line.sent) && NeverTorn(line, limit, frames)
    ensures DecodeStream(PushFrames(line, limit, frames).sent)
         == DecodeStream(line.sent) + Kept(line, limit, frames)
    decreases |frames|
  {
    hide Torn, PushFrame, InStep, DecodeStream, Whole;
    if frames != [] {
      var next := PushFrame(line, limit, frames[0]);
      InStepExactly(line.sent);
      InStepExactly(next.sent);
      FrameShown(line, limit, frames[0]);
      if |next.sent| == limit {
        Broken(next, limit, frames[1..]);
      } else {
        KeptAreShown(next, limit, frames[1..]);
      }
    }
  }

  /** One connection, sending half and receiving half together. Sends fail at the faults,
      the sender's connection breaks after `limit` bytes, the first `arriving` of the bytes
      it took reach the subscriber, and the kernel cuts them anywhere on both sides. Unless
      a frame is torn, the subscriber is shown exactly the frames that got through whole;
      without faults, the ones that arrived. */
  method Converse(frames: seq<Frame>, limit: nat, faults: seq<nat>, arriving: nat, interrupts: nat, reset: bool)
    returns (shown: seq<Frame>)
    requires AllPacked(frames)
    ensures var line := Line([], faults);
      NeverTorn(line, limit, frames) ==>
        && shown <= Kept(line, limit, frames)
        && (|PushFrames(line, limit, frames).sent| <= arriving ==> shown == Kept(line, limit, frames))
    ensures faults == [] ==>
      && shown == frames[..Complete(frames, |Taken(Taken(EncodeFrames(frames), limit), arriving)|)]
      && (|EncodeFrames(frames)| <= limit && |EncodeFrames(frames)| <= arriving ==> shown == frames)
  {
    hide EncodeFrames, DecodeStream, Complete, PushFrames, NeverTorn, Kept;
    var server := new Socket(limit, faults, [], 0, false);
    SendFrames(server, frames);
    var client := new Socket(0, [], Taken(server.sent, arriving), interrupts, reset);
    var subscriber := new Subscriber(client);
    subscriber.Run();
    shown := subscriber.shown;
    assert [] + DecodeStream(Taken(server.sent, arriving)) == DecodeStream(Taken(server.sent, arriving));
    if NeverTorn(Line([], faults), limit, frames) {
      UntornConversation(frames, limit, faults, arriving);
    }
    FaultlessConversation(frames, limit, arriving);
  }

  lemma UntornConversation(frames: seq<Frame>, limit: nat, faults: seq<nat>, arriving: nat)
    requires AllPacked(frames) && NeverTorn(Line([], faults), limit, frames)
    ensures var line := Line([], faults);
      var sent := PushFrames(line, limit, frames).sent;
      && DecodeStream(Taken(sent, arriving)) <= Kept(line, limit, frames)
      && (|sent| <= arriving ==> DecodeStream(sent) == Kept(line, limit, frames))
  {
    hide PushFrames, NeverTorn, Kept, DecodeStream, Residue, InStep;
    var sent := PushFrames(Line([], faults), limit, frames).sent;
    NothingLeft();
    InStepExactly([]);
    KeptAreShown(Line([], faults), limit, frames);
    assert [] + Kept(Line([], faults), limit, frames) == Kept(Line([], faults), limit, frames);
    if |sent| > arriving {
      DecodeOn(sent[..arriving], sent[arriving..]);
      assert sent == sent[..arriving] + sent[arriving..];
    }
  }

  lemma FaultlessConversation(frames: seq<Frame>, limit: nat, arriving: nat)
    requires AllPacked(frames)
    ensures var all := EncodeFrames(frames);
      var sent := PushFrames(Line([], []), limit, frames).sent;
      && DecodeStream(Taken(sent, arriving)) == frames[..Complete(frames, |Taken(Taken(all, limit), arriving)|)]
      && (|all| <= limit && |all| <= arriving ==> DecodeStream(Taken(sent, arriving)) == frames)
  {
    hide EncodeFrames, DecodeStream, Complete, PushFrames;
    WithoutFaults(Line([], []), limit, frames);
    assert [] + EncodeFrames(frames) == EncodeFrames(frames);
    var n := |Taken(Taken(EncodeFrames(frames), limit), arriving)|;
    assert Taken(Taken(EncodeFrames(frames), limit), arriving) == EncodeFrames(frames)[..n];
    DecodeCut(frames, n);
    CompleteIsLast(frames, n);
    assert frames[..|frames|] == frames;
  }
}
