/** The packed structs that travel over the wire and the frames built from them. */
module Wire {
  type byte = b: int | 0 <= b < 256

  const ID_LENGTH := 10
  const MAX_TOPIC_LENGTH := 50
  const MAX_CONTENT_LENGTH := 1500

  const HEADER_MESSAGE: byte := 0
  const HEADER_SUBSCRIBE_ACK: byte := 1

  const OPERATION_SUBSCRIBE: byte := 0
  const OPERATION_UNSUBSCRIBE: byte := 1
  const OPERATION_ACK_SUB: byte := 2
  const OPERATION_ACK_UNSUB: byte := 3

  const PACKET_SIZE := 1557
  const REQUEST_SIZE := 52

  /** `message`, as one UDP datagram carries it. */
  datatype Message = Message(topic: seq<byte>, dataType: byte, content: seq<byte>) {
    predicate Packed() {
      |topic| == MAX_TOPIC_LENGTH && |content| == MAX_CONTENT_LENGTH
    }
  }

  /** `message_with_header`; address and port keep the network's byte order. */
  datatype Packet = Packet(sourceIp: seq<byte>, sourcePort: seq<byte>, msg: Message) {
    predicate Packed() {
      |sourceIp| == 4 && |sourcePort| == 2 && msg.Packed()
    }
  }

  /** `subcribe_request`: requests from clients, and acknowledgements to them. */
  datatype SubscribeRequest = SubscribeRequest(operation: byte, topic: seq<byte>) {
    predicate Packed() {
      |topic| == MAX_TOPIC_LENGTH + 1
    }
  }

  datatype Frame = MessageFrame(packet: Packet) | AckFrame(request: SubscribeRequest) {
    predicate Packed() {
      match this
      case MessageFrame(packet) => packet.Packed()
      case AckFrame(request) => request.Packed()
    }
  }

  predicate AllPacked(frames: seq<Frame>) {
    forall f :: f in frames ==> f.Packed()
  }

  function EncodePacket(p: Packet): (bytes: seq<byte>)
    ensures p.Packed() ==> |bytes| == PACKET_SIZE
  {
    p.sourceIp + p.sourcePort + p.msg.topic + [p.msg.dataType] + p.msg.content
  }

  /** The struct overlaid on a full buffer. */
  function DecodePacket(bytes: seq<byte>): (p: Packet)
    requires |bytes| == PACKET_SIZE
    ensures p.Packed()
  {
    Packet(bytes[..4], bytes[4..6], Message(bytes[6..56], bytes[56], bytes[57..]))
  }

  lemma PacketRoundTrip(p: Packet)
    requires p.Packed()
    ensures DecodePacket(EncodePacket(p)) == p
  {
    var bytes := EncodePacket(p);
    assert bytes[..4] == p.sourceIp;
    assert bytes[4..6] == p.sourcePort;
    assert bytes[6..56] == p.msg.topic;
    assert bytes[57..] == p.msg.content;
  }

  lemma PacketOfBytes(bytes: seq<byte>)
    requires |bytes| == PACKET_SIZE
    ensures EncodePacket(DecodePacket(bytes)) == bytes
  {
  }

  function EncodeRequest(r: SubscribeRequest): (bytes: seq<byte>)
    ensures r.Packed() ==> |bytes| == REQUEST_SIZE
  {
    [r.operation] + r.topic
  }

  function DecodeRequest(bytes: seq<byte>): (r: SubscribeRequest)
    requires |bytes| == REQUEST_SIZE
    ensures r.Packed() && EncodeRequest(r) == bytes
  {
    SubscribeRequest(bytes[0], bytes[1..])
  }

  /** The one-byte header that tells the two kinds of frame apart. */
  function Header(f: Frame): byte {
    if f.MessageFrame? then HEADER_MESSAGE else HEADER_SUBSCRIBE_ACK
  }

  function Body(f: Frame): seq<byte> {
    match f
    case MessageFrame(packet) => EncodePacket(packet)
    case AckFrame(request) => EncodeRequest(request)
  }

  function EncodeFrame(f: Frame): seq<byte> {
    [Header(f)] + Body(f)
  }

  function EncodeFrames(fs: seq<Frame>): seq<byte> {
    if fs == [] then [] else EncodeFrame(fs[0]) + EncodeFrames(fs[1..])
  }

  /** The C string at the start of a buffer: the characters before the first NUL,
      or before the end of a buffer that has none. */
  function CString(bytes: seq<byte>): string {
    if bytes == [] || bytes[0] == 0 then "" else [bytes[0] as char] + CString(bytes[1..])
  }

  /** The topic of a message: `strnlen` copes with one that fills its field. */
  function TopicOf(m: Message): string {
    CString(m.topic)
  }

  /** The buffer begins with the characters of `s`, none of them NUL, and then holds a NUL
      or ends. */
  predicate Spells(bytes: seq<byte>, s: string) {
    && |s| <= |bytes|
    && (forall k :: 0 <= k < |s| ==> bytes[k] != 0 && s[k] == bytes[k] as char)
    && (|s| < |bytes| ==> bytes[|s|] == 0)
  }

  /** What a C string reads is what the buffer spells. */
  lemma {:induction false} CStringSpelled(bytes: seq<byte>, s: string)
    ensures CString(bytes) == s <==> Spells(bytes, s)
  {
    if bytes != [] && bytes[0] != 0 {
      CStringSpelled(bytes[1..], CString(bytes[1..]));
      if s != "" {
        CStringSpelled(bytes[1..], s[1..]);
        assert s == [s[0]] + s[1..];
      }
    }
  }

  /** The topic of a message is what its field spells, also when the topic fills it. */
  lemma TopicSpelled(m: Message, s: string)
    requires m.Packed()
    ensures TopicOf(m) == s <==>
      && |s| <= 50
      && (forall k :: 0 <= k < |s| ==> m.topic[k] != 0 && s[k] == m.topic[k] as char)
      && (|s| < 50 ==> m.topic[|s|] == 0)
  {
    CStringSpelled(m.topic, s);
  }

  /** Where everything is in the bytes of a message frame. */
  lemma MessageLayout(p: Packet)
    requires p.Packed()
    ensures var bytes := EncodeFrame(MessageFrame(p));
      && |bytes| == 1558 && bytes[0] == 0
      && bytes[1..5] == p.sourceIp && bytes[5..7] == p.sourcePort
      && bytes[7..57] == p.msg.topic && bytes[57] == p.msg.dataType && bytes[58..] == p.msg.content
  {
    PacketRoundTrip(p);
    var bytes, packet := EncodeFrame(MessageFrame(p)), EncodePacket(p);
    assert bytes[1..] == packet;
    assert bytes[1..5] == packet[..4] && bytes[5..7] == packet[4..6] && bytes[7..57] == packet[6..56];
    assert bytes[58..] == packet[57..];
  }

  /** And in the bytes of a request, and of an acknowledgement. */
  lemma RequestLayout(r: SubscribeRequest)
    requires r.Packed()
    ensures |EncodeRequest(r)| == 52 && EncodeRequest(r)[0] == r.operation && EncodeRequest(r)[1..] == r.topic
    ensures EncodeFrame(AckFrame(r)) == [1] + EncodeRequest(r)
  {
  }
}
