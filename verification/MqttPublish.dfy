/** PUBLISH packets: what the client writes and what the server side reads back. */
module MqttPublish {
  import opened Common
  import opened MqttWire

  const BUFFER_TOO_SHORT: int := -2

  datatype Publish = Publish(dup: nat, qos: nat, retained: nat, packetId: Option<nat>,
                             topic: seq<Byte>, payloadLen: int, payload: seq<Byte>)

  // ---------- Packets in general ----------

  /** A fixed header, the remaining length, and the rest. */
  function Frame(header: Byte, body: seq<Byte>): seq<Byte> { [header] + Encode(|body|) + body }

  lemma FrameReads(header: Byte, body: seq<Byte>, buf: seq<Byte>)
    requires StandsAt(buf, 0, Frame(header, body)) && |body| <= MAX_REMAINING
    ensures var at := 1 + |Encode(|body|)|;
            ReadChar(buf, 0) == Got(header, 1) && Decode(buf, 1) == Got(|body|, at) && StandsAt(buf, at, body) &&
            at + |body| <= |buf|
  {
    var length := Encode(|body|);
    StandsApart(buf, 0, [header] + length, body);
    StandsApart(buf, 0, [header], length);
    DecodeUndoesEncodeIff(|body|, buf, 1);
    assert [header][0] == buf[0];
  }

  // ---------- Writing ----------

  function PublishHeader(dup: nat, qos: nat, retained: nat): Byte { 48 + dup % 2 * 8 + qos % 4 * 2 + retained % 2 }

  function IdBytes(qos: nat, packetId: nat): seq<Byte> { if qos > 0 then IntBytes(packetId) else [] }

  function PublishBody(qos: nat, packetId: nat, topic: MqttString, payload: seq<Byte>): seq<Byte> {
    StringBytes(Text(topic)) + IdBytes(qos, packetId) + payload
  }

  /** MQTTSerialize_publishLength. */
  function PublishLength(qos: nat, topic: MqttString, payloadLen: nat): nat {
    2 + StrLen(topic) + payloadLen + (if qos > 0 then 2 else 0)
  }

  lemma PublishLengthIs(qos: nat, packetId: nat, topic: MqttString, payload: seq<Byte>)
    ensures |PublishBody(qos, packetId, topic, payload)| == PublishLength(qos, topic, |payload|) + Excess(topic)
    ensures PublishLength(qos, topic, |payload|) == |PublishBody(qos, packetId, topic, payload)| <==>
            |Text(topic)| == StrLen(topic)
  {
    hide Text, StrLen;
  }

  /** MQTTSerialize_publish: the packet, written inside the buffer, or an error and nothing written. */
  method SerializePublish(buf: array<Byte>, dup: nat, qos: nat, retained: nat, packetId: nat, topic: MqttString,
                          payload: seq<Byte>)
      returns (rc: int)
    requires WellFormed(topic) && Holds(PublishLength(qos, topic, |payload|), buf.Length)
    modifies buf
    ensures PacketLen(PublishLength(qos, topic, |payload|)) > buf.Length ==>
              rc == BUFFER_TOO_SHORT && buf[..] == old(buf[..])
    ensures PacketLen(PublishLength(qos, topic, |payload|)) <= buf.Length ==>
              0 <= rc <= buf.Length &&
              buf[..rc] == Frame(PublishHeader(dup, qos, retained), PublishBody(qos, packetId, topic, payload))
  {
    hide Encode, StringBytes, IntBytes, PacketLen, Text;
    var rem := PublishLength(qos, topic, |payload|);
    if PacketLen(rem) > buf.Length { return BUFFER_TOO_SHORT; }
    PublishLengthIs(qos, packetId, topic, payload);
    var w := new Writer(buf);
    ghost var head: seq<Byte> := [PublishHeader(dup, qos, retained)];
    w.WriteChar(PublishHeader(dup, qos, retained), []);
    assert [] + head == head;
    w.WriteLength(rem, head);
    ghost var front := head + Encode(rem);
    w.WriteString(topic, front);
    if qos > 0 { w.WriteInt(packetId, front + StringBytes(Text(topic))); }
    ghost var done := front + StringBytes(Text(topic)) + IdBytes(qos, packetId);
    w.WriteBytes(payload, done);
    Join(front + StringBytes(Text(topic)), IdBytes(qos, packetId), payload);
    Join(front, StringBytes(Text(topic)), IdBytes(qos, packetId) + payload);
    Join(StringBytes(Text(topic)), IdBytes(qos, packetId), payload);
    rc := w.pos;
  }

  // ---------- Reading ----------

  function ParsePublish(buf: seq<Byte>): Parsed<Publish> {
    match ReadChar(buf, 0)
    case Refused => Refused
    case PastEnd => PastEnd
    case Got(header, _) => if header / 16 != 3 then Refused else ParseAfterHeader(buf, header)
  }

  function ParseAfterHeader(buf: seq<Byte>, header: Byte): Parsed<Publish> {
    match Decode(buf, 1)
    case Refused => Refused
    case PastEnd => PastEnd
    case Got(rem, at) =>
      if at + rem > |buf| then PastEnd
      else
        match ReadString(buf, at, at + rem)
        case Refused => Refused
        case PastEnd => PastEnd
        case Got(topic, next) => ParsePayload(buf, header, topic, next, at + rem)
  }

  function ParsePayload(buf: seq<Byte>, header: Byte, topic: seq<Byte>, at: nat, end: nat): Parsed<Publish>
    requires at <= end <= |buf|
  {
    var dup, qos, retained := header / 8 % 2, header / 2 % 4, header % 2;
    if qos == 0 then Got(Publish(dup, qos, retained, None, topic, end - at, buf[at..end]), end)
    else
      match ReadInt(buf, at)
      case Refused => Refused
      case PastEnd => PastEnd
      case Got(id, next) =>
        Got(Publish(dup, qos, retained, Some(id), topic, end - next, if next <= end then buf[next..end] else []), end)
  }

  lemma HeaderFields(dup: nat, qos: nat, retained: nat)
    ensures var h := PublishHeader(dup, qos, retained);
            h / 16 == 3 && h / 8 % 2 == dup % 2 && h / 2 % 4 == qos % 4 && h % 2 == retained % 2
  {
    var d, q, r := dup % 2, qos % 4, retained % 2;
    assert 48 + d * 8 + q * 2 + r == 16 * 3 + (8 * d + 2 * q + r);
  }

  /** The fields given to the writer. */
  function Sent(dup: nat, qos: nat, retained: nat, packetId: nat, topic: MqttString, payload: seq<Byte>): Publish {
    Publish(dup, qos, retained, if qos > 0 then Some(packetId) else None, Text(topic), |payload|, payload)
  }

  /** Reading a written PUBLISH packet, whatever follows it, returns the fields sent exactly while QoS
      and flags fit their bits. */
  lemma PublishRoundTripIff(buf: seq<Byte>, dup: nat, qos: nat, retained: nat, packetId: nat,
                            topic: MqttString, payload: seq<Byte>)
    requires WellFormed(topic) && packetId < 65536 && PublishLength(qos, topic, |payload|) <= MAX_REMAINING
    requires StandsAt(buf, 0, Frame(PublishHeader(dup, qos, retained), PublishBody(qos, packetId, topic, payload)))
    ensures ParsePublish(buf).Got? && ParsePublish(buf).value == Sent(dup, qos, retained, packetId, topic, payload)
            <==> qos < 4 && dup < 2 && retained < 2
  {
    hide Encode, StringBytes, IntBytes, Text, Frame, StandsAt, ReadString, ReadInt, ReadChar, Decode;
    var header, body := PublishHeader(dup, qos, retained), PublishBody(qos, packetId, topic, payload);
    var text, id := Text(topic), IdBytes(qos, packetId);
    PublishLengthIs(qos, packetId, topic, payload);
    FrameReads(header, body, buf);
    HeaderFields(dup, qos, retained);
    var at := 1 + |Encode(|body|)|;
    StandsApart(buf, at, StringBytes(text) + id, payload);
    StandsApart(buf, at, StringBytes(text), id);
    ReadsStringBack(buf, at, text, at + |body|);
    if qos > 0 { ReadsIntBack(buf, at + 2 + |text|, packetId); }
    StandsSlice(buf, at + 2 + |text| + |id|, payload);
  }

  // ---------- The return code ----------

  /** What MQTTDeserialize_publish returns: 1 on success; but once the type matched, a refused packet
      leaves in rc the number of length bytes. */
  function PublishRc(buf: seq<Byte>): Parsed<nat> {
    match ReadChar(buf, 0)
    case Refused => Refused
    case PastEnd => PastEnd
    case Got(header, _) =>
      if header / 16 != 3 then Got(0, 1)
      else
        match ParsePublish(buf)
        case Got(_, next) => Got(1, next)
        case PastEnd => PastEnd
        case Refused =>
          match Decode(buf, 1)
          case Got(_, at) => Got(at - 1, at)
          case Refused => Refused
          case PastEnd => PastEnd
  }

  /** So a PUBLISH packet that is refused is reported as success exactly when its length field is one
      byte. */
  lemma RefusedLooksAcceptedIff(buf: seq<Byte>)
    requires |buf| >= 2 && buf[0] / 16 == 3 && ParsePublish(buf) == Refused
    ensures PublishRc(buf).Got? && (PublishRc(buf).value == 1 <==> buf[1] < 128)
  {
  }

  /** One such packet. */
  lemma RefusedLooksAccepted()
    ensures var buf := [0x30, 1, 0]; ParsePublish(buf) == Refused && PublishRc(buf) == Got(1, 2)
  {
    var buf: seq<Byte> := [0x30, 1, 0];
    assert Decode(buf, 1) == Got(1, 2);
    assert ReadString(buf, 2, 3) == Refused;
  }

  /** MQTTDeserialize_publish. */
  method DeserializePublish(buf: seq<Byte>) returns (rc: int, r: Parsed<Publish>)
    ensures r == ParsePublish(buf)
    ensures PublishRc(buf).Got? ==> rc == PublishRc(buf).value
  {
    hide ReadString, ReadInt, Decode;
    rc := 0;
    if |buf| == 0 { return 0, PastEnd; }
    var header := buf[0];
    if header / 16 != 3 { return 0, Refused; }
    var length := DecodeBuf(buf, 1);
    if !length.Got? { return 0, PastEnd; }
    var at := length.next;
    rc := at - 1;
    var end := at + length.value;
    if end > |buf| { return rc, PastEnd; }
    var topic := ReadString(buf, at, end);
    if !topic.Got? { return rc, Refused; }
    at := topic.next;
    var id := None;
    if header / 2 % 4 > 0 {
      var number := ReadInt(buf, at);
      if !number.Got? { return rc, PastEnd; }
      id, at := Some(number.value), number.next;
    }
    rc := 1;
    var payload := if at <= end then buf[at..end] else [];
    r := Got(Publish(header / 8 % 2, header / 2 % 4, header % 2, id, topic.value, end - at, payload), end);
  }
}
