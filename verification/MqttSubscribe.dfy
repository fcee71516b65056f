/** SUBSCRIBE packets with any number of topic filters. */
module MqttSubscribe {
  import opened Common
  import opened MqttWire
  import opened MqttPublish

  /** A filter as the client gives it, and as it is read back. */
  datatype Request = Request(topic: MqttString, qos: nat)
  datatype Filter = Filter(topic: seq<Byte>, qos: Byte)

  datatype Subscribe = Subscribe(dup: nat, packetId: nat, filters: seq<Filter>)

  // ---------- Writing ----------

  function SubscribeHeader(dup: nat): Byte { 128 + dup % 2 * 8 + 2 }

  function RequestBytes(r: Request): seq<Byte> { StringBytes(Text(r.topic)) + [r.qos % 256] }

  function FilterBytes(rs: seq<Request>): seq<Byte> {
    if rs == [] then [] else RequestBytes(rs[0]) + FilterBytes(rs[1..])
  }

  function SubscribeBody(packetId: nat, rs: seq<Request>): seq<Byte> { IntBytes(packetId) + FilterBytes(rs) }

  function LengthOf(rs: seq<Request>): nat {
    if rs == [] then 0 else LengthOf(rs[..|rs| - 1]) + (2 + StrLen(rs[|rs| - 1].topic) + 1)
  }

  ghost predicate AllWellFormed(rs: seq<Request>) { forall i :: 0 <= i < |rs| ==> WellFormed(rs[i].topic) }

  lemma {:induction false} FilterBytesAppend(rs: seq<Request>, r: Request)
    ensures FilterBytes(rs + [r]) == FilterBytes(rs) + RequestBytes(r)
  {
    hide RequestBytes;
    if rs == [] {
      assert rs + [r] == [r] && [r][1..] == [];
      assert FilterBytes([r]) == RequestBytes(r) + FilterBytes([]);
    } else {
      assert (rs + [r])[1..] == rs[1..] + [r];
      FilterBytesAppend(rs[1..], r);
    }
  }

  lemma {:induction false} LengthOfIs(rs: seq<Request>)
    requires AllWellFormed(rs)
    ensures LengthOf(rs) == |FilterBytes(rs)|
  {
    hide StringBytes, Text;
    if rs != [] {
      var front, r := rs[..|rs| - 1], rs[|rs| - 1];
      assert rs == front + [r];
      LengthOfIs(front);
      FilterBytesAppend(front, r);
    }
  }

  /** MQTTSerialize_subscribeLength. */
  method SubscribeLength(rs: seq<Request>) returns (len: nat)
    ensures len == 2 + LengthOf(rs)
  {
    len := 2;
    for i := 0 to |rs|
      invariant len == 2 + LengthOf(rs[..i])
    {
      assert rs[..i + 1][..i] == rs[..i];
      len := len + (2 + StrLen(rs[i].topic) + 1);
    }
    assert rs[..|rs|] == rs;
  }

  /** MQTTSerialize_subscribe: the packet, written inside the buffer, or an error and nothing written. */
  method SerializeSubscribe(buf: array<Byte>, dup: nat, packetId: nat, rs: seq<Request>) returns (rc: int)
    requires AllWellFormed(rs) && Holds(2 + LengthOf(rs), buf.Length)
    modifies buf
    ensures PacketLen(2 + LengthOf(rs)) > buf.Length ==> rc == BUFFER_TOO_SHORT && buf[..] == old(buf[..])
    ensures PacketLen(2 + LengthOf(rs)) <= buf.Length ==>
              0 <= rc <= buf.Length && buf[..rc] == Frame(SubscribeHeader(dup), SubscribeBody(packetId, rs))
  {
    hide Encode, StringBytes, IntBytes, PacketLen, Text, RequestBytes, FilterBytes;
    var rem := SubscribeLength(rs);
    if PacketLen(rem) > buf.Length { return BUFFER_TOO_SHORT; }
    LengthOfIs(rs);
    var w := new Writer(buf);
    ghost var head: seq<Byte> := [SubscribeHeader(dup)];
    w.WriteChar(SubscribeHeader(dup), []);
    assert [] + head == head;
    w.WriteLength(rem, head);
    ghost var front := head + Encode(rem);
    w.WriteInt(packetId, front);
    WriteRequests(w, rs, front + IntBytes(packetId));
    Join(front, IntBytes(packetId), FilterBytes(rs));
    rc := w.pos;
  }

  /** The filter loop. */
  method WriteRequests(w: Writer, rs: seq<Request>, ghost done: seq<Byte>)
    requires AllWellFormed(rs) && w.Wrote(done) && |done| + |FilterBytes(rs)| <= w.buf.Length
    modifies w`pos, w.buf
    ensures w.Wrote(done + FilterBytes(rs))
  {
    hide StringBytes, Text, FilterBytes;
    ghost var made: seq<Byte> := [];
    Join(done, [], FilterBytes(rs));
    assert rs[0..] == rs;
    for i := 0 to |rs|
      invariant w.Wrote(done + made) && made + FilterBytes(rs[i..]) == FilterBytes(rs)
    {
      ghost var text: seq<Byte>, mark: seq<Byte> := StringBytes(Text(rs[i].topic)), [rs[i].qos % 256];
      NextFilter(rs, i);
      assert |made| + |RequestBytes(rs[i])| <= |FilterBytes(rs)|;
      w.WriteString(rs[i].topic, done + made);
      w.WriteChar(rs[i].qos % 256, done + made + text);
      Join(done + made, text, mark);
      Join(done, made, text + mark);
      Join(made, text + mark, FilterBytes(rs[i + 1..]));
      made := made + (text + mark);
    }
    NoFilters(rs);
    Join(done, made, []);
    assert made == FilterBytes(rs);
  }

  lemma NextFilter(rs: seq<Request>, i: nat)
    requires i < |rs|
    ensures FilterBytes(rs[i..]) == RequestBytes(rs[i]) + FilterBytes(rs[i + 1..])
  {
    hide RequestBytes;
    assert rs[i..][1..] == rs[i + 1..];
  }

  lemma NoFilters(rs: seq<Request>)
    ensures FilterBytes(rs[|rs|..]) == [] && forall s: seq<Byte> {:trigger s + []} :: s + [] == s
  {
  }

  // ---------- Reading ----------

  /** The filter loop of the reader, up to the end of the data. */
  function ParseFilters(buf: seq<Byte>, at: nat, end: nat): (r: Parsed<seq<Filter>>)
    requires end <= |buf|
    ensures r != PastEnd
    decreases end - at
  {
    if at >= end then Got([], at)
    else
      match ReadString(buf, at, end)
      case Refused => Refused
      case PastEnd => Refused
      case Got(topic, next) =>
        if next >= end then Refused
        else
          match ParseFilters(buf, next + 1, end)
          case Refused => Refused
          case PastEnd => Refused
          case Got(rest, last) => Got([Filter(topic, buf[next])] + rest, last)
  }

  function ParseSubscribe(buf: seq<Byte>): Parsed<Subscribe> {
    match ReadChar(buf, 0)
    case Refused => Refused
    case PastEnd => PastEnd
    case Got(header, _) =>
      if header / 16 != 8 then Refused
      else
        match Decode(buf, 1)
        case Refused => Refused
        case PastEnd => PastEnd
        case Got(rem, at) => ParseAfterLength(buf, header / 8 % 2, at, at + rem)
  }

  function ParseAfterLength(buf: seq<Byte>, dup: nat, at: nat, end: nat): Parsed<Subscribe> {
    if end > |buf| then PastEnd
    else
      match ReadInt(buf, at)
      case Refused => Refused
      case PastEnd => PastEnd
      case Got(id, next) =>
        match ParseFilters(buf, next, end)
        case Refused => Refused
        case PastEnd => PastEnd
        case Got(filters, last) => Got(Subscribe(dup, id, filters), last)
  }

  /** The filters as they are read back. */
  function Seen(rs: seq<Request>): (s: seq<Filter>)
    ensures |s| == |rs| && forall i :: 0 <= i < |rs| ==> s[i] == Filter(Text(rs[i].topic), rs[i].qos % 256)
  {
    seq(|rs|, i requires 0 <= i < |rs| => Filter(Text(rs[i].topic), rs[i].qos % 256))
  }

  lemma {:induction false} FiltersRoundTrip(buf: seq<Byte>, at: nat, end: nat, rs: seq<Request>)
    requires AllWellFormed(rs) && StandsAt(buf, at, FilterBytes(rs)) && end == at + |FilterBytes(rs)| <= |buf|
    ensures ParseFilters(buf, at, end) == Got(Seen(rs), end)
    decreases |rs|
  {
    hide StandsAt, StringBytes, Text, ReadString;
    if rs == [] {
      assert Seen(rs) == [];
    } else {
      var r := rs[0];
      var text := StringBytes(Text(r.topic));
      var next := at + |text|;
      StandsApart(buf, at, RequestBytes(r), FilterBytes(rs[1..]));
      StandsApart(buf, at, text, [r.qos % 256]);
      OneByte(buf, next, r.qos % 256);
      ReadsStringBack(buf, at, Text(r.topic), end);
      FiltersRoundTrip(buf, next + 1, end, rs[1..]);
      assert Seen(rs) == [Filter(Text(r.topic), r.qos % 256)] + Seen(rs[1..]);
    }
  }

  /** What reading a written SUBSCRIBE packet gives: its flag and QoS values in one bit and one byte. */
  lemma SubscribeReads(buf: seq<Byte>, dup: nat, packetId: nat, rs: seq<Request>)
    requires AllWellFormed(rs) && packetId < 65536 && 2 + LengthOf(rs) <= MAX_REMAINING
    requires StandsAt(buf, 0, Frame(SubscribeHeader(dup), SubscribeBody(packetId, rs)))
    ensures ParseSubscribe(buf)
         == Got(Subscribe(dup % 2, packetId, Seen(rs)), |Frame(SubscribeHeader(dup), SubscribeBody(packetId, rs))|)
  {
    hide Encode, IntBytes, Decode, StandsAt, ReadInt, ReadChar, ParseFilters, FilterBytes;
    var header, body := SubscribeHeader(dup), SubscribeBody(packetId, rs);
    LengthOfIs(rs);
    FrameReads(header, body, buf);
    var at := 1 + |Encode(|body|)|;
    StandsApart(buf, at, IntBytes(packetId), FilterBytes(rs));
    ReadsIntBack(buf, at, packetId);
    FiltersRoundTrip(buf, at + 2, at + |body|, rs);
    SubscribeFields(dup);
  }

  /** What was read is what was sent: the same flag, identifier, topics and QoS values. */
  ghost predicate SameFields(s: Subscribe, dup: nat, packetId: nat, rs: seq<Request>) {
    s.dup == dup && s.packetId == packetId && |s.filters| == |rs| &&
    forall i :: 0 <= i < |rs| ==> s.filters[i].topic == Text(rs[i].topic) && s.filters[i].qos == rs[i].qos
  }

  lemma SameQosIff(rs: seq<Request>)
    ensures (forall i :: 0 <= i < |rs| ==> Seen(rs)[i].qos == rs[i].qos) <==>
            forall i :: 0 <= i < |rs| ==> rs[i].qos < 256
  {
  }

  /** Reading a written SUBSCRIBE packet with any number of filters returns the fields sent exactly
      while the flag fits its bit and every QoS its byte. */
  lemma SubscribeRoundTripIff(buf: seq<Byte>, dup: nat, packetId: nat, rs: seq<Request>)
    requires AllWellFormed(rs) && packetId < 65536 && 2 + LengthOf(rs) <= MAX_REMAINING
    requires StandsAt(buf, 0, Frame(SubscribeHeader(dup), SubscribeBody(packetId, rs)))
    ensures ParseSubscribe(buf).Got? && SameFields(ParseSubscribe(buf).value, dup, packetId, rs)
            <==> dup < 2 && forall i :: 0 <= i < |rs| ==> rs[i].qos < 256
  {
    hide ParseSubscribe, SubscribeHeader, SubscribeBody, Text, LengthOf, StandsAt;
    SubscribeReads(buf, dup, packetId, rs);
    SameQosIff(rs);
  }

  lemma SubscribeFields(dup: nat)
    ensures SubscribeHeader(dup) / 16 == 8 && SubscribeHeader(dup) / 8 % 2 == dup % 2
  {
    var d := dup % 2;
    assert 128 + d * 8 + 2 == 16 * 8 + (8 * d + 2);
  }

  /** MQTTDeserialize_subscribe; a packet refused after its type matched leaves the number of length
      bytes in the return code. */
  method DeserializeSubscribe(buf: seq<Byte>) returns (rc: int, r: Parsed<Subscribe>)
    ensures r == ParseSubscribe(buf)
    ensures r.Got? ==> rc == 1
    ensures r == Refused ==> rc == if buf[0] / 16 != 8 then -1 else LengthBytes(buf)
  {
    hide ReadString, ReadInt, Decode;
    rc := -1;
    if |buf| == 0 { return rc, PastEnd; }
    var header := buf[0];
    if header / 16 != 8 { return rc, Refused; }
    var length := DecodeBuf(buf, 1);
    if !length.Got? { return rc, PastEnd; }
    rc := length.next - 1;
    var at, end := length.next, length.next + length.value;
    if end > |buf| { return rc, PastEnd; }
    var id := ReadInt(buf, at);
    if !id.Got? { return rc, PastEnd; }
    var filters := ReadFilters(buf, id.next, end);
    match filters
    case Refused => return rc, Refused;
    case PastEnd => return rc, Refused;
    case Got(fs, last) => return 1, Got(Subscribe(header / 8 % 2, id.value, fs), last);
  }

  function LengthBytes(buf: seq<Byte>): nat {
    match Decode(buf, 1) case Got(_, at) => at - 1 case _ => 0
  }

  /** The loop over the filters. */
  method ReadFilters(buf: seq<Byte>, start: nat, end: nat) returns (r: Parsed<seq<Filter>>)
    requires end <= |buf|
    ensures r == ParseFilters(buf, start, end)
  {
    hide ReadString;
    var at, filters := start, [];
    ghost var all := ParseFilters(buf, start, end);
    FrontNothing(all);
    while at < end
      invariant all == Front(filters, ParseFilters(buf, at, end))
      decreases end - at
    {
      var topic := ReadString(buf, at, end);
      if !topic.Got? { return Refused; }
      if topic.next >= end { return Refused; }
      ghost var rest := ParseFilters(buf, topic.next + 1, end);
      FrontOne(filters, Filter(topic.value, buf[topic.next]), rest);
      filters := filters + [Filter(topic.value, buf[topic.next])];
      at := topic.next + 1;
    }
    assert filters + [] == filters;
    return Got(filters, at);
  }

  /** A result with more filters in front. */
  ghost function Front(front: seq<Filter>, r: Parsed<seq<Filter>>): Parsed<seq<Filter>> {
    match r case Got(s, next) => Got(front + s, next) case _ => r
  }

  lemma FrontNothing(r: Parsed<seq<Filter>>)
    ensures Front([], r) == r
  {
    if r.Got? { assert [] + r.value == r.value; }
  }

  lemma FrontOne(front: seq<Filter>, f: Filter, rest: Parsed<seq<Filter>>)
    ensures Front(front, Front([f], rest)) == Front(front + [f], rest)
  {
    if rest.Got? { assert front + ([f] + rest.value) == front + [f] + rest.value; }
  }
}
