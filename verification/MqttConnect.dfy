/** CONNECT packets of protocol versions 3 and 4. */
module MqttConnect {
  import opened Common
  import opened MqttWire
  import opened MqttPublish

  datatype Will = Will(topic: MqttString, message: MqttString, retained: nat, qos: nat)

  /** The connect options; the will is used when the flag is set. */
  datatype Options = Options(version: nat, clientId: MqttString, keepAlive: nat, cleanSession: nat,
                             willFlag: bool, will: Will, username: MqttString, password: MqttString)

  /** What the server side fills in. */
  datatype SeenWill = SeenWill(topic: seq<Byte>, message: seq<Byte>, retained: nat, qos: nat)
  datatype Seen = Seen(clientId: seq<Byte>, keepAlive: nat, cleanSession: nat, will: Option<SeenWill>,
                       username: Option<seq<Byte>>, password: Option<seq<Byte>>)

  const MQTT: seq<Byte> := [77, 81, 84, 84]
  const MQISDP: seq<Byte> := [77, 81, 73, 115, 100, 112]

  function Protocol(version: nat): seq<Byte> { if version == 4 then MQTT else MQISDP }

  function VersionByte(version: nat): Byte { if version == 4 then 4 else 3 }

  // ---------- Writing ----------

  function Flag(raised: bool): nat { if raised then 1 else 0 }

  function Flags(o: Options): Byte {
    Flag(IsSet(o.username)) * 128 + Flag(IsSet(o.password)) * 64 +
    (if o.willFlag then o.will.retained % 2 * 32 + o.will.qos % 4 * 8 + 4 else 0) + o.cleanSession % 2 * 2
  }

  function Start(o: Options): seq<Byte> {
    StringBytes(Protocol(o.version)) + [VersionByte(o.version)] + [Flags(o)] + IntBytes(o.keepAlive)
  }

  function WillBytes(o: Options): seq<Byte> {
    if o.willFlag then StringBytes(Text(o.will.topic)) + StringBytes(Text(o.will.message)) else []
  }

  function SetBytes(m: MqttString): seq<Byte> { if IsSet(m) then StringBytes(Text(m)) else [] }

  function Payload(o: Options): seq<Byte> {
    StringBytes(Text(o.clientId)) + WillBytes(o) + (SetBytes(o.username) + SetBytes(o.password))
  }

  function ConnectBody(o: Options): seq<Byte> { Start(o) + Payload(o) }

  /** What callers owe: version 3 or 4, and strings in one form that fit their length. */
  ghost predicate Valid(o: Options) {
    o.version in {3, 4} && WellFormed(o.clientId) && WellFormed(o.username) && WellFormed(o.password) &&
    (o.willFlag ==> WellFormed(o.will.topic) && WellFormed(o.will.message)) && o.keepAlive < 65536
  }

  /** MQTTSerialize_connectLength. */
  function ConnectLength(o: Options): nat {
    (if o.version == 3 then 12 else if o.version == 4 then 10 else 0) +
    StrLen(o.clientId) + 2 +
    (if o.willFlag then StrLen(o.will.topic) + 2 + StrLen(o.will.message) + 2 else 0) +
    (if IsSet(o.username) then StrLen(o.username) + 2 else 0) +
    (if IsSet(o.password) then StrLen(o.password) + 2 else 0)
  }

  /** By how much the packet written exceeds the length announced: nothing is announced for the
      protocol name of an unknown version, and each string may have its own excess. */
  function ConnectExcess(o: Options): int {
    (if o.version == 3 || o.version == 4 then 0 else 12) + Excess(o.clientId) +
    (if o.willFlag then Excess(o.will.topic) + Excess(o.will.message) else 0) +
    (if IsSet(o.username) then Excess(o.username) else 0) + (if IsSet(o.password) then Excess(o.password) else 0)
  }

  lemma ConnectLengthIs(o: Options)
    ensures |ConnectBody(o)| == ConnectLength(o) + ConnectExcess(o)
    ensures Valid(o) ==> ConnectLength(o) == |ConnectBody(o)|
  {
    hide Text, StrLen, Flags, IntBytes;
  }

  /** MQTTSerialize_connect: the packet, written inside the buffer, or an error and nothing written. */
  method SerializeConnect(buf: array<Byte>, o: Options) returns (rc: int)
    requires Valid(o) && Holds(ConnectLength(o), buf.Length)
    modifies buf
    ensures PacketLen(ConnectLength(o)) > buf.Length ==> rc == BUFFER_TOO_SHORT && buf[..] == old(buf[..])
    ensures PacketLen(ConnectLength(o)) <= buf.Length ==>
              0 <= rc <= buf.Length && buf[..rc] == Frame(16, ConnectBody(o))
  {
    hide Encode, PacketLen, ConnectLength, Start, Payload;
    var rem := ConnectLength(o);
    if PacketLen(rem) > buf.Length { return BUFFER_TOO_SHORT; }
    ConnectLengthIs(o);
    var w := new Writer(buf);
    ghost var head: seq<Byte> := [16];
    w.WriteChar(16, []);
    assert [] + head == head;
    w.WriteLength(rem, head);
    WriteStart(w, o, head + Encode(rem));
    WritePayload(w, o, head + Encode(rem) + Start(o));
    Join(head + Encode(rem), Start(o), Payload(o));
    rc := w.pos;
  }

  method WriteStart(w: Writer, o: Options, ghost done: seq<Byte>)
    requires w.Wrote(done) && |done| + |Start(o)| <= w.buf.Length
    modifies w`pos, w.buf
    ensures w.Wrote(done + Start(o))
  {
    hide StringBytes, IntBytes, Flags;
    ghost var name := StringBytes(Protocol(o.version));
    w.WriteString(MqttString(Some(Protocol(o.version)), None), done);
    w.WriteChar(VersionByte(o.version), done + name);
    w.WriteChar(Flags(o), done + name + [VersionByte(o.version)]);
    w.WriteInt(o.keepAlive, done + name + [VersionByte(o.version)] + [Flags(o)]);
    Join(done + name + [VersionByte(o.version)], [Flags(o)], IntBytes(o.keepAlive));
    Join(done + name, [VersionByte(o.version)], [Flags(o)] + IntBytes(o.keepAlive));
    Join(done, name, [VersionByte(o.version)] + ([Flags(o)] + IntBytes(o.keepAlive)));
    Join(name + [VersionByte(o.version)], [Flags(o)], IntBytes(o.keepAlive));
    Join(name, [VersionByte(o.version)], [Flags(o)] + IntBytes(o.keepAlive));
  }

  method WritePayload(w: Writer, o: Options, ghost done: seq<Byte>)
    requires w.Wrote(done) && |done| + |Payload(o)| <= w.buf.Length
    modifies w`pos, w.buf
    ensures w.Wrote(done + Payload(o))
  {
    hide StringBytes, Text;
    ghost var client, will := StringBytes(Text(o.clientId)), WillBytes(o);
    ghost var user, pass := SetBytes(o.username), SetBytes(o.password);
    w.WriteString(o.clientId, done);
    WriteWill(w, o, done + client);
    WriteSet(w, o.username, done + client + will);
    WriteSet(w, o.password, done + client + will + user);
    Join(done + client + will, user, pass);
    Join(done + client, will, user + pass);
    Join(done, client, will + (user + pass));
    Join(client, will, user + pass);
  }

  method WriteWill(w: Writer, o: Options, ghost done: seq<Byte>)
    requires w.Wrote(done) && |done| + |WillBytes(o)| <= w.buf.Length
    modifies w`pos, w.buf
    ensures w.Wrote(done + WillBytes(o))
  {
    hide StringBytes, Text;
    if o.willFlag {
      w.WriteString(o.will.topic, done);
      w.WriteString(o.will.message, done + StringBytes(Text(o.will.topic)));
      Join(done, StringBytes(Text(o.will.topic)), StringBytes(Text(o.will.message)));
    } else {
      assert done + [] == done;
    }
  }

  method WriteSet(w: Writer, m: MqttString, ghost done: seq<Byte>)
    requires w.Wrote(done) && |done| + |SetBytes(m)| <= w.buf.Length
    modifies w`pos, w.buf
    ensures w.Wrote(done + SetBytes(m))
  {
    hide StringBytes, Text;
    if IsSet(m) {
      w.WriteString(m, done);
    } else {
      assert done + [] == done;
    }
  }

  // ---------- Reading ----------

  function Smaller(a: nat, b: nat): nat { if a < b then a else b }

  /** MQTTPacket_checkVersion compares the shorter of the two names only. */
  predicate KnownVersion(protocol: seq<Byte>, version: nat) {
    (version == 3 && protocol[..Smaller(6, |protocol|)] == MQISDP[..Smaller(6, |protocol|)]) ||
    (version == 4 && protocol[..Smaller(4, |protocol|)] == MQTT[..Smaller(4, |protocol|)])
  }

  /** MQTTDeserialize_connect, with the end of the data at the end of the buffer. */
  function ParseConnect(buf: seq<Byte>): Parsed<Seen> {
    match ReadChar(buf, 0)
    case Refused => Refused
    case PastEnd => PastEnd
    case Got(header, _) =>
      if header / 16 != 1 then Refused
      else
        match Decode(buf, 1)
        case Refused => Refused
        case PastEnd => PastEnd
        case Got(_, at) => ParseProtocol(buf, at)
  }

  function ParseProtocol(buf: seq<Byte>, at: nat): Parsed<Seen> {
    match ReadString(buf, at, |buf|)
    case Refused => Refused
    case PastEnd => Refused
    case Got(protocol, next) =>
      match ReadChar(buf, next)
      case Refused => Refused
      case PastEnd => PastEnd
      case Got(version, next) => if KnownVersion(protocol, version) then ParseFlags(buf, next) else Refused
  }

  function ParseFlags(buf: seq<Byte>, at: nat): Parsed<Seen> {
    match ReadChar(buf, at)
    case Refused => Refused
    case PastEnd => PastEnd
    case Got(flags, next) =>
      match ReadInt(buf, next)
      case Refused => Refused
      case PastEnd => PastEnd
      case Got(keepAlive, next) => ParseClient(buf, next, flags, keepAlive)
  }

  /** The client identifier and what follows it. */
  function ParseClient(buf: seq<Byte>, at: nat, flags: Byte, keepAlive: nat): Parsed<Seen> {
    match ReadString(buf, at, |buf|)
    case Refused => Refused
    case PastEnd => Refused
    case Got(clientId, next) => ParseWill(buf, next, flags, Seen(clientId, keepAlive, flags / 2 % 2, None, None, None))
  }

  function ParseWill(buf: seq<Byte>, at: nat, flags: Byte, seen: Seen): Parsed<Seen> {
    if flags / 4 % 2 == 0 then ParseUser(buf, at, flags, seen)
    else
      match ReadString(buf, at, |buf|)
      case Refused => Refused
      case PastEnd => Refused
      case Got(topic, next) =>
        match ReadString(buf, next, |buf|)
        case Refused => Refused
        case PastEnd => Refused
        case Got(message, next) =>
          ParseUser(buf, next, flags, seen.(will := Some(SeenWill(topic, message, flags / 32 % 2, flags / 8 % 4))))
  }

  function ParseUser(buf: seq<Byte>, at: nat, flags: Byte, seen: Seen): Parsed<Seen> {
    if flags / 128 % 2 == 0 then (if flags / 64 % 2 == 1 then Refused else Got(seen, at))
    else
      match ReadSet(buf, at)
      case Refused => Refused
      case PastEnd => Refused
      case Got(username, next) => ParsePassword(buf, next, flags, seen.(username := Some(username)))
  }

  function ParsePassword(buf: seq<Byte>, at: nat, flags: Byte, seen: Seen): Parsed<Seen> {
    if flags / 64 % 2 == 0 then Got(seen, at)
    else
      match ReadSet(buf, at)
      case Refused => Refused
      case PastEnd => Refused
      case Got(password, next) => Got(seen.(password := Some(password)), next)
  }

  /** User name and password are read only when at least three bytes are left. */
  function ReadSet(buf: seq<Byte>, at: nat): Parsed<seq<Byte>> {
    if at + 3 > |buf| then Refused else ReadString(buf, at, |buf|)
  }

  // ---------- Round trip ----------

  /** The options as they are read: the flags in their bits. */
  function Received(o: Options): Seen {
    Seen(Text(o.clientId), o.keepAlive, o.cleanSession % 2,
         if o.willFlag then Some(ReceivedWill(o.will)) else None,
         SentText(o.username), SentText(o.password))
  }

  function ReceivedWill(w: Will): SeenWill { SeenWill(Text(w.topic), Text(w.message), w.retained % 2, w.qos % 4) }

  function SentText(m: MqttString): Option<seq<Byte>> { if IsSet(m) then Some(Text(m)) else None }

  /** Which options the reader takes: no password without a user name, no empty password, and an empty
      user name only before a password. */
  predicate Readable(o: Options) {
    (IsSet(o.password) ==> IsSet(o.username) && Text(o.password) != []) &&
    (IsSet(o.username) && !IsSet(o.password) ==> Text(o.username) != [])
  }

  lemma FlagFields(o: Options)
    ensures var f := Flags(o);
            f / 128 % 2 == Flag(IsSet(o.username)) && f / 64 % 2 == Flag(IsSet(o.password)) &&
            f / 2 % 2 == o.cleanSession % 2 &&
            f / 4 % 2 == Flag(o.willFlag) &&
            (o.willFlag ==> f / 32 % 2 == o.will.retained % 2 && f / 8 % 4 == o.will.qos % 4)
  {
    hide IsSet;
    var u, p, w, c := Flag(IsSet(o.username)), Flag(IsSet(o.password)), Flag(o.willFlag), o.cleanSession % 2;
    var r, q := if o.willFlag then o.will.retained % 2 else 0, if o.willFlag then o.will.qos % 4 else 0;
    assert Flags(o) == 128 * u + 64 * p + 32 * r + 8 * q + 4 * w + 2 * c;
    BitFields(u, p, r, q, w, c);
  }

  lemma BitFields(u: nat, p: nat, r: nat, q: nat, w: nat, c: nat)
    requires u < 2 && p < 2 && r < 2 && q < 4 && w < 2 && c < 2
    ensures var f := 128 * u + 64 * p + 32 * r + 8 * q + 4 * w + 2 * c;
            f / 128 % 2 == u && f / 64 % 2 == p && f / 32 % 2 == r && f / 8 % 4 == q && f / 4 % 2 == w && f / 2 % 2 == c
  {
    var f := 128 * u + 64 * p + 32 * r + 8 * q + 4 * w + 2 * c;
    assert f / 128 == u;
    assert f / 64 == 2 * u + p;
    assert f / 32 == 2 * (2 * u + p) + r;
    assert f / 8 == 4 * (2 * (2 * u + p) + r) + q;
    assert f / 4 == 2 * (4 * (2 * (2 * u + p) + r) + q) + w;
    assert f / 2 == 2 * (2 * (4 * (2 * (2 * u + p) + r) + q) + w) + c;
  }

  lemma PasswordRoundTrip(buf: seq<Byte>, at: nat, flags: Byte, seen: Seen, m: MqttString)
    requires WellFormed(m) && StandsAt(buf, at, SetBytes(m)) && |buf| == at + |SetBytes(m)| &&
             flags / 64 % 2 == Flag(IsSet(m))
    ensures ParsePassword(buf, at, flags, seen)
         == if !IsSet(m) then Got(seen, |buf|)
            else if Text(m) == [] then Refused else Got(seen.(password := Some(Text(m))), |buf|)
  {
    hide StandsAt, StringBytes, Text, ReadString, IsSet;
    if IsSet(m) { ReadsStringBack(buf, at, Text(m), |buf|); }
  }

  lemma UserRoundTrip(buf: seq<Byte>, at: nat, flags: Byte, seen: Seen, o: Options)
    requires Valid(o) && StandsAt(buf, at, SetBytes(o.username) + SetBytes(o.password))
    requires |buf| == at + |SetBytes(o.username) + SetBytes(o.password)| && seen.username.None? && seen.password.None?
    requires flags / 128 % 2 == Flag(IsSet(o.username)) && flags / 64 % 2 == Flag(IsSet(o.password))
    ensures ParseUser(buf, at, flags, seen)
         == if !Readable(o) then Refused
            else Got(seen.(username := SentText(o.username), password := SentText(o.password)), |buf|)
  {
    hide StandsAt, StringBytes, Text, ReadString, IsSet;
    StandsApart(buf, at, SetBytes(o.username), SetBytes(o.password));
    if IsSet(o.username) {
      var next := at + |SetBytes(o.username)|;
      ReadsStringBack(buf, at, Text(o.username), |buf|);
      PasswordRoundTrip(buf, next, flags, seen.(username := Some(Text(o.username))), o.password);
    } else {
      assert seen.(username := None, password := None) == seen;
    }
  }

  lemma WillRoundTrip(buf: seq<Byte>, at: nat, flags: Byte, seen: Seen, o: Options, rest: seq<Byte>)
    requires Valid(o) && o.willFlag && StandsAt(buf, at, WillBytes(o) + rest)
    requires flags / 4 % 2 == 1 && flags / 32 % 2 == o.will.retained % 2 && flags / 8 % 4 == o.will.qos % 4
    ensures ParseWill(buf, at, flags, seen)
         == ParseUser(buf, at + |WillBytes(o)|, flags, seen.(will := Some(ReceivedWill(o.will))))
  {
    hide StringBytes, Text, ReadString, ParseUser;
    StandsApart(buf, at, WillBytes(o), rest);
    StandsApart(buf, at, StringBytes(Text(o.will.topic)), StringBytes(Text(o.will.message)));
    ReadsStringBack(buf, at, Text(o.will.topic), |buf|);
    ReadsStringBack(buf, at + 2 + |Text(o.will.topic)|, Text(o.will.message), |buf|);
  }

  /** The options given to the writer. */
  function Sent(o: Options): Seen {
    Seen(Text(o.clientId), o.keepAlive, o.cleanSession, if o.willFlag then Some(SentWill(o.will)) else None,
         SentText(o.username), SentText(o.password))
  }

  function SentWill(w: Will): SeenWill { SeenWill(Text(w.topic), Text(w.message), w.retained, w.qos) }

  /** The flags fit their bits. */
  predicate InRange(o: Options) { o.cleanSession < 2 && (o.willFlag ==> o.will.retained < 2 && o.will.qos < 4) }

  /** Reading a written CONNECT packet returns the options sent exactly for the readable ones whose
      flags fit their bits. */
  lemma ConnectRoundTripIff(buf: seq<Byte>, o: Options)
    requires Valid(o) && ConnectLength(o) <= MAX_REMAINING && buf == Frame(16, ConnectBody(o))
    ensures ParseConnect(buf) == Got(Sent(o), |buf|) <==> Readable(o) && InRange(o)
  {
    hide ParseConnect, ConnectLength, ConnectBody, Frame, Text, Readable;
    ConnectReads(buf, o);
  }

  /** What reading a written CONNECT packet gives: the options, or a refusal of those that are not
      readable. */
  lemma ConnectReads(buf: seq<Byte>, o: Options)
    requires Valid(o) && ConnectLength(o) <= MAX_REMAINING && buf == Frame(16, ConnectBody(o))
    ensures ParseConnect(buf) == if Readable(o) then Got(Received(o), |buf|) else Refused
  {
    hide Encode, StringBytes, IntBytes, Text, StandsAt, ReadString, ReadInt, ReadChar, Decode, Flags, Payload, Start,
      ConnectLength, ParseFlags, Frame;
    var body := ConnectBody(o);
    ConnectLengthIs(o);
    StandsWhole(buf);
    FrameReads(16, body, buf);
    FrameLength(16, body);
    var at := 1 + |Encode(|body|)|;
    StandsApart(buf, at, Start(o), Payload(o));
    StartRoundTrip(buf, at, o);
    PayloadRoundTrip(buf, at + |Start(o)|, o);
  }

  lemma FrameLength(header: Byte, body: seq<Byte>)
    ensures |Frame(header, body)| == 1 + |Encode(|body|)| + |body|
  {
  }

  /** Everything from the protocol name to the keep-alive interval. */
  lemma StartRoundTrip(buf: seq<Byte>, at: nat, o: Options)
    requires Valid(o) && StandsAt(buf, at, Start(o))
    ensures ParseProtocol(buf, at) == ParseClient(buf, at + |Start(o)|, Flags(o), o.keepAlive)
  {
    hide StringBytes, IntBytes, Flags, StandsAt, ReadString, ReadInt;
    var name, version, flags := StringBytes(Protocol(o.version)), VersionByte(o.version), Flags(o);
    var one: seq<Byte>, two: seq<Byte> := [version], [flags];
    StandsApart(buf, at, name + one + two, IntBytes(o.keepAlive));
    StandsApart(buf, at, name + one, two);
    StandsApart(buf, at, name, one);
    OneByte(buf, at + |name|, version);
    OneByte(buf, at + |name| + 1, flags);
    ReadsStringBack(buf, at, Protocol(o.version), |buf|);
    ReadsIntBack(buf, at + |name| + 2, o.keepAlive);
    NamesKnown();
  }

  lemma NamesKnown()
    ensures KnownVersion(MQTT, 4) && KnownVersion(MQISDP, 3)
  {
  }

  lemma PayloadRoundTrip(buf: seq<Byte>, at: nat, o: Options)
    requires Valid(o) && StandsAt(buf, at, Payload(o)) && |buf| == at + |Payload(o)|
    ensures ParseClient(buf, at, Flags(o), o.keepAlive) == if Readable(o) then Got(Received(o), |buf|) else Refused
  {
    hide StringBytes, Text, StandsAt, ReadString, Flags, ParseUser, SetBytes, IsSet;
    var client, will, last := StringBytes(Text(o.clientId)), WillBytes(o), SetBytes(o.username) + SetBytes(o.password);
    StandsApart(buf, at, client + will, last);
    StandsApart(buf, at, client, will);
    ReadsStringBack(buf, at, Text(o.clientId), |buf|);
    FlagFields(o);
    var seen := Seen(Text(o.clientId), o.keepAlive, o.cleanSession % 2, None, None, None);
    var next := at + |client|;
    if o.willFlag {
      Join(client, will, last);
      StandsApart(buf, at, client, will + last);
      WillRoundTrip(buf, next, Flags(o), seen, o, last);
      var withWill := seen.(will := Received(o).will);
      UserRoundTrip(buf, next + |will|, Flags(o), withWill, o);
    } else {
      UserRoundTrip(buf, next, Flags(o), seen, o);
    }
  }

  // ---------- The reader's method ----------

  /** MQTTDeserialize_connect. */
  method DeserializeConnect(buf: seq<Byte>) returns (r: Parsed<Seen>)
    ensures r == ParseConnect(buf)
  {
    hide ReadString, ReadInt, Decode, KnownVersion, ParseClient;
    if |buf| == 0 { return PastEnd; }
    if buf[0] / 16 != 1 { return Refused; }
    var length := DecodeBuf(buf, 1);
    if !length.Got? { return PastEnd; }
    var protocol := ReadString(buf, length.next, |buf|);
    if !protocol.Got? { return Refused; }
    var at := protocol.next;
    if at >= |buf| { return PastEnd; }
    var version := buf[at];
    if !KnownVersion(protocol.value, version) { return Refused; }
    at := at + 1;
    if at >= |buf| { return PastEnd; }
    var flags := buf[at];
    var keepAlive := ReadInt(buf, at + 1);
    if !keepAlive.Got? { return PastEnd; }
    r := ReadPayload(buf, keepAlive.next, flags, keepAlive.value);
  }

  /** The fields behind the keep-alive interval, as the flags say. */
  method ReadPayload(buf: seq<Byte>, start: nat, flags: Byte, keepAlive: nat) returns (r: Parsed<Seen>)
    ensures r == ParseClient(buf, start, flags, keepAlive)
  {
    hide ReadString;
    var clientId := ReadString(buf, start, |buf|);
    if !clientId.Got? { return Refused; }
    var at := clientId.next;
    var seen := Seen(clientId.value, keepAlive, flags / 2 % 2, None, None, None);
    if flags / 4 % 2 == 1 {
      var topic := ReadString(buf, at, |buf|);
      if !topic.Got? { return Refused; }
      var message := ReadString(buf, topic.next, |buf|);
      if !message.Got? { return Refused; }
      seen := seen.(will := Some(SeenWill(topic.value, message.value, flags / 32 % 2, flags / 8 % 4)));
      at := message.next;
    }
    if flags / 128 % 2 == 1 {
      var username := ReadSet(buf, at);
      if !username.Got? { return Refused; }
      seen, at := seen.(username := Some(username.value)), username.next;
      if flags / 64 % 2 == 1 {
        var password := ReadSet(buf, at);
        if !password.Got? { return Refused; }
        seen, at := seen.(password := Some(password.value)), password.next;
      }
    } else if flags / 64 % 2 == 1 {
      return Refused;
    }
    return Got(seen, at);
  }
}
