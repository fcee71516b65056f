/** The two packet readers: the blocking one, and the one that keeps its state between calls while the
    stream arrives in pieces. */
module MqttReader {
  import opened MqttWire
  import opened MqttPublish

  function Least(a: nat, b: nat): nat { if a < b then a else b }

  /** What the transport answers to a request for n bytes: an error, or as many bytes as are asked for,
      have arrived by plan, and are there. */
  function Given(plan: seq<int>, n: nat, there: nat): (frc: int)
    ensures -1 <= frc <= n && frc <= there
    ensures plan == [] || plan[0] >= 0 ==> frc >= 0
  {
    if plan == [] then 0 else if plan[0] < 0 then -1 else Least(n, Least(plan[0], there))
  }

  /** How many of the planned answers bring something. */
  function Arrivals(plan: seq<int>): nat {
    if plan == [] then 0 else (if plan[0] > 0 then 1 else 0) + Arrivals(plan[1..])
  }

  class Source {
    var input: seq<Byte>
    var plan: seq<int>

    constructor (input: seq<Byte>, plan: seq<int>)
      ensures this.input == input && this.plan == plan
    {
      this.input, this.plan := input, plan;
    }

    /** getfn of the non-blocking reader. */
    method Get(n: nat) returns (frc: int, bytes: seq<Byte>)
      modifies this
      ensures frc == Given(old(plan), n, |old(input)|) && plan == (if old(plan) == [] then [] else old(plan)[1..])
      ensures frc >= 0 ==> frc <= n && bytes == old(input)[..frc] && input == old(input)[frc..]
      ensures n > 0 && |old(input)| > 0 && frc >= 0 ==> frc + Arrivals(plan) >= Arrivals(old(plan))
      ensures frc < 0 ==> input == old(input)
    {
      frc, bytes := Given(plan, n, |input|), [];
      if frc >= 0 {
        bytes := input[..frc];
        input := input[frc..];
      }
      if plan != [] { plan := plan[1..]; }
    }

    /** getfn of the blocking reader. */
    method GetAll(n: nat) returns (frc: nat, bytes: seq<Byte>)
      modifies this`input
      ensures frc == Least(n, |old(input)|) && bytes == old(input)[..frc] && input == old(input)[frc..]
    {
      frc := Least(n, |input|);
      bytes := input[..frc];
      input := input[frc..];
    }
  }

  ghost predicate NoErrors(plan: seq<int>) { forall i :: 0 <= i < |plan| ==> plan[i] >= 0 }

  /** A packet of the standard: a known type, the shortest length field, and as many bytes as it says. */
  ghost predicate IsPacket(packet: seq<Byte>, header: Byte, body: seq<Byte>) {
    header / 16 > 0 && |body| <= MAX_REMAINING && packet == Frame(header, body)
  }

  /** What is left of the stream after some bytes of a packet and what follows it. */
  ghost predicate Supplies(input: seq<Byte>, packet: seq<Byte>, rest: seq<Byte>, taken: nat) {
    taken <= |packet| && input == (packet + rest)[taken..]
  }

  lemma SuppliesMore(input: seq<Byte>, packet: seq<Byte>, rest: seq<Byte>, taken: nat, k: nat)
    requires Supplies(input, packet, rest, taken) && taken + k <= |packet|
    ensures k <= |input| && input[..k] == packet[taken..taken + k] && Supplies(input[k..], packet, rest, taken + k)
    ensures k == 1 ==> input[0] == packet[taken]
  {
    var all := packet + rest;
    assert all[taken..][..k] == all[taken..taken + k] == packet[taken..taken + k];
    assert all[taken..][k..] == all[taken + k..];
    if k == 1 { assert input[..1][0] == packet[taken..taken + 1][0]; }
  }

  method CopyTo(buf: array<Byte>, at: nat, bytes: seq<Byte>)
    requires at + |bytes| <= buf.Length
    modifies buf
    ensures buf[..at] == old(buf[..at]) && buf[at..at + |bytes|] == bytes &&
            buf[at + |bytes|..] == old(buf[at + |bytes|..])
  {
    for i := 0 to |bytes|
      invariant buf[..at] == old(buf[..at]) && buf[at..at + i] == bytes[..i] && buf[at + i..] == old(buf[at + i..])
    {
      buf[at + i] := bytes[i];
      assert bytes[..i + 1] == bytes[..i] + [bytes[i]];
      assert buf[at..at + i + 1] == buf[at..at + i] + [buf[at + i]];
    }
  }

  lemma CopyExtends(before: seq<Byte>, after: seq<Byte>, at: nat, bytes: seq<Byte>, packet: seq<Byte>)
    requires at + |bytes| <= |packet| <= |after| == |before| && before[..at] == packet[..at]
    requires after[..at] == before[..at] && after[at..at + |bytes|] == bytes && bytes == packet[at..at + |bytes|]
    ensures after[..at + |bytes|] == packet[..at + |bytes|]
  {
    assert after[..at + |bytes|] == after[..at] + after[at..at + |bytes|];
    assert packet[..at + |bytes|] == packet[..at] + packet[at..at + |bytes|];
  }

  /** MQTTTransport. */
  class Transport {
    const source: Source
    var state: nat
    var multiplier: nat
    var remLen: nat
    var len: nat
    /** How much of the current packet was taken from the stream. */
    ghost var taken: nat

    constructor (source: Source)
      ensures this.source == source && state == 0 && taken == 0
    {
      this.source, state, multiplier, remLen, len, taken := source, 0, 0, 0, 0, 0;
    }

    /** What every call keeps, whatever the stream brings: the length read so far has at most four
        digits, and the packet fits the buffer before its body is read. */
    ghost predicate Sane(buf: array<Byte>)
      reads this
    {
      buf.Length >= 5 &&
      (state == 1 ==> len <= 4 && (len > 0 ==> multiplier == Power(len) && remLen < Power(len))) &&
      (state == 2 ==> len + remLen <= buf.Length)
    }

    /** The stream continues with the rest of the packet, and state and buffer say how far it is. */
    ghost predicate Reading(buf: array<Byte>, packet: seq<Byte>, body: seq<Byte>, rest: seq<Byte>)
      reads this, source, buf
    {
      |body| < |packet| <= buf.Length && taken < |packet| && Supplies(source.input, packet, rest, taken) &&
      match state
      case 0 => taken == 0
      case 1 => buf[..1] == packet[..1] && Digits(packet, |packet| - |body|, |body|)
      case 2 => buf[..taken] == packet[..taken] && taken == len && remLen == |packet| - len
      case _ => false
    }

    /** `len` digits of the length are read, and the others complete it. */
    ghost predicate Digits(packet: seq<Byte>, after: nat, rem: nat)
      reads this`len, this`multiplier, this`remLen, this`taken
    {
      taken == 1 + len && DigitsRead(packet, after, rem, len, multiplier, remLen)
    }

    /** The stream continues with the digits of a length. */
    ghost predicate OnTrack(packet: seq<Byte>, after: nat, rem: nat, rest: seq<Byte>)
      reads this`len, this`multiplier, this`remLen, this`taken, source
    {
      NoErrors(source.plan) && after <= 5 && Digits(packet, after, rem) && Supplies(source.input, packet, rest, taken)
    }

    /** The digits read so far make a number of at most four of them. */
    ghost predicate Counting()
      reads this`len, this`multiplier, this`remLen
    {
      len <= 4 && multiplier == Power(len) && remLen < Power(len)
    }

    /** A digit of the length is counted in. */
    method Accept(c: Byte, ghost packet: seq<Byte>, ghost after: nat, ghost rem: nat)
      requires Counting() && len < 4
      modifies this`multiplier, this`remLen, this`len, this`taken
      ensures Counting() && len == old(len) + 1 && taken == old(taken) + 1
      ensures old(Digits(packet, after, rem)) && after <= 5 && old(taken) < |packet| && c == packet[old(taken)] ==>
                if c >= 128 then Digits(packet, after, rem) else taken == after && remLen == rem
    {
      hide DigitsRead, Power, Worth, Next;
      NextDigit(len, remLen, c);
      if Digits(packet, after, rem) && after <= 5 {
        DigitInside(packet, after, rem, len, multiplier, remLen);
        if c == packet[taken] { DigitStep(packet, after, rem, len, remLen, c); }
      }
      remLen := remLen + Worth(c, multiplier);
      multiplier := Next(multiplier);
      len, taken := len + 1, taken + 1;
    }

    /** One digit, if it is there. */
    method ReadDigit(ghost packet: seq<Byte>, ghost after: nat, ghost rem: nat,
                     ghost rest: seq<Byte>) returns (frc: int, c: nat)
      requires Counting() && len < 4
      modifies this`multiplier, this`remLen, this`len, this`taken, source
      ensures Counting() && source.plan == (if old(source.plan) == [] then [] else old(source.plan)[1..]) && c < 256
      ensures -1 <= frc <= 1 && len == (if frc == 1 then old(len) + 1 else old(len))
      ensures old(OnTrack(packet, after, rem, rest)) ==>
                frc >= 0 && Supplies(source.input, packet, rest, taken) &&
                taken + Arrivals(source.plan) >= old(taken + Arrivals(source.plan)) &&
                (frc == 0 || c >= 128 ==> OnTrack(packet, after, rem, rest)) &&
                (frc == 1 && c < 128 ==> taken == after && remLen == rem)
    {
      hide DigitsRead, Power, Supplies, Given;
      ghost var good, input0, taken0 := OnTrack(packet, after, rem, rest), source.input, taken;
      if good {
        DigitInside(packet, after, rem, len, multiplier, remLen);
        SuppliesMore(input0, packet, rest, taken0, 1);
      }
      var bytes;
      frc, bytes := source.Get(1);
      c := 0;
      if frc <= 0 { return; }
      c := bytes[0];
      Accept(c, packet, after, rem);
    }

    /** MQTTPacket_decodenb: an error, 0 to be called again, or the number of digits.  When the stream
        continues with a packet there is no error. */
    method DecodeNb(ghost packet: seq<Byte>, ghost after: nat, ghost rem: nat, ghost rest: seq<Byte>) returns (rc: int)
      requires len == 0 || Counting()
      modifies this`multiplier, this`remLen, this`len, this`taken, source
      ensures -1 <= rc && Counting() && (NoErrors(old(source.plan)) ==> NoErrors(source.plan))
      ensures |source.plan| <= |old(source.plan)| &&
              (old(source.plan) != [] && rc >= 0 ==> |source.plan| < |old(source.plan)|)
      ensures old(OnTrack(packet, after, rem, rest)) ==> rc >= 0 && (rc == 0 ==> OnTrack(packet, after, rem, rest))
      ensures old(OnTrack(packet, after, rem, rest)) ==>
              taken + Arrivals(source.plan) >= old(taken + Arrivals(source.plan))
      ensures old(OnTrack(packet, after, rem, rest)) && rc > 0 ==>
                taken == after <= |packet| && remLen == rem && Supplies(source.input, packet, rest, taken)
    {
      hide DecodeLoop;
      if len == 0 { multiplier, remLen := 1, 0; }
      ghost var good := old(OnTrack(packet, after, rem, rest));
      while true
        invariant Counting() && (good ==> OnTrack(packet, after, rem, rest))
        invariant good ==> taken + Arrivals(source.plan) >= old(taken + Arrivals(source.plan))
        invariant |source.plan| <= |old(source.plan)| && (NoErrors(old(source.plan)) ==> NoErrors(source.plan))
        decreases 4 - len
      {
        if good { TrackBound(packet, after, rem, rest); }
        if len >= 4 { return -1; }
        var frc, c := ReadDigit(packet, after, rem, rest);
        if frc == -1 { return -1; }
        if frc == 0 { return 0; }
        if c < 128 { return len; }
      }
    }

    lemma TrackBound(packet: seq<Byte>, after: nat, rem: nat, rest: seq<Byte>)
      requires OnTrack(packet, after, rem, rest)
      ensures len < 4
    {
    }

    /** Case 0 of MQTTPacket_readnb: the header byte. */
    method ReadHeader(buf: array<Byte>, ghost packet: seq<Byte>, ghost header: Byte, ghost body: seq<Byte>,
                      ghost rest: seq<Byte>) returns (frc: int)
      requires Sane(buf) && state == 0
      modifies this`state, this`len, this`taken, source, buf
      ensures Sane(buf) && -1 <= frc <= 1 && (frc == 1 <==> state == 1) && (frc < 1 ==> state == 0) &&
              (frc == 1 ==> len == 0)
      ensures source.plan == if old(source.plan) == [] then [] else old(source.plan)[1..]
      ensures old(Expects(buf, packet, header, body, rest)) ==>
                frc >= 0 && Expects(buf, packet, header, body, rest) &&
                taken + Arrivals(source.plan) >= old(taken + Arrivals(source.plan))
    {
      hide Supplies, Given, DecodeLoop, Frame;
      if Expects(buf, packet, header, body, rest) {
        SuppliesMore(source.input, packet, rest, 0, 1);
        LengthFollows(packet, header, body);
      }
      var bytes;
      frc, bytes := source.Get(1);
      if frc <= 0 { return; }
      buf[0] := bytes[0];
      len, taken, state := 0, 1, 1;
    }

    /** Everything a call may rely on, between two calls and between its steps. */
    ghost predicate Expects(buf: array<Byte>, packet: seq<Byte>, header: Byte, body: seq<Byte>, rest: seq<Byte>)
      reads this, source, buf
    {
      NoErrors(source.plan) && IsPacket(packet, header, body) && Reading(buf, packet, body, rest)
    }

    /** The body of the packet comes next, if there is any left. */
    ghost predicate BodyNext(buf: array<Byte>, packet: seq<Byte>, rest: seq<Byte>)
      reads this, source, buf
    {
      NoErrors(source.plan) && taken == len <= |packet| <= buf.Length && buf[..taken] == packet[..taken] &&
      remLen == |packet| - len && Supplies(source.input, packet, rest, taken)
    }

    /** Case 1: the length, which is put back into the buffer when it is complete. */
    method ReadLength(buf: array<Byte>, ghost packet: seq<Byte>, ghost header: Byte, ghost body: seq<Byte>,
                      ghost rest: seq<Byte>) returns (frc: int)
      requires Sane(buf) && state == 1
      modifies this`state, this`multiplier, this`remLen, this`len, this`taken, source, buf
      ensures -1 <= frc <= 1 && (frc >= 0 ==> Sane(buf)) && (frc == 0 ==> state == 1) && (frc == 1 ==> state == 2)
      ensures |source.plan| <= |old(source.plan)| &&
              (old(source.plan) != [] && frc >= 0 ==> |source.plan| < |old(source.plan)|)
      ensures old(Expects(buf, packet, header, body, rest)) ==>
                frc >= 0 && (frc == 0 ==> Expects(buf, packet, header, body, rest)) &&
                    (frc == 1 ==> BodyNext(buf, packet, rest)) &&
                taken + Arrivals(source.plan) >= old(taken + Arrivals(source.plan))
    {
      hide Supplies, DecodeLoop, Frame, DigitsRead, Encode;
      ghost var after := if |body| <= |packet| then |packet| - |body| else 0;
      ghost var good := Expects(buf, packet, header, body, rest);
      if good { LengthFollows(packet, header, body); }
      frc := DecodeNb(packet, after, |body|, rest);
      if good && frc == 0 { DigitInside(packet, after, |body|, len, multiplier, remLen); }
      if frc <= 0 { return; }
      EncodedLength(remLen);
      var digits := Encode(remLen);
      ghost var before := buf[..];
      CopyTo(buf, 1, digits);
      if good { CopyExtends(before, buf[..], 1, digits, packet); }
      len := 1 + |digits|;
      if remLen + len > buf.Length { return -1; }
      state := 2;
      frc := 1;
    }

    /** Case 2: as much of the body as is there. */
    method ReadBody(buf: array<Byte>, ghost packet: seq<Byte>, ghost rest: seq<Byte>) returns (frc: int)
      requires Sane(buf) && state == 2 && remLen > 0
      modifies this`remLen, this`len, this`taken, source, buf
      ensures -1 <= frc && Sane(buf)
      ensures |source.plan| <= |old(source.plan)| && (old(source.plan) != [] ==> |source.plan| < |old(source.plan)|)
      ensures old(BodyNext(buf, packet, rest)) ==>
                frc >= 0 && BodyNext(buf, packet, rest) &&
                taken + Arrivals(source.plan) >= old(taken + Arrivals(source.plan))
      ensures frc == 0 ==> remLen == old(remLen) && taken == old(taken)
    {
      hide Supplies, Given;
      ghost var good, input0, taken0 := BodyNext(buf, packet, rest), source.input, taken;
      if good { SuppliesMore(input0, packet, rest, taken0, 1); }
      var bytes;
      frc, bytes := source.Get(remLen);
      if frc <= 0 {
        if good { SuppliesMore(input0, packet, rest, taken0, 0); assert input0[0..] == input0; }
        return;
      }
      if good { SuppliesMore(input0, packet, rest, taken0, frc); }
      ghost var before := buf[..];
      CopyTo(buf, len, bytes);
      if good { CopyExtends(before, buf[..], taken0, bytes, packet); }
      remLen, len, taken := remLen - frc, len + frc, taken + frc;
    }

    /** MQTTPacket_readnb: an error, 0 to be called again, or the packet type. */
    method ReadNb(buf: array<Byte>, ghost packet: seq<Byte>, ghost header: Byte, ghost body: seq<Byte>,
                  ghost rest: seq<Byte>) returns (rc: int)
      requires Sane(buf) && (state == 2 ==> remLen > 0)
      modifies this`state, this`multiplier, this`remLen, this`len, this`taken, source, buf
      ensures -1 <= rc && Sane(buf) && (state == 2 ==> remLen > 0)
      ensures |source.plan| <= |old(source.plan)| &&
              (old(source.plan) != [] && rc >= 0 ==> |source.plan| < |old(source.plan)|)
      ensures old(Expects(buf, packet, header, body, rest)) ==>
                if rc == 0 then
                  Expects(buf, packet, header, body, rest) &&
                  taken + Arrivals(source.plan) >= old(taken + Arrivals(source.plan))
                else rc == header / 16 && state == 0 && buf[..|packet|] == packet && source.input == rest
    {
      hide Supplies, DecodeLoop, DigitsRead, Encode, IsPacket;
      rc := -1;
      ghost var good := Expects(buf, packet, header, body, rest);
      if state != 1 && state != 2 { state := 0; }
      if state == 0 {
        var frc := ReadHeader(buf, packet, header, body, rest);
        if frc == -1 { return; }
        if frc == 0 { return 0; }
      }
      if state == 1 {
        var frc := ReadLength(buf, packet, header, body, rest);
        if frc == -1 { state := 0; return; }
        if frc == 0 { return 0; }
      }
      if remLen > 0 {
        var frc := ReadBody(buf, packet, rest);
        if frc == -1 { state := 0; return; }
        if frc == 0 || remLen > 0 { return 0; }
      }
      if good { Completes(buf[..], packet, header, body, source.input, rest); }
      rc := buf[0] / 16;
      state := 0;
    }
  }

  lemma Completes(bytes: seq<Byte>, packet: seq<Byte>, header: Byte, body: seq<Byte>, input: seq<Byte>, rest: seq<Byte>)
    requires IsPacket(packet, header, body) && |packet| <= |bytes| && bytes[..|packet|] == packet &&
             Supplies(input, packet, rest, |packet|)
    ensures input == rest && |bytes| > 0 && bytes[0] == header && header / 16 > 0
  {
    LengthFollows(packet, header, body);
    assert bytes[..|packet|][0] == packet[0];
  }

  lemma LengthFollows(packet: seq<Byte>, header: Byte, body: seq<Byte>)
    requires IsPacket(packet, header, body)
    ensures var after := |packet| - |body|;
            1 < after <= 5 && after == 1 + |Encode(|body|)| && packet[0] == header &&
            DigitsRead(packet, after, |body|, 0, 1, 0) &&
            packet[1..after] == Encode(|body|)
  {
    StandsWhole(packet);
    FrameReads(header, body, packet);
    EncodedLength(|body|);
    assert packet == [header] + (Encode(|body|) + body);
  }

  function Worth(c: nat, multiplier: nat): nat { c % 128 * multiplier }

  function Next(multiplier: nat): nat { multiplier * 128 }

  function Power(count: nat): nat
    requires count <= 4
  {
    if count == 4 then 268435456 else Multiplier(count)
  }

  /** With `len` digits read, decoding the others gives the length rem and ends at `after`. */
  ghost predicate DigitsRead(packet: seq<Byte>, after: nat, rem: nat, len: nat, multiplier: nat, value: nat) {
    len < 4 && 1 + len < after <= |packet| && (len > 0 ==> multiplier == Multiplier(len)) &&
    DecodeLoop(packet, 1 + len, len, if len == 0 then 0 else value) == Got(rem, after)
  }

  lemma DigitInside(packet: seq<Byte>, after: nat, rem: nat, len: nat, multiplier: nat, value: nat)
    requires DigitsRead(packet, after, rem, len, multiplier, value)
    ensures len < 4 && 1 + len < after <= |packet|
  {
  }

  /** A digit either completes the length or leaves the others to complete it. */
  lemma DigitStep(packet: seq<Byte>, after: nat, rem: nat, len: nat, value: nat, c: nat)
    requires len < 4 && after <= 5 && value < Power(len) && DigitsRead(packet, after, rem, len, Power(len), value)
    requires c == packet[1 + len]
    ensures var next := value + Worth(c, Power(len));
            if c < 128 then next == rem && after == 2 + len
            else DigitsRead(packet, after, rem, len + 1, Next(Power(len)), next)
  {
  }

  lemma NextDigit(count: nat, value: nat, c: nat)
    requires count < 4 && value < Power(count)
    ensures value + Worth(c, Power(count)) < Power(count + 1) && Power(count + 1) == Next(Power(count))
  {
  }

  /** Calling MQTTPacket_readnb again while it returns 0, for as long as something arrives.  Whatever the
      schedule of the transport: a packet of which everything arrives ends in the buffer with its type,
      the rest of the stream untouched; until then the reader waits for the rest of the same packet. */
  method Poll(t: Transport, buf: array<Byte>, ghost packet: seq<Byte>, ghost header: Byte, ghost body: seq<Byte>,
              ghost rest: seq<Byte>) returns (rc: int)
    requires t.Sane(buf) && t.state == 0 && t.Expects(buf, packet, header, body, rest)
    modifies t, t.source, buf
    ensures rc == 0 ==> t.source.plan == [] && t.Expects(buf, packet, header, body, rest)
    ensures Arrivals(old(t.source.plan)) >= |packet| ==> rc != 0
    ensures rc != 0 ==> rc == header / 16 && buf[..|packet|] == packet && t.source.input == rest
  {
    rc := 0;
    while rc == 0 && t.source.plan != []
      invariant t.Sane(buf) && (t.state == 2 ==> t.remLen > 0)
      invariant if rc == 0 then
                  t.Expects(buf, packet, header, body, rest) &&
                  t.taken + Arrivals(t.source.plan) >= Arrivals(old(t.source.plan))
                else rc == header / 16 && buf[..|packet|] == packet && t.source.input == rest
      decreases |t.source.plan|
    {
      rc := t.ReadNb(buf, packet, header, body, rest);
    }
  }

  /** MQTTPacket_decode on the blocking transport. */
  method DecodeStream(source: Source, ghost packet: seq<Byte>, ghost header: Byte, ghost body: seq<Byte>,
                      ghost rest: seq<Byte>) returns (value: nat)
    modifies source`input
    ensures value < 268435456
    ensures IsPacket(packet, header, body) && Supplies(old(source.input), packet, rest, 1) ==>
              value == |body| && Supplies(source.input, packet, rest, |packet| - |body|)
  {
    hide Supplies, DecodeLoop, DigitsRead, Frame, Power, Worth, Next;
    ghost var good := IsPacket(packet, header, body) && Supplies(source.input, packet, rest, 1);
    ghost var after := if |body| <= |packet| then |packet| - |body| else 0;
    if good { LengthFollows(packet, header, body); }
    PowerStarts();
    var multiplier, len := 1, 0;
    value := 0;
    while true
      invariant len <= 4 && multiplier == Power(len) && value < Power(len)
      invariant good ==>
                  len < 4 && DigitsRead(packet, after, |body|, len, multiplier, value) &&
                  Supplies(source.input, packet, rest, 1 + len)
      decreases 4 - len
    {
      if good { DigitInside(packet, after, |body|, len, multiplier, value); }
      if len == 4 { return; }
      if good { SuppliesMore(source.input, packet, rest, 1 + len, 1); }
      var frc, bytes := source.GetAll(1);
      if frc != 1 { PowerGrows(len); return; }
      var c: nat := bytes[0];
      NextDigit(len, value, c);
      if good { DigitStep(packet, after, |body|, len, value, c); }
      value, multiplier, len := value + Worth(c, multiplier), Next(multiplier), len + 1;
      if c < 128 { PowerGrows(len); return; }
    }
  }

  lemma PowerStarts()
    ensures Power(0) == 1 && Power(4) == 268435456
  {
  }

  lemma PowerGrows(len: nat)
    requires len <= 4
    ensures Power(len) <= 268435456
  {
  }

  /** MQTTPacket_read: what Poll ends with. */
  method Read(source: Source, buf: array<Byte>, ghost packet: seq<Byte>, ghost header: Byte, ghost body: seq<Byte>,
              ghost rest: seq<Byte>) returns (rc: int)
    requires buf.Length >= 5
    modifies source`input, buf
    ensures IsPacket(packet, header, body) && |packet| <= buf.Length && old(source.input) == packet + rest ==>
              rc == header / 16 && buf[..|packet|] == packet && source.input == rest
  {
    hide Supplies, Frame, Encode;
    ghost var good := IsPacket(packet, header, body) && |packet| <= buf.Length && source.input == packet + rest;
    if good {
      WholeStream(packet, rest);
      LengthFollows(packet, header, body);
      SuppliesMore(source.input, packet, rest, 0, 1);
    }
    rc := -1;
    var frc, bytes := source.GetAll(1);
    if frc != 1 { return; }
    buf[0] := bytes[0];
    var rem := DecodeStream(source, packet, header, body, rest);
    var digits := Encode(rem);
    EncodedLength(rem);
    ghost var before := buf[..];
    CopyTo(buf, 1, digits);
    if good { CopyExtends(before, buf[..], 1, digits, packet); }
    var len := 1 + |digits|;
    if rem + len > buf.Length { return; }
    if rem > 0 {
      if good { SuppliesMore(source.input, packet, rest, len, rem); }
      frc, bytes := source.GetAll(rem);
      if frc != rem { return; }
      before := buf[..];
      CopyTo(buf, len, bytes);
      if good { CopyExtends(before, buf[..], len, bytes, packet); }
    }
    if good { Completes(buf[..], packet, header, body, source.input, rest); }
    rc := buf[0] / 16;
  }

  lemma WholeStream(packet: seq<Byte>, rest: seq<Byte>)
    ensures Supplies(packet + rest, packet, rest, 0)
  {
  }
}
