/** The pieces MQTT packets are made of: the variable-length integer, two-byte integers and
    length-prefixed strings, written and read through an advancing position. */
module MqttWire {
  import opened Common

  type Byte = n: nat | n < 256

  const MAX_REMAINING: nat := 268435455

  /** The result of reading: the packet is refused, the source would read behind the buffer, or a value
      and the position behind it. */
  datatype Parsed<+T> = Refused | PastEnd | Got(value: T, next: nat)

  lemma StandsSlice(buf: seq<Byte>, at: nat, t: seq<Byte>)
    requires StandsAt(buf, at, t)
    ensures buf[at..at + |t|] == t
  {
  }

  lemma OneByte(buf: seq<Byte>, at: nat, b: Byte)
    requires StandsAt(buf, at, [b])
    ensures at < |buf| && buf[at] == b
  {
    assert [b][0] == buf[at];
  }

  lemma StandsWhole(t: seq<Byte>)
    ensures StandsAt(t, 0, t)
  {
  }

  // ---------- The variable-length integer ----------

  function Encode(n: nat): (r: seq<Byte>)
    ensures r != []
  {
    if n / 128 > 0 then [n % 128 + 128] + Encode(n / 128) else [n % 128]
  }

  function Multiplier(count: nat): nat
    requires count < 4
  {
    if count == 0 then 1 else if count == 1 then 128 else if count == 2 then 16384 else 2097152
  }

  /** The loop of MQTTPacket_decode after `count` bytes.  When a fifth byte is needed it stops with the
      value so far and a length of five. */
  function DecodeLoop(buf: seq<Byte>, at: nat, count: nat, value: nat): (r: Parsed<nat>)
    requires count <= 4
    ensures r.Got? ==> r.next > at
    ensures r != Refused
    decreases 4 - count
  {
    if count == 4 then Got(value, at + 1)
    else if at >= |buf| then PastEnd
    else
      var v: nat := value + (buf[at] as nat) % 128 * Multiplier(count);
      if buf[at] >= 128 then DecodeLoop(buf, at + 1, count + 1, v) else Got(v, at + 1)
  }

  function Decode(buf: seq<Byte>, at: nat): (r: Parsed<nat>)
    ensures r != Refused && (r.Got? ==> r.next > at)
  {
    DecodeLoop(buf, at, 0, 0)
  }

  /** The largest value that still fits behind `count` bytes. */
  function Room(count: nat): nat
    requires count <= 4
  {
    if count == 0 then 268435456 else if count == 1 then 2097152 else if count == 2 then 16384
    else if count == 3 then 128 else 1
  }

  /** The value that decoding after `count` bytes makes of an encoded n: all of it, or its low bits. */
  function Kept(n: nat, count: nat): nat
    requires count < 4
  {
    n % Room(count) * Multiplier(count)
  }

  lemma KeptAll(n: nat, count: nat)
    requires count < 4 && n < Room(count)
    ensures Kept(n, count) == n * Multiplier(count)
  {
  }

  /** One digit of n. */
  lemma KeptDigit(n: nat, count: nat)
    requires count < 4
    ensures Kept(n, count) == n % 128 * Multiplier(count) + (if count < 3 then Kept(n / 128, count + 1) else 0)
  {
    if count == 0 { SplitFirst(n); } else if count == 1 { SplitSecond(n); } else if count == 2 { SplitThird(n); }
  }

  lemma SplitFirst(n: nat)
    ensures n % 268435456 == n / 128 % 2097152 * 128 + n % 128
  {
    var a, d := n / 128, n % 128;
    var q, r := a / 2097152, a % 2097152;
    assert a == q * 2097152 + r && n == a * 128 + d;
    assert n == q * 268435456 + (r * 128 + d);
  }

  lemma SplitSecond(n: nat)
    ensures n % 2097152 == n / 128 % 16384 * 128 + n % 128
  {
    var a, d := n / 128, n % 128;
    var q, r := a / 16384, a % 16384;
    assert a == q * 16384 + r && n == a * 128 + d;
    assert n == q * 2097152 + (r * 128 + d);
  }

  lemma SplitThird(n: nat)
    ensures n % 16384 == n / 128 % 128 * 128 + n % 128
  {
    var a, d := n / 128, n % 128;
    var q, r := a / 128, a % 128;
    assert a == q * 128 + r && n == a * 128 + d;
    assert n == q * 16384 + (r * 128 + d);
  }

  lemma RoomDigit(n: nat, count: nat)
    requires count < 4
    ensures n < Room(count) <==> n / 128 < Room(count + 1)
  {
  }

  /** Decoding reads back what fits, and keeps the low seven bits of each of four bytes of what does
      not. */
  lemma {:induction false} DecodesEncoded(n: nat, buf: seq<Byte>, at: nat, count: nat, value: nat)
    requires count < 4 && StandsAt(buf, at, Encode(n))
    ensures DecodeLoop(buf, at, count, value)
         == Got(value + Kept(n, count), if n < Room(count) then at + |Encode(n)| else at + 5 - count)
    decreases 4 - count
  {
    hide Kept, Multiplier, Room;
    var digit, rest := n % 128, n / 128;
    KeptDigit(n, count);
    RoomDigit(n, count);
    RoomEnds();
    if rest > 0 {
      StandsApart(buf, at, [digit + 128], Encode(rest));
      FirstByte(buf, at, n);
      if count < 3 { DecodesEncoded(rest, buf, at + 1, count + 1, value + digit * Multiplier(count)); }
    } else {
      FirstByte(buf, at, n);
      if count < 3 { NothingKept(count + 1); }
    }
  }

  lemma FirstByte(buf: seq<Byte>, at: nat, n: nat)
    requires StandsAt(buf, at, Encode(n))
    ensures at < |buf| && buf[at] % 128 == n % 128 && (buf[at] >= 128 <==> n / 128 > 0)
  {
    assert Encode(n)[0] == buf[at];
  }

  lemma NothingKept(count: nat)
    requires count < 4
    ensures Kept(0, count) == 0 && 0 < Room(count)
  {
  }

  lemma RoomEnds()
    ensures Room(4) == 1 && forall count: nat :: count <= 4 ==> Room(count) > 0
  {
  }

  /** Decoding undoes encoding exactly for the values the standard allows, 0 to 268435455. */
  lemma DecodeUndoesEncodeIff(n: nat, buf: seq<Byte>, at: nat)
    requires StandsAt(buf, at, Encode(n))
    ensures Decode(buf, at) == Got(n, at + |Encode(n)|) <==> n <= MAX_REMAINING
  {
    DecodesEncoded(n, buf, at, 0, 0);
    if n <= MAX_REMAINING { KeptAll(n, 0); }
  }

  /** MQTTPacket_len: the size of a packet with this remaining length. */
  function PacketLen(rem: nat): nat {
    var len := rem + 1;
    if len < 128 then len + 1
    else if len < 16384 then len + 2
    else if len < 2097151 then len + 3
    else len + 4
  }

  lemma EncodedLength(n: nat)
    ensures |Encode(n)| == 1 <==> n < 128
    ensures |Encode(n)| == 2 <==> 128 <= n < 16384
    ensures |Encode(n)| == 3 <==> 16384 <= n < 2097152
    ensures |Encode(n)| == 4 <==> 2097152 <= n < 268435456
  {
    var a, b, c := n / 128, n / 128 / 128, n / 128 / 128 / 128;
    assert |Encode(n)| == if a > 0 then 1 + |Encode(a)| else 1;
    assert |Encode(a)| == if b > 0 then 1 + |Encode(b)| else 1;
    assert |Encode(b)| == if c > 0 then 1 + |Encode(c)| else 1;
    assert |Encode(c)| == if c / 128 > 0 then 1 + |Encode(c / 128)| else 1;
  }

  /** MQTTPacket_len never underestimates a packet exactly while its remaining length is encodable. */
  lemma PacketLenCoversIff(rem: nat)
    ensures 1 + |Encode(rem)| + rem <= PacketLen(rem) <==> rem <= MAX_REMAINING
  {
    EncodedLength(rem);
  }

  /** A buffer that is large enough for what MQTTPacket_len announces is large enough for the packet. */
  predicate Holds(rem: nat, size: nat) { PacketLen(rem) <= size ==> 1 + |Encode(rem)| + rem <= size }

  /** Every buffer is, for a length that the standard allows. */
  lemma HoldsWhenEncodable(rem: nat, size: nat)
    requires rem <= MAX_REMAINING
    ensures Holds(rem, size)
  {
    PacketLenCoversIff(rem);
  }

  /** Where it overestimates: at four values, by one. */
  lemma PacketLenExactIff(rem: nat)
    requires rem <= MAX_REMAINING
    ensures PacketLen(rem) == 1 + |Encode(rem)| + rem + (if rem in {127, 16383, 2097150, 2097151} then 1 else 0)
  {
    EncodedLength(rem);
  }

  // ---------- Two-byte integers and strings ----------

  function IntBytes(n: nat): (r: seq<Byte>)
    ensures |r| == 2
  {
    [n / 256 % 256, n % 256]
  }

  /** An MQTTString: a C string, a counted one, both or none. */
  datatype MqttString = MqttString(cstring: Option<seq<Byte>>, lenstring: Option<seq<Byte>>)

  predicate IsSet(m: MqttString) { m.cstring.Some? || m.lenstring.Some? }

  /** MQTTstrlen prefers the C string. */
  function StrLen(m: MqttString): nat {
    if m.cstring.Some? then |m.cstring.value| else if m.lenstring.Some? then |m.lenstring.value| else 0
  }

  /** writeMQTTString prefers a counted string that is not empty. */
  function Text(m: MqttString): seq<Byte> {
    if m.lenstring.Some? && m.lenstring.value != [] then m.lenstring.value
    else if m.cstring.Some? then m.cstring.value
    else []
  }

  function StringBytes(s: seq<Byte>): (r: seq<Byte>)
    ensures |r| == 2 + |s|
  {
    IntBytes(|s|) + s
  }

  /** What callers owe: if both forms are set, they are equally long; and a length that fits two bytes. */
  predicate WellFormed(m: MqttString) { |Text(m)| == StrLen(m) < 65536 }

  /** By how much the text that is written exceeds the length that is announced. */
  function Excess(m: MqttString): int { |Text(m)| - StrLen(m) }

  /** There is none unless both forms are set and differ in length. */
  lemma ExcessIff(m: MqttString)
    ensures Excess(m) != 0 <==>
            m.cstring.Some? && m.lenstring.Some? && m.lenstring.value != [] && |m.cstring.value| != |m.lenstring.value|
  {
  }

  function TwoBytes(high: nat, low: nat): nat { 256 * high + low }

  /** readInt. */
  function ReadInt(buf: seq<Byte>, at: nat): (r: Parsed<nat>)
    ensures r.Got? ==> r.next == at + 2 <= |buf| && r.value < 65536
    ensures r != Refused
  {
    if at + 2 > |buf| then PastEnd else Got(TwoBytes(buf[at], buf[at + 1]), at + 2)
  }

  function ReadChar(buf: seq<Byte>, at: nat): (r: Parsed<Byte>)
    ensures r.Got? ==> r.next == at + 1 <= |buf|
    ensures r != Refused
  {
    if at >= |buf| then PastEnd else Got(buf[at], at + 1)
  }

  /** readMQTTLenString, with the end of the data. */
  function ReadString(buf: seq<Byte>, at: nat, end: nat): (r: Parsed<seq<Byte>>)
    requires end <= |buf|
    ensures r.Got? ==> at < r.next <= end
    ensures r != PastEnd
  {
    if at + 1 >= end then Refused
    else
      var len := TwoBytes(buf[at], buf[at + 1]);
      if at + 2 + len <= end then Got(buf[at + 2..at + 2 + len], at + 2 + len) else Refused
  }

  lemma ReadsIntBack(buf: seq<Byte>, at: nat, n: nat)
    requires StandsAt(buf, at, IntBytes(n)) && n < 65536
    ensures ReadInt(buf, at) == Got(n, at + 2)
  {
    assert IntBytes(n)[0] == buf[at] && IntBytes(n)[1] == buf[at + 1];
  }

  lemma ReadsStringBack(buf: seq<Byte>, at: nat, s: seq<Byte>, end: nat)
    requires StandsAt(buf, at, StringBytes(s)) && |s| < 65536 && at + 2 + |s| <= end <= |buf|
    ensures ReadString(buf, at, end) == Got(s, at + 2 + |s|)
  {
    StandsApart(buf, at, IntBytes(|s|), s);
    ReadsIntBack(buf, at, |s|);
    StandsSlice(buf, at + 2, s);
  }

  // ---------- Writing ----------

  class Writer {
    const buf: array<Byte>
    var pos: nat

    constructor (buf: array<Byte>)
      ensures this.buf == buf && pos == 0
    {
      this.buf, this.pos := buf, 0;
    }

    ghost predicate Wrote(bytes: seq<Byte>)
      reads this, buf
    {
      pos == |bytes| <= buf.Length && buf[..pos] == bytes
    }

    /** writeChar. */
    method WriteChar(c: Byte, ghost done: seq<Byte>)
      requires Wrote(done) && pos < buf.Length
      modifies this`pos, buf
      ensures Wrote(done + [c]) && pos == old(pos) + 1
    {
      buf[pos] := c;
      pos := pos + 1;
    }

    /** writeInt. */
    method WriteInt(n: nat, ghost done: seq<Byte>)
      requires Wrote(done) && pos + 2 <= buf.Length
      modifies this`pos, buf
      ensures Wrote(done + IntBytes(n))
    {
      WriteChar(n / 256 % 256, done);
      WriteChar(n % 256, done + [n / 256 % 256]);
      assert done + [n / 256 % 256] + [n % 256] == done + IntBytes(n);
    }

    /** memcpy of a run of bytes. */
    method WriteBytes(s: seq<Byte>, ghost done: seq<Byte>)
      requires Wrote(done) && pos + |s| <= buf.Length
      modifies this`pos, buf
      ensures Wrote(done + s)
    {
      for i := 0 to |s|
        invariant Wrote(done + s[..i])
      {
        WriteChar(s[i], done + s[..i]);
        assert done + s[..i] + [s[i]] == done + s[..i + 1];
      }
      assert s[..|s|] == s;
    }

    /** writeMQTTString. */
    method WriteString(m: MqttString, ghost done: seq<Byte>)
      requires Wrote(done) && pos + 2 + |Text(m)| <= buf.Length
      modifies this`pos, buf
      ensures Wrote(done + StringBytes(Text(m)))
    {
      var s := Text(m);
      WriteInt(|s|, done);
      WriteBytes(s, done + IntBytes(|s|));
      assert done + IntBytes(|s|) + s == done + StringBytes(s);
    }

    /** MQTTPacket_encode. */
    method WriteLength(length: nat, ghost done: seq<Byte>)
      requires Wrote(done) && pos + |Encode(length)| <= buf.Length
      modifies this`pos, buf
      ensures Wrote(done + Encode(length))
    {
      hide Encode, IntBytes, Wrote;
      var n := length;
      ghost var made: seq<Byte> := [];
      Join(done, [], Encode(n));
      while true
        invariant Wrote(done + made) && made + Encode(n) == Encode(length)
        invariant pos + |Encode(n)| <= buf.Length
        decreases n
      {
        var d := n % 128;
        EncodeAdvances(made, n, Encode(length));
        n := n / 128;
        if n > 0 { d := d + 128; }
        WriteChar(d, done + made);
        Join(done, made, [d]);
        made := made + [d];
        if n == 0 { break; }
      }
    }
  }

  lemma Join(a: seq<Byte>, b: seq<Byte>, c: seq<Byte>)
    ensures a + b + c == a + (b + c) && a + [] == a && [] + c == c
  {
  }

  /** The next byte of a length, and what is left to write. */
  lemma EncodeAdvances(made: seq<Byte>, n: nat, all: seq<Byte>)
    requires made + Encode(n) == all
    ensures if n / 128 > 0 then made + [n % 128 + 128] + Encode(n / 128) == all && |Encode(n)| == 1 + |Encode(n / 128)|
            else made + [n % 128] == all && |Encode(n)| == 1
  {
    if n / 128 > 0 { Join(made, [n % 128 + 128], Encode(n / 128)); }
  }

  /** MQTTPacket_decodeBuf. */
  method DecodeBuf(buf: seq<Byte>, at: nat) returns (r: Parsed<nat>)
    ensures r == Decode(buf, at)
  {
    hide DecodeLoop, Multiplier;
    var value: nat, len: nat, multiplier: nat := 0, 0, 1;
    Multipliers();
    while true
      invariant len < 4 && multiplier == Multiplier(len)
      invariant DecodeLoop(buf, at + len, len, value) == Decode(buf, at)
      decreases 4 - len
    {
      DecodeUnfolds(buf, at + len, len, value);
      if at + len >= |buf| { return PastEnd; }
      var c: nat := buf[at + len];
      value := value + c % 128 * multiplier;
      len := len + 1;
      if c < 128 { return Got(value, at + len); }
      if len == 4 { return Got(value, at + 5); }
      multiplier := multiplier * 128;
    }
  }

  lemma Multipliers()
    ensures Multiplier(0) == 1 && forall k: nat :: k < 3 ==> Multiplier(k + 1) == Multiplier(k) * 128
  {
  }

  lemma DecodeUnfolds(buf: seq<Byte>, at: nat, count: nat, value: nat)
    requires count < 4
    ensures DecodeLoop(buf, at, count, value) ==
            if at >= |buf| then PastEnd
            else
              var v: nat := value + (buf[at] as nat) % 128 * Multiplier(count);
              if buf[at] < 128 then Got(v, at + 1)
              else if count == 3 then Got(v, at + 2) else DecodeLoop(buf, at + 1, count + 1, v)
  {
    hide Multiplier;
  }
}
