/** The MQTT 3.1.1 packets the publisher sends, and the decoder the standard
    asks of a broker. Strings are their octets. */
module Mqtt {
  import opened Bytes
  import opened Wrappers

  const CONNECT: byte := 0x10
  const PUBLISH: byte := 0x30
  /** Section 2.2.3: four length octets of seven bits each. */
  const LENGTH_OCTETS := 4
  const MAX_REMAINING_LENGTH := 268_435_455

  datatype Publish = Publish(topic: seq<byte>, payload: seq<byte>)

  // --- The remaining length (section 2.2.3) ---

  /** Seven bits an octet, low ones first, the top bit set on all but the last. */
  function Varint(n: nat): (s: seq<byte>)
    ensures |s| > 0
  {
    if n < 0x80 then [n] else [0x80 + n % 0x80] + Varint(n / 0x80)
  }

  method AppendVarint(out: ByteBuffer, len: nat)
    modifies out
    ensures out.data == old(out.data) + Varint(len)
  {
    var n := len;
    var more := true;
    while more
      invariant more ==> out.data + Varint(n) == old(out.data) + Varint(len)
      invariant !more ==> out.data == old(out.data) + Varint(len)
      decreases if more then n + 1 else 0
    {
      ghost var before, rest := out.data, n;
      var octet := n % 0x80;
      n := n / 0x80;
      if n > 0 {
        octet := octet + 0x80;
      }
      out.Push(octet);
      more := n > 0;
      if more {
        assert Varint(rest) == [octet] + Varint(n);
        assert before + Varint(rest) == out.data + Varint(n);
      } else {
        assert Varint(rest) == [octet];
      }
    }
  }

  /** The value and the octet count of a length in at most the given number of
      octets; None when it is cut short or runs on. */
  function ReadLength(s: seq<byte>, octets: nat): (r: Option<(nat, nat)>)
    ensures r.Some? ==> 0 < r.value.1 <= |s| && r.value.1 <= octets
    decreases octets
  {
    if s == [] || octets == 0 then None
    else if s[0] < 0x80 then Some((s[0] as nat, 1))
    else
      match ReadLength(s[1..], octets - 1)
      case None => None
      case Some((high, used)) => Some((s[0] - 0x80 + 0x80 * high, used + 1))
  }

  /** The decoder recovers a length, whatever follows it, exactly when its
      octets are allowed. */
  lemma {:induction false} LengthRoundTrip(n: nat, rest: seq<byte>, octets: nat)
    ensures ReadLength(Varint(n) + rest, octets) == if |Varint(n)| <= octets then Some((n, |Varint(n)|)) else None
    decreases n
  {
    var s := Varint(n) + rest;
    if n >= 0x80 && octets > 0 {
      assert s[1..] == Varint(n / 0x80) + rest;
      LengthRoundTrip(n / 0x80, rest, octets - 1);
    }
  }

  function Power128(k: nat): nat {
    if k == 0 then 1 else 0x80 * Power128(k - 1)
  }

  /** k octets are enough for exactly the lengths under 128^k. */
  lemma {:induction false} VarintSize(n: nat, k: nat)
    ensures |Varint(n)| <= k <==> k > 0 && n < Power128(k)
    decreases k
  {
    if k > 1 && n >= 0x80 {
      VarintSize(n / 0x80, k - 1);
      assert n / 0x80 < Power128(k - 1) <==> n < 0x80 * Power128(k - 1);
    } else if k > 1 {
      Power128Grows(k - 1);
    }
  }

  lemma {:induction false} Power128Grows(k: nat)
    ensures Power128(k) >= 1
  {
    if k > 0 {
      Power128Grows(k - 1);
    }
  }

  /** One to four octets exactly up to the standard's limit. */
  lemma FourOctetsIff(n: nat)
    ensures 1 <= |Varint(n)| <= LENGTH_OCTETS <==> n <= MAX_REMAINING_LENGTH
  {
    VarintSize(n, 4);
    assert Power128(4) == 0x80 * Power128(3) == 0x80 * (0x80 * Power128(2)) == 0x80 * (0x80 * (0x80 * (0x80 * 1)));
  }

  /** No shorter encoding of the same length exists. */
  lemma {:induction false} VarintIsMinimal(s: seq<byte>, octets: nat)
    requires ReadLength(s, octets).Some?
    ensures |Varint(ReadLength(s, octets).value.0)| <= ReadLength(s, octets).value.1
    decreases octets
  {
    if s[0] >= 0x80 {
      VarintIsMinimal(s[1..], octets - 1);
      var high := ReadLength(s[1..], octets - 1).value.0;
      var n := ReadLength(s, octets).value.0;
      assert n == s[0] - 0x80 + 0x80 * high;
      assert n / 0x80 == high;
    }
  }

  // --- Encoding ---

  /** Section 1.5.3; the length is truncated to sixteen bits. */
  function StringField(s: seq<byte>): seq<byte> {
    BigEndian16(|s| % 0x1_0000) + s
  }

  method AppendMqttString(out: ByteBuffer, s: seq<byte>)
    modifies out
    ensures out.data == old(out.data) + StringField(s)
  {
    out.Push(|s| / 0x100 % 0x100);
    out.Push(|s| % 0x100);
    out.Append(s);
    assert BigEndian16(|s| % 0x1_0000) == [|s| / 0x100 % 0x100, |s| % 0x100] by {
      Halves(|s|);
    }
    assert out.data == old(out.data) + (BigEndian16(|s| % 0x1_0000) + s);
  }

  lemma Halves(n: nat)
    ensures n % 0x1_0000 / 0x100 == n / 0x100 % 0x100 && n % 0x1_0000 % 0x100 == n % 0x100
  {
  }

  function Packet(kind: byte, body: seq<byte>): seq<byte> {
    [kind] + Varint(|body|) + body
  }

  function PublishPacket(m: Publish): seq<byte> {
    Packet(PUBLISH, StringField(m.topic) + m.payload)
  }

  function ConnectPacket(clientId: seq<byte>, keepAlive: u16): seq<byte> {
    Packet(CONNECT, ConnectHeader(keepAlive) + StringField(clientId))
  }

  /** "MQTT", protocol level 3.1.1, clean session, the keep-alive. */
  function ConnectHeader(keepAlive: u16): seq<byte> {
    StringField([0x4D, 0x51, 0x54, 0x54]) + [0x04, 0x02] + BigEndian16(keepAlive)
  }

  lemma FieldOctets(s: seq<byte>)
    ensures StringField(s) == [|s| / 0x100 % 0x100, |s| % 0x100] + s
  {
    Halves(|s|);
  }

  /** A PUBLISH, octet by octet around its variable parts. */
  lemma PublishOctets(m: Publish)
    ensures PublishPacket(m)
         == [0x30] + Varint(2 + |m.topic| + |m.payload|)
            + ([|m.topic| / 0x100 % 0x100, |m.topic| % 0x100] + m.topic + m.payload)
  {
    hide Varint, StringField;
    FieldOctets(m.topic);
  }

  /** A CONNECT, likewise: the name, the level 4, a clean session, the
      keep-alive and the client id. */
  lemma ConnectOctets(clientId: seq<byte>, keepAlive: u16)
    ensures ConnectPacket(clientId, keepAlive)
         == [0x10] + Varint(12 + |clientId|)
            + ([0x00, 0x04, 0x4D, 0x51, 0x54, 0x54, 0x04, 0x02, keepAlive / 0x100, keepAlive % 0x100]
               + ([|clientId| / 0x100 % 0x100, |clientId| % 0x100] + clientId))
  {
    hide Varint, StringField, ConnectHeader;
    ConnectHeaderOctets(keepAlive);
    FieldOctets(clientId);
  }

  lemma ConnectHeaderOctets(keepAlive: u16)
    ensures ConnectHeader(keepAlive)
         == [0x00, 0x04, 0x4D, 0x51, 0x54, 0x54, 0x04, 0x02, keepAlive / 0x100, keepAlive % 0x100]
  {
    HeaderOctets(keepAlive);
    assert BigEndian16(keepAlive) == [keepAlive / 0x100, keepAlive % 0x100];
  }

  method EncodePublish(m: Publish) returns (packet: ByteBuffer)
    ensures fresh(packet) && packet.data == PublishPacket(m)
  {
    var body := new ByteBuffer();
    AppendMqttString(body, m.topic);
    body.Append(m.payload);
    packet := new ByteBuffer();
    packet.Push(PUBLISH);
    AppendVarint(packet, |body.data|);
    packet.Append(body.data);
    assert body.data == StringField(m.topic) + m.payload;
  }

  method EncodeConnect(clientId: seq<byte>, keepAlive: u16) returns (packet: ByteBuffer)
    ensures fresh(packet) && packet.data == ConnectPacket(clientId, keepAlive)
  {
    var body := new ByteBuffer();
    AppendMqttString(body, [0x4D, 0x51, 0x54, 0x54]);
    body.Push(0x04);
    body.Push(0x02);
    body.Push(keepAlive / 0x100);
    body.Push(keepAlive % 0x100);
    assert body.data == ConnectHeader(keepAlive);
    AppendMqttString(body, clientId);
    packet := new ByteBuffer();
    packet.Push(CONNECT);
    AppendVarint(packet, |body.data|);
    packet.Append(body.data);
  }

  // --- Decoding, as the standard has it ---

  /** The next packet's first octet and body, and what follows it. */
  function TakePacket(s: seq<byte>): Option<(byte, seq<byte>, seq<byte>)> {
    if s == [] then None
    else
      match ReadLength(s[1..], LENGTH_OCTETS)
      case None => None
      case Some((length, used)) =>
        if |s| < 1 + used + length then None
        else Some((s[0], s[1 + used..1 + used + length], s[1 + used + length..]))
  }

  function TakeString(s: seq<byte>): (r: Option<(seq<byte>, seq<byte>)>)
    ensures r.Some? ==> |r.value.0| < 0x1_0000 && 2 + |r.value.0| + |r.value.1| == |s|
  {
    if |s| < 2 || |s| < 2 + ReadU16(s) then None
    else Some((s[2..2 + ReadU16(s)], s[2 + ReadU16(s)..]))
  }

  function TakePublish(s: seq<byte>): Option<(Publish, seq<byte>)> {
    match TakePacket(s)
    case None => None
    case Some((kind, body, rest)) =>
      if kind != PUBLISH then None
      else
        match TakeString(body)
        case None => None
        case Some((topic, payload)) => Some((Publish(topic, payload), rest))
  }

  /** The client id and keep-alive of a CONNECT with exactly our header. */
  function DecodeConnect(s: seq<byte>): Option<(seq<byte>, u16)> {
    match TakePacket(s)
    case None => None
    case Some((kind, body, rest)) =>
      if kind != CONNECT || rest != [] || |body| < 10 || body[..8] != ConnectHeader(0)[..8] then None
      else
        match TakeString(body[10..])
        case None => None
        case Some((clientId, more)) => if more != [] then None else Some((clientId, ReadU16(body[8..])))
  }

  function TakePublishes(s: seq<byte>): Option<seq<Publish>>
    decreases |s|
  {
    if s == [] then Some([])
    else
      match TakePublish(s)
      case None => None
      case Some((m, rest)) =>
        match TakePublishes(rest)
        case None => None
        case Some(more) => Some([m] + more)
  }

  // --- What a broker recovers ---

  predicate Fits(m: Publish) {
    |m.topic| < 0x1_0000 && 2 + |m.topic| + |m.payload| <= MAX_REMAINING_LENGTH
  }

  lemma PacketRoundTrip(kind: byte, body: seq<byte>, rest: seq<byte>)
    ensures TakePacket(Packet(kind, body) + rest)
         == if |body| <= MAX_REMAINING_LENGTH then Some((kind, body, rest)) else None
  {
    var s, v := Packet(kind, body) + rest, Varint(|body|);
    assert s[1..] == v + (body + rest);
    LengthRoundTrip(|body|, body + rest, LENGTH_OCTETS);
    FourOctetsIff(|body|);
    assert s[1 + |v|..] == body + rest;
    assert s[1 + |v|..1 + |v| + |body|] == body && s[1 + |v| + |body|..] == rest;
  }

  lemma StringRoundTrip(s: seq<byte>, rest: seq<byte>)
    ensures |s| < 0x1_0000 ==> TakeString(StringField(s) + rest) == Some((s, rest))
  {
    hide BigEndian16, ReadU16;
    if |s| < 0x1_0000 {
      var field := StringField(s) + rest;
      assert field[..2] == BigEndian16(|s|) && field[2..2 + |s|] == s && field[2 + |s|..] == rest;
      U16RoundTrip(field, |s|);
    }
  }

  /** A packet read is a packet that fits: the decoder never reports more than
      the wire format can say. */
  lemma {:induction false} TakenFits(s: seq<byte>)
    ensures TakePublish(s).Some? ==> Fits(TakePublish(s).value.0)
  {
  }

  /** One packet, whatever follows it: the broker recovers topic and payload
      exactly when both length fields can hold their lengths. */
  lemma PublishRoundTripIff(m: Publish, rest: seq<byte>)
    ensures TakePublish(PublishPacket(m) + rest) == Some((m, rest)) <==> Fits(m)
  {
    var body := StringField(m.topic) + m.payload;
    if Fits(m) {
      PacketRoundTrip(PUBLISH, body, rest);
      StringRoundTrip(m.topic, m.payload);
    } else {
      TakenFits(PublishPacket(m) + rest);
    }
  }

  function Stream(messages: seq<Publish>): seq<byte> {
    if messages == [] then [] else PublishPacket(messages[0]) + Stream(messages[1..])
  }

  /** Any run of packets on the connection: the broker recovers exactly the
      messages published, in order, exactly when each of them fits. */
  lemma {:induction false} StreamRoundTripIff(messages: seq<Publish>)
    ensures TakePublishes(Stream(messages)) == Some(messages) <==> forall m :: m in messages ==> Fits(m)
  {
    hide PublishPacket, TakePublish, Fits;
    if messages != [] {
      var m, rest := messages[0], Stream(messages[1..]);
      PublishRoundTripIff(m, rest);
      PacketIsNotEmpty(m);
      StreamRoundTripIff(messages[1..]);
      assert messages == [m] + messages[1..];
      if forall x :: x in messages ==> Fits(x) {
      } else if TakePublishes(Stream(messages)) == Some(messages) {
        AllTakenFit(Stream(messages));
      }
    }
  }

  lemma PacketIsNotEmpty(m: Publish)
    ensures PublishPacket(m) != []
  {
  }

  lemma {:induction false} AllTakenFit(s: seq<byte>)
    requires TakePublishes(s).Some?
    ensures forall m :: m in TakePublishes(s).value ==> Fits(m)
    decreases |s|
  {
    hide Fits;
    if s != [] {
      TakenFits(s);
      AllTakenFit(TakePublish(s).value.1);
    }
  }

  /** The broker learns the client id and the keep-alive exactly when the id
      fits its length field. */
  lemma ConnectRoundTripIff(clientId: seq<byte>, keepAlive: u16)
    ensures DecodeConnect(ConnectPacket(clientId, keepAlive)) == Some((clientId, keepAlive)) <==> |clientId| < 0x1_0000
  {
    hide StringField, Packet, TakePacket, TakeString;
    var header, s := ConnectHeader(keepAlive), ConnectPacket(clientId, keepAlive);
    var body := header + StringField(clientId);
    HeaderOctets(keepAlive);
    HeaderOctets(0);
    if |clientId| < 0x1_0000 {
      FieldSize(clientId);
      PacketRoundTrip(CONNECT, body, []);
      assert s + [] == s;
      assert body[10..] == StringField(clientId) && body[8..][..2] == BigEndian16(keepAlive);
      assert body[..8] == header[..8];
      U16RoundTrip(body[8..], keepAlive);
      StringRoundTrip(clientId, []);
      assert StringField(clientId) + [] == StringField(clientId);
    }
  }

  lemma HeaderOctets(keepAlive: u16)
    ensures ConnectHeader(keepAlive) == [0x00, 0x04, 0x4D, 0x51, 0x54, 0x54, 0x04, 0x02] + BigEndian16(keepAlive)
  {
  }

  lemma FieldSize(s: seq<byte>)
    ensures |StringField(s)| == 2 + |s|
  {
  }

  // --- The decoders take in nothing else ---

  lemma StringTaken(s: seq<byte>, field: seq<byte>, rest: seq<byte>)
    ensures TakeString(s) == Some((field, rest)) <==> |field| < 0x1_0000 && s == StringField(field) + rest
  {
    hide BigEndian16, ReadU16;
    if |field| < 0x1_0000 {
      StringRoundTrip(field, rest);
      if TakeString(s) == Some((field, rest)) {
        U16RoundTrip(s, |field|);
        assert s == s[..2] + s[2..2 + |field|] + s[2 + |field|..];
      }
    }
  }

  /** A broker reads a message exactly out of a packet of kind 0x30 whose body
      is the topic's field and the payload. */
  lemma TakePublishIff(s: seq<byte>, m: Publish, rest: seq<byte>)
    ensures TakePublish(s) == Some((m, rest))
       <==> |m.topic| < 0x1_0000 && TakePacket(s) == Some((0x30, StringField(m.topic) + m.payload, rest))
  {
    hide TakePacket, TakeString, StringField;
    match TakePacket(s)
    case None =>
    case Some((kind, body, after)) => StringTaken(body, m.topic, m.payload);
  }

  /** And a client id and keep-alive exactly out of one of kind 0x10 whose body
      is our header and the id's field. */
  lemma DecodeConnectIff(s: seq<byte>, clientId: seq<byte>, keepAlive: u16)
    ensures DecodeConnect(s) == Some((clientId, keepAlive))
       <==> |clientId| < 0x1_0000 && TakePacket(s) == Some((0x10, ConnectHeader(keepAlive) + StringField(clientId), []))
  {
    hide TakePacket, TakeString, StringField, ConnectHeader, BigEndian16, ReadU16;
    HeaderOctets(keepAlive);
    HeaderOctets(0);
    FieldSize(clientId);
    match TakePacket(s)
    case None =>
    case Some((kind, body, after)) =>
      if |body| >= 10 {
        StringTaken(body[10..], clientId, []);
        U16RoundTrip(body[8..], keepAlive);
        assert StringField(clientId) + [] == StringField(clientId);
        assert body[8..][..2] == body[8..10];
        assert body == body[..8] + body[8..10] + body[10..];
        var whole := ConnectHeader(keepAlive) + StringField(clientId);
        assert whole[..8] == ConnectHeader(0)[..8] && whole[8..10] == BigEndian16(keepAlive);
        assert whole[10..] == StringField(clientId);
      }
  }
}
