/** DoIP framing (the generic header of ISO 13400-2:2012): an eight byte header
    carrying version, inverse version, payload type and payload length, then
    the payload.

    Wire is the byte stream of a list of frames; ParseWire reads a stream back
    frame by frame, knowing nothing of how it was written. */
module DoipProtocol {
  import opened Bytes
  import opened Wrappers

  const PROTOCOL_VERSION: byte := 0x02
  const HEADER_SIZE := 8

  datatype PayloadType =
    | RoutingActivationRequest
    | RoutingActivationResponse
    | DiagnosticMessage
    | DiagnosticMessagePositiveAck
    | DiagnosticMessageNegativeAck
  {
    function Code(): u16 {
      match this
      case RoutingActivationRequest => 0x0005
      case RoutingActivationResponse => 0x0006
      case DiagnosticMessage => 0x8001
      case DiagnosticMessagePositiveAck => 0x8002
      case DiagnosticMessageNegativeAck => 0x8003
    }
  }

  function TypeOfCode(code: u16): Option<PayloadType> {
    match code
    case 0x0005 => Some(RoutingActivationRequest)
    case 0x0006 => Some(RoutingActivationResponse)
    case 0x8001 => Some(DiagnosticMessage)
    case 0x8002 => Some(DiagnosticMessagePositiveAck)
    case 0x8003 => Some(DiagnosticMessageNegativeAck)
    case _ => None
  }

  datatype Header = Header(payloadType: PayloadType, payloadLength: u32)

  function HeaderBytes(h: Header): (s: seq<byte>)
    ensures |s| == HEADER_SIZE
  {
    [PROTOCOL_VERSION, 0xFF - PROTOCOL_VERSION] + BigEndian16(h.payloadType.Code()) + BigEndian32(h.payloadLength)
  }

  method AppendHeader(out: ByteBuffer, payloadType: PayloadType, payloadLength: u32)
    modifies out
    ensures out.data == old(out.data) + HeaderBytes(Header(payloadType, payloadLength))
  {
    BigEndian32Shifts(payloadLength);
    out.Push(PROTOCOL_VERSION);
    out.Push(0xFF - PROTOCOL_VERSION);
    out.AppendU16(payloadType.Code());
    hide BigEndian32, BigEndian16;
    out.Push(payloadLength / 0x100_0000 % 0x100);
    out.Push(payloadLength / 0x1_0000 % 0x100);
    out.Push(payloadLength / 0x100 % 0x100);
    out.Push(payloadLength % 0x100);
  }

  function DecodeHeader(data: seq<byte>): Option<Header> {
    if |data| < HEADER_SIZE then None
    else if data[0] != PROTOCOL_VERSION then None
    else if data[1] != 0xFF - PROTOCOL_VERSION then None
    else match TypeOfCode(ReadU16(data[2..]))
      case None => None
      case Some(t) => Some(Header(t, ReadU32(data[4..])))
  }

  /** A header is recognised exactly when the stream begins with the eight
      bytes that header is written as. */
  lemma HeaderRoundTrip(data: seq<byte>, h: Header)
    ensures DecodeHeader(data) == Some(h) <==> HeaderBytes(h) <= data
  {
    var w := HeaderBytes(h);
    assert w[2..4] == BigEndian16(h.payloadType.Code()) && w[4..8] == BigEndian32(h.payloadLength);
    if |data| >= HEADER_SIZE {
      assert data[2..][..2] == data[2..4] && data[4..][..4] == data[4..8];
      U16RoundTrip(data[2..], h.payloadType.Code());
      U32RoundTrip(data[4..], h.payloadLength);
      TypeCodes(ReadU16(data[2..]), h.payloadType);
      if DecodeHeader(data) == Some(h) {
        assert data[..8] == [data[0], data[1]] + data[2..4] + data[4..8];
      }
      if w <= data {
        assert data[..8] == w;
        assert data[0] == w[0] && data[1] == w[1];
        assert data[2..4] == w[2..4] && data[4..8] == w[4..8];
      }
    }
  }

  lemma TypeCodes(code: u16, t: PayloadType)
    ensures TypeOfCode(code) == Some(t) <==> code == t.Code()
  {
  }

  /** The five types by their codes, and the header octet by octet. */
  lemma HeaderOctets(t: PayloadType, length: u32)
    ensures RoutingActivationRequest.Code() == 0x0005 && RoutingActivationResponse.Code() == 0x0006
    ensures DiagnosticMessage.Code() == 0x8001
    ensures DiagnosticMessagePositiveAck.Code() == 0x8002 && DiagnosticMessageNegativeAck.Code() == 0x8003
    ensures HeaderBytes(Header(t, length))
         == [0x02, 0xFD, t.Code() / 0x100, t.Code() % 0x100,
             length / 0x100_0000 % 0x100, length / 0x1_0000 % 0x100, length / 0x100 % 0x100, length % 0x100]
  {
    BigEndian32Shifts(length);
  }

  // --- Diagnostic messages ---

  datatype Addressed = Addressed(source: u16, target: u16, uds: seq<byte>)

  function AddressedBytes(m: Addressed): (s: seq<byte>)
    ensures |s| == 4 + |m.uds|
  {
    BigEndian16(m.source) + BigEndian16(m.target) + m.uds
  }

  function DecodeDiagnosticMessage(payload: seq<byte>): Option<Addressed> {
    if |payload| < 4 then None
    else Some(Addressed(ReadU16(payload), ReadU16(payload[2..]), payload[4..]))
  }

  lemma DiagnosticMessageRoundTrip(payload: seq<byte>, m: Addressed)
    ensures DecodeDiagnosticMessage(payload) == Some(m) <==> payload == AddressedBytes(m)
  {
  }

  /** Octet by octet: the source, the target, then the UDS message. */
  lemma AddressedOctets(m: Addressed)
    ensures AddressedBytes(m) == [m.source / 0x100, m.source % 0x100, m.target / 0x100, m.target % 0x100] + m.uds
  {
  }

  /** The activation response fields the tester looks at. */
  datatype Activation = Activation(tester: u16, entity: u16, code: byte)

  function DecodeRoutingActivationResponse(payload: seq<byte>): Option<Activation> {
    if |payload| < 5 then None
    else Some(Activation(ReadU16(payload), ReadU16(payload[2..]), payload[4]))
  }

  /** Octet by octet: the tester, the entity, the code, then anything. */
  lemma ActivationOctets(payload: seq<byte>, a: Activation)
    ensures DecodeRoutingActivationResponse(payload) == Some(a)
       <==> [a.tester / 0x100, a.tester % 0x100, a.entity / 0x100, a.entity % 0x100, a.code] <= payload
  {
    if |payload| >= 5 {
      U16RoundTrip(payload, a.tester);
      U16RoundTrip(payload[2..], a.entity);
      assert payload[..5] == payload[..2] + payload[2..][..2] + [payload[4]];
      assert payload[..5] == [payload[0], payload[1], payload[2], payload[3], payload[4]];
      assert payload[2..][..2] == [payload[2], payload[3]] && payload[..2] == [payload[0], payload[1]];
    }
  }

  // --- Frames and streams of frames ---

  datatype Frame = Frame(payloadType: PayloadType, payload: seq<byte>) {
    /** The payload length fits the header's 32-bit field. */
    predicate Fits() {
      |payload| < 0x1_0000_0000
    }

    /** The length field is the payload size cut to 32 bits. */
    function Bytes(): (s: seq<byte>)
      ensures |s| == HEADER_SIZE + |payload|
    {
      HeaderBytes(Header(payloadType, |payload| % 0x1_0000_0000)) + payload
    }
  }

  function DiagnosticFrame(source: u16, target: u16, uds: seq<byte>): Frame {
    Frame(DiagnosticMessage, AddressedBytes(Addressed(source, target, uds)))
  }

  function ActivationFrame(source: u16, activationType: byte): Frame {
    Frame(RoutingActivationRequest, BigEndian16(source) + [activationType] + [0, 0, 0, 0])
  }

  /** The whole request frames, octet by octet. */
  lemma DiagnosticFrameOctets(source: u16, target: u16, uds: seq<byte>)
    requires |uds| + 4 < 0x1_0000_0000
    ensures var n := |uds| + 4;
      DiagnosticFrame(source, target, uds).Bytes()
      == [0x02, 0xFD, 0x80, 0x01,
          n / 0x100_0000 % 0x100, n / 0x1_0000 % 0x100, n / 0x100 % 0x100, n % 0x100]
         + ([source / 0x100, source % 0x100, target / 0x100, target % 0x100] + uds)
  {
    hide HeaderBytes, AddressedBytes;
    HeaderOctets(DiagnosticMessage, |uds| + 4);
    AddressedOctets(Addressed(source, target, uds));
  }

  lemma ActivationFrameOctets(source: u16, activationType: byte)
    ensures ActivationFrame(source, activationType).Bytes()
         == [0x02, 0xFD, 0x00, 0x05, 0x00, 0x00, 0x00, 0x07]
            + [source / 0x100, source % 0x100, activationType, 0x00, 0x00, 0x00, 0x00]
  {
    hide HeaderBytes;
    HeaderOctets(RoutingActivationRequest, 7);
    var f := ActivationFrame(source, activationType);
    assert f.payload == [source / 0x100, source % 0x100, activationType, 0x00, 0x00, 0x00, 0x00];
  }

  method EncodeDiagnosticMessage(source: u16, target: u16, uds: seq<byte>) returns (out: seq<byte>)
    ensures out == DiagnosticFrame(source, target, uds).Bytes()
  {
    var payload := new ByteBuffer();
    payload.AppendU16(source);
    payload.AppendU16(target);
    payload.Append(uds);

    var frame := new ByteBuffer();
    AppendHeader(frame, DiagnosticMessage, |payload.data| % 0x1_0000_0000);
    frame.Append(payload.data);
    out := frame.data;
  }

  method EncodeRoutingActivationRequest(source: u16, activationType: byte) returns (out: seq<byte>)
    ensures out == ActivationFrame(source, activationType).Bytes()
  {
    var payload := new ByteBuffer();
    payload.AppendU16(source);
    payload.Push(activationType);
    payload.Append([0, 0, 0, 0]);

    var frame := new ByteBuffer();
    AppendHeader(frame, RoutingActivationRequest, |payload.data|);
    frame.Append(payload.data);
    out := frame.data;
  }

  /** The first frame of a stream and what follows it; None while the stream
      does not begin with a complete frame. */
  function TakeFrame(s: seq<byte>): (r: Option<(Frame, seq<byte>)>)
    ensures r.Some? ==> |r.value.1| < |s|
  {
    match DecodeHeader(s)
    case None => None
    case Some(h) =>
      if |s| < HEADER_SIZE + h.payloadLength then None
      else Some((Frame(h.payloadType, s[HEADER_SIZE..HEADER_SIZE + h.payloadLength]),
                 s[HEADER_SIZE + h.payloadLength..]))
  }

  /** TakeFrame finds a frame exactly where that frame's own bytes stand. */
  lemma TakeFrameIff(s: seq<byte>, f: Frame, rest: seq<byte>)
    ensures TakeFrame(s) == Some((f, rest)) <==> f.Fits() && s == f.Bytes() + rest
  {
    hide HeaderBytes, DecodeHeader;
    if TakeFrame(s) == Some((f, rest)) {
      var h := DecodeHeader(s).value;
      HeaderRoundTrip(s, h);
      assert s == s[..8] + f.payload + rest;
    }
    if f.Fits() && s == f.Bytes() + rest {
      var h := Header(f.payloadType, |f.payload|);
      assert s[..8] == HeaderBytes(h);
      HeaderRoundTrip(s, h);
      assert s[8..8 + |f.payload|] == f.payload;
      assert s[8 + |f.payload|..] == rest;
    }
  }

  function Wire(fs: seq<Frame>): seq<byte> {
    if fs == [] then [] else fs[0].Bytes() + Wire(fs[1..])
  }

  /** Reads whole frames off the front until none is left; the second part is
      the unread tail. */
  function ParseWire(s: seq<byte>): (seq<Frame>, seq<byte>)
    decreases |s|
  {
    match TakeFrame(s)
    case None => ([], s)
    case Some((f, rest)) => var (fs, tail) := ParseWire(rest); ([f] + fs, tail)
  }

  predicate AllFit(fs: seq<Frame>) {
    forall i :: 0 <= i < |fs| ==> fs[i].Fits()
  }

  /** DoIP frames are self-delimiting: reading a stream that begins with any
      list of encoded frames gives back exactly that list, and goes on with
      what follows it. */
  lemma {:induction false} FramesAreSelfDelimiting(fs: seq<Frame>, tail: seq<byte>)
    requires AllFit(fs)
    ensures ParseWire(Wire(fs) + tail) == (fs + ParseWire(tail).0, ParseWire(tail).1)
  {
    hide Frame.Bytes, TakeFrame;
    if fs == [] {
      assert Wire(fs) + tail == tail && fs + ParseWire(tail).0 == ParseWire(tail).0;
    } else {
      assert Wire(fs) + tail == fs[0].Bytes() + (Wire(fs[1..]) + tail);
      TakeFrameIff(Wire(fs) + tail, fs[0], Wire(fs[1..]) + tail);
      FramesAreSelfDelimiting(fs[1..], tail);
      assert [fs[0]] + (fs[1..] + ParseWire(tail).0) == fs + ParseWire(tail).0;
    }
  }

  /** Nothing is invented: what was read, written again, is the stream. */
  lemma {:induction false} ParseWireSound(s: seq<byte>)
    ensures AllFit(ParseWire(s).0)
    ensures Wire(ParseWire(s).0) + ParseWire(s).1 == s
    ensures TakeFrame(ParseWire(s).1) == None
    decreases |s|
  {
    hide Frame.Bytes, TakeFrame;
    match TakeFrame(s)
    case None =>
    case Some((f, rest)) =>
      TakeFrameIff(s, f, rest);
      ParseWireSound(rest);
      var fs := ParseWire(s).0;
      assert fs[1..] == ParseWire(rest).0;
      assert Wire(fs) + ParseWire(s).1 == f.Bytes() + (Wire(fs[1..]) + ParseWire(rest).1);
  }

  /** Two different frame lists never share an encoding. */
  lemma WireInjective(fs: seq<Frame>, gs: seq<Frame>)
    requires AllFit(fs) && AllFit(gs) && Wire(fs) == Wire(gs)
    ensures fs == gs
  {
    FramesAreSelfDelimiting(fs, []);
    FramesAreSelfDelimiting(gs, []);
    assert Wire(fs) + [] == Wire(fs) && Wire(gs) + [] == Wire(gs);
    assert fs + [] == fs && gs + [] == gs;
  }

  /** More bytes never change the frames already read. */
  lemma ParseWireExtends(a: seq<byte>, b: seq<byte>)
    ensures ParseWire(a + b) == (ParseWire(a).0 + ParseWire(ParseWire(a).1 + b).0, ParseWire(ParseWire(a).1 + b).1)
  {
    hide ParseWire, Wire, TakeFrame;
    ParseWireSound(a);
    var (fs, tail) := ParseWire(a);
    assert a + b == Wire(fs) + (tail + b);
    FramesAreSelfDelimiting(fs, tail + b);
  }
}
