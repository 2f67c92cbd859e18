/** One TCP connection to a DoIP entity: routing activation, then diagnostic
    requests, each acknowledged at DoIP level before its answer.

    ReadDiagnostic, Exchange and Activate say what the reads return on a given
    byte stream, with no mention of how the stream is cut into chunks; the
    methods are proved to return that on every schedule of chunks, or to fail
    with a timeout or a closed connection that the schedule itself contains. */
module DoipTransport {
  import opened Bytes
  import opened DoipProtocol
  import opened Sockets
  import opened Wrappers

  const MAX_PAYLOAD_LENGTH := 64 * 1024

  datatype TransportError =
    | NoError
    | ConnectFailed
    | RoutingActivationFailed
    | Timeout
    | MalformedFrame
    | ConnectionClosed
    | NegativeAck

  datatype ReadResult = ReadOk | ReadTimeout | ReadClosed | ReadError

  /** What an exchange comes to on a byte stream: the UDS bytes and how many
      bytes of the stream they used up, or an error. */
  datatype Outcome = Reply(uds: seq<byte>, used: nat) | Fail(error: TransportError)

  /** One frame of bounded payload off the front of the stream. */
  function ReadFrame(s: seq<byte>): (r: Result<Frame, TransportError>)
    ensures r.Ok? ==> |r.value.Bytes()| <= |s|
  {
    if |s| < HEADER_SIZE then Err(Timeout)
    else match DecodeHeader(s)
      case None => Err(MalformedFrame)
      case Some(h) =>
        if h.payloadLength > MAX_PAYLOAD_LENGTH then Err(MalformedFrame)
        else if |s| < HEADER_SIZE + h.payloadLength then Err(Timeout)
        else Ok(Frame(h.payloadType, s[HEADER_SIZE..HEADER_SIZE + h.payloadLength]))
  }

  predicate Bounded(f: Frame) {
    |f.payload| <= MAX_PAYLOAD_LENGTH
  }

  /** A frame is read exactly when its own bytes stand at the front. */
  lemma ReadFrameIff(s: seq<byte>, f: Frame)
    ensures ReadFrame(s) == Ok(f) <==> Bounded(f) && f.Bytes() <= s
  {
    hide Frame.Bytes;
    if ReadFrame(s) == Ok(f) {
      TakeFrameIff(s, f, s[HEADER_SIZE + |f.payload|..]);
    }
    if Bounded(f) && f.Bytes() <= s {
      TakeFrameIff(s, f, s[HEADER_SIZE + |f.payload|..]);
    }
  }

  function ReadDiagnostic(s: seq<byte>, source: u16, tester: u16): (r: Outcome)
    ensures r.Reply? ==> 0 < r.used <= |s|
  {
    if |s| < HEADER_SIZE then Fail(Timeout)
    else match DecodeHeader(s)
      case None => Fail(MalformedFrame)
      case Some(h) =>
        if h.payloadLength > MAX_PAYLOAD_LENGTH then Fail(MalformedFrame)
        else if h.payloadType != DiagnosticMessage then Fail(MalformedFrame)
        else if |s| < HEADER_SIZE + h.payloadLength then Fail(Timeout)
        else match DecodeDiagnosticMessage(s[HEADER_SIZE..HEADER_SIZE + h.payloadLength])
          case None => Fail(MalformedFrame)
          case Some(m) =>
            if m.source != source || m.target != tester then Fail(MalformedFrame)
            else Reply(m.uds, HEADER_SIZE + h.payloadLength)
  }

  /** The largest UDS message a bounded frame can carry. */
  const MAX_UDS_LENGTH := MAX_PAYLOAD_LENGTH - 4

  /** A diagnostic read succeeds exactly when the stream begins with a frame
      from that source to this tester; it returns the frame's UDS bytes and
      uses up that frame and no more. */
  lemma ReadDiagnosticIff(s: seq<byte>, source: u16, tester: u16, uds: seq<byte>, used: nat)
    ensures ReadDiagnostic(s, source, tester) == Reply(uds, used)
       <==> (&& |uds| <= MAX_UDS_LENGTH
             && DiagnosticFrame(source, tester, uds).Bytes() <= s
             && used == |DiagnosticFrame(source, tester, uds).Bytes()|)
  {
    hide Frame.Bytes, DecodeHeader, DecodeDiagnosticMessage, AddressedBytes;
    var f := DiagnosticFrame(source, tester, uds);
    ReadFrameIff(s, f);
    DiagnosticMessageRoundTrip(f.payload, Addressed(source, tester, uds));
    if ReadDiagnostic(s, source, tester) == Reply(uds, used) {
      var payload := ReadFrame(s).value.payload;
      DiagnosticMessageRoundTrip(payload, Addressed(source, tester, uds));
    }
  }

  /** The length of the DoIP acknowledgement at the front of the stream. */
  function ReadAck(s: seq<byte>): (r: Result<nat, TransportError>)
    ensures r.Ok? ==> 0 < r.value <= |s|
  {
    match ReadFrame(s)
    case Err(e) => Err(e)
    case Ok(ack) =>
      if ack.payloadType == DiagnosticMessageNegativeAck then Err(NegativeAck)
      else if ack.payloadType != DiagnosticMessagePositiveAck then Err(MalformedFrame)
      else Ok(|ack.Bytes()|)
  }

  predicate IsAck(f: Frame) {
    f.payloadType == DiagnosticMessagePositiveAck && Bounded(f)
  }

  /** An acknowledgement is read exactly where a positive one stands; a frame
      of another kind there is an error of its own. */
  lemma ReadAckAt(f: Frame, tail: seq<byte>)
    requires Bounded(f)
    ensures ReadAck(f.Bytes() + tail)
         == if IsAck(f) then Ok(|f.Bytes()|)
            else if f.payloadType == DiagnosticMessageNegativeAck then Err(NegativeAck)
            else Err(MalformedFrame)
  {
    hide Frame.Bytes, ReadFrame;
    ReadFrameIff(f.Bytes() + tail, f);
  }

  /** The acknowledgement of a request, then the answer to it. */
  function Exchange(s: seq<byte>, target: u16, tester: u16): (r: Outcome)
    ensures r.Reply? ==> 0 < r.used <= |s|
  {
    match ReadAck(s)
    case Err(e) => Fail(e)
    case Ok(ack) => Shift(ReadDiagnostic(s[ack..], target, tester), ack)
  }

  /** The exchange in the order in which its octets come in. */
  lemma ExchangeInSteps(s: seq<byte>, target: u16, tester: u16)
    ensures Exchange(s, target, tester)
         == if |s| < HEADER_SIZE then Fail(Timeout)
            else match DecodeHeader(s)
              case None => Fail(MalformedFrame)
              case Some(h) =>
                if h.payloadLength > MAX_PAYLOAD_LENGTH then Fail(MalformedFrame)
                else if |s| < HEADER_SIZE + h.payloadLength then Fail(Timeout)
                else if h.payloadType == DiagnosticMessageNegativeAck then Fail(NegativeAck)
                else if h.payloadType != DiagnosticMessagePositiveAck then Fail(MalformedFrame)
                else Shift(ReadDiagnostic(s[HEADER_SIZE + h.payloadLength..], target, tester),
                           HEADER_SIZE + h.payloadLength)
  {
    hide DecodeHeader, ReadDiagnostic;
  }

  /** The same outcome, counted from an earlier point of the stream. */
  function Shift(o: Outcome, offset: nat): Outcome {
    match o
    case Reply(uds, used) => Reply(uds, offset + used)
    case Fail(_) => o
  }

  /** The answer to a routing activation request. */
  function Activate(s: seq<byte>): (r: Result<nat, TransportError>)
    ensures r.Ok? ==> r.value <= |s|
  {
    if |s| < HEADER_SIZE then Err(Timeout)
    else match DecodeHeader(s)
      case None => Err(MalformedFrame)
      case Some(h) =>
        if h.payloadType != RoutingActivationResponse || h.payloadLength > MAX_PAYLOAD_LENGTH then Err(MalformedFrame)
        else if |s| < HEADER_SIZE + h.payloadLength then Err(Timeout)
        else match DecodeRoutingActivationResponse(s[HEADER_SIZE..HEADER_SIZE + h.payloadLength])
          case None => Err(MalformedFrame)
          case Some(a) =>
            if a.code != 0x10 then Err(RoutingActivationFailed) else Ok(HEADER_SIZE + h.payloadLength)
  }

  // --- When a read fails, and how ---

  /** Too little to go on: less than a header, or the beginning of a bounded
      frame of such a type. */
  ghost predicate CutShort(s: seq<byte>, types: set<PayloadType>) {
    |s| < 8 || exists f: Frame :: f.payloadType in types && Bounded(f) && IsBeginning(s, f)
  }

  predicate IsBeginning(s: seq<byte>, f: Frame) {
    s < f.Bytes()
  }

  /** A header at the front whose payload is not all there begins a frame. */
  lemma BeginsAFrame(s: seq<byte>, h: Header) returns (f: Frame)
    requires DecodeHeader(s) == Some(h) && |s| < HEADER_SIZE + h.payloadLength
    ensures f.payloadType == h.payloadType && |f.payload| == h.payloadLength && IsBeginning(s, f)
  {
    hide HeaderBytes;
    HeaderRoundTrip(s, h);
    var missing := seq(HEADER_SIZE + h.payloadLength - |s|, i => 0 as byte);
    f := Frame(h.payloadType, s[HEADER_SIZE..] + missing);
    assert s == s[..HEADER_SIZE] + s[HEADER_SIZE..];
    assert f.Bytes() == s + missing;
  }

  lemma BeginningHasHeader(s: seq<byte>, f: Frame)
    requires IsBeginning(s, f) && f.Fits() && |s| >= HEADER_SIZE
    ensures DecodeHeader(s) == Some(Header(f.payloadType, |f.payload|)) && |s| < HEADER_SIZE + |f.payload|
  {
    hide HeaderBytes, DecodeHeader;
    var h := Header(f.payloadType, |f.payload|);
    assert HeaderBytes(h) <= s;
    HeaderRoundTrip(s, h);
  }

  const ALL_TYPES := {RoutingActivationRequest, RoutingActivationResponse, DiagnosticMessage,
                      DiagnosticMessagePositiveAck, DiagnosticMessageNegativeAck}

  /** Reading the acknowledgement times out exactly on a stream cut short; any
      other failure to read a frame there is a malformed one. */
  lemma ReadFrameFails(s: seq<byte>)
    ensures ReadFrame(s) == Err(Timeout) <==> CutShort(s, ALL_TYPES)
    ensures ReadFrame(s).Err? ==>
      ReadFrame(s).error in {Timeout, MalformedFrame} && ReadAck(s) == Err(ReadFrame(s).error)
  {
    hide DecodeHeader, Frame.Bytes, IsBeginning;
    if ReadFrame(s) == Err(Timeout) && |s| >= 8 {
      var f := BeginsAFrame(s, DecodeHeader(s).value);
    }
    if f: Frame :| f.payloadType in ALL_TYPES && Bounded(f) && IsBeginning(s, f) {
      if |s| >= 8 {
        BeginningHasHeader(s, f);
      }
    }
  }

  /** Reading an answer times out exactly on a stream cut short; any other
      failure is a malformed frame. */
  lemma ReadDiagnosticFails(s: seq<byte>, source: u16, tester: u16)
    ensures ReadDiagnostic(s, source, tester) == Fail(Timeout) <==> CutShort(s, {DiagnosticMessage})
    ensures ReadDiagnostic(s, source, tester).Fail? ==>
      ReadDiagnostic(s, source, tester).error in {Timeout, MalformedFrame}
  {
    hide DecodeHeader, DecodeDiagnosticMessage, Frame.Bytes, IsBeginning;
    if ReadDiagnostic(s, source, tester) == Fail(Timeout) && |s| >= 8 {
      var f := BeginsAFrame(s, DecodeHeader(s).value);
    }
    if f: Frame :| f.payloadType in {DiagnosticMessage} && Bounded(f) && IsBeginning(s, f) {
      if |s| >= 8 {
        BeginningHasHeader(s, f);
      }
    }
  }

  /** An activation response of bounded size with that code in its fifth octet. */
  predicate IsActivation(f: Frame, code: byte) {
    f.payloadType == RoutingActivationResponse && Bounded(f) && |f.payload| >= 5 && f.payload[4] == code
  }

  /** An activation is accepted exactly if a response with code 0x10 stands at
      the front of the stream, and uses up just that; it is refused exactly if
      a response with another code does, and times out exactly on a stream cut
      short. Anything else is malformed. */
  lemma ActivateIff(s: seq<byte>, used: nat)
    ensures Activate(s) == Ok(used) <==> exists f :: IsActivation(f, 0x10) && f.Bytes() <= s && used == |f.Bytes()|
    ensures Activate(s) == Err(RoutingActivationFailed)
       <==> exists f, code: byte :: IsActivation(f, code) && code != 0x10 && f.Bytes() <= s
    ensures Activate(s) == Err(Timeout) <==> CutShort(s, {RoutingActivationResponse})
    ensures Activate(s).Err? ==> Activate(s).error in {Timeout, MalformedFrame, RoutingActivationFailed}
  {
    hide DecodeHeader, Frame.Bytes, IsBeginning;
    ActivateTimesOut(s);
    if ReadFrame(s).Ok? {
      ReadFrameIff(s, ReadFrame(s).value);
      var f := ReadFrame(s).value;
      if |f.payload| >= 5 {
        assert IsActivation(f, f.payload[4]) || f.payloadType != RoutingActivationResponse;
      }
    }
    forall f: Frame, code: byte | IsActivation(f, code) && f.Bytes() <= s
      ensures ReadFrame(s) == Ok(f)
    {
      ReadFrameIff(s, f);
    }
  }

  lemma ActivateTimesOut(s: seq<byte>)
    ensures Activate(s) == Err(Timeout) <==> CutShort(s, {RoutingActivationResponse})
  {
    hide DecodeHeader, DecodeRoutingActivationResponse, Frame.Bytes, IsBeginning;
    if Activate(s) == Err(Timeout) && |s| >= 8 {
      var f := BeginsAFrame(s, DecodeHeader(s).value);
    }
    if f: Frame :| f.payloadType in {RoutingActivationResponse} && Bounded(f) && IsBeginning(s, f) {
      if |s| >= 8 {
        BeginningHasHeader(s, f);
      }
    }
  }

  class DoipTransport {
    const testerAddress: u16
    var sock: Socket?

    constructor (testerAddress: u16)
      ensures this.testerAddress == testerAddress && sock == null
    {
      this.testerAddress := testerAddress;
      sock := null;
    }

    predicate IsConnected()
      reads this
    {
      sock != null
    }

    method Disconnect()
      modifies this
      ensures sock == null
    {
      sock := null;
    }

    /** Fills the whole buffer from as many recv calls as that takes. */
    method ReadExact(buf: array<byte>) returns (r: ReadResult)
      requires sock != null && sock.Valid()
      modifies sock`consumed, sock`recvs, buf
      ensures sock.Valid() && sock.consumed >= old(sock.consumed)
      ensures r == ReadOk ==> buf.Length <= |old(sock.Pending())| && buf[..] == old(sock.Pending())[..buf.Length]
      ensures r == ReadOk ==> sock.consumed == old(sock.consumed) + buf.Length
      ensures sock.recvs >= old(sock.recvs)
      ensures r != ReadOk ==>
        || (r == ReadTimeout && buf.Length > |old(sock.Pending())|)
        || sock.FaultIn(old(sock.recvs), sock.recvs)
      ensures r != ReadOk ==> sock.recvs > old(sock.recvs)
      ensures r != ReadOk ==>
        match sock.arrivals(sock.recvs - 1)
        case Deliver(_) => r == ReadTimeout && buf.Length > |old(sock.Pending())|
        case WouldBlock => r == ReadTimeout
        case Closed => r == ReadClosed
        case Failed => r == ReadError
    {
      ghost var stream := sock.Pending();
      var got := 0;
      while got < buf.Length
        invariant sock.Valid()
        invariant 0 <= got <= buf.Length && got <= |stream|
        invariant sock.consumed == old(sock.consumed) + got && sock.recvs >= old(sock.recvs)
        invariant sock.Pending() == stream[got..]
        invariant buf[..got] == stream[..got]
      {
        ghost var call := sock.recvs;
        var n, blocked := sock.Recv(buf, got, buf.Length - got);
        if n > 0 {
          assert buf[..got + n] == buf[..got] + buf[got..got + n];
          assert stream[..got + n] == stream[..got] + stream[got..][..n];
          got := got + n;
          continue;
        }
        assert sock.arrivals(call).Deliver? ==> stream[got..] == [];
        if n == 0 {
          return ReadClosed;
        }
        if blocked {
          return ReadTimeout;
        }
        return ReadError;
      }
      assert buf[..] == buf[..got];
      return ReadOk;
    }

    /** A fault met by the last recv, made from that one on: a timeout if it
        would have blocked, a lost connection if it was closed or failed. */
    ghost predicate LinkFault(e: TransportError, from: nat)
      reads this, sock
    {
      && sock != null && from < sock.recvs
      && match sock.arrivals(sock.recvs - 1)
         case Deliver(_) => false
         case WouldBlock => e == Timeout
         case Closed => e == ConnectionClosed
         case Failed => e == ConnectionClosed
    }

    method ReadDiagnosticMessage(expectedSource: u16) returns (ok: bool, uds: seq<byte>, err: TransportError)
      requires sock != null && sock.Valid()
      modifies sock`consumed, sock`recvs
      ensures sock.Valid() && sock.consumed >= old(sock.consumed) && sock.recvs >= old(sock.recvs)
      ensures ok ==> ReadDiagnostic(old(sock.Pending()), expectedSource, testerAddress)
                       == Reply(uds, sock.consumed - old(sock.consumed))
      ensures !ok ==>
        || ReadDiagnostic(old(sock.Pending()), expectedSource, testerAddress) == Fail(err)
        || LinkFault(err, old(sock.recvs))
    {
      hide DecodeHeader, DecodeDiagnosticMessage;
      ok, uds, err := false, [], NoError;
      ghost var stream := sock.Pending();
      var headerBuf := new byte[HEADER_SIZE];
      var rr := ReadExact(headerBuf);
      if rr == ReadTimeout {
        return false, [], Timeout;
      }
      if rr != ReadOk {
        return false, [], ConnectionClosed;
      }
      HeaderPrefix(stream);
      assert sock.Pending() == stream[HEADER_SIZE..];
      var header := DecodeHeader(headerBuf[..]);
      if header.None? || header.value.payloadLength > MAX_PAYLOAD_LENGTH {
        return false, [], MalformedFrame;
      }
      if header.value.payloadType != DiagnosticMessage {
        return false, [], MalformedFrame;
      }
      var payload := new byte[header.value.payloadLength];
      if payload.Length != 0 {
        rr := ReadExact(payload);
        if rr == ReadTimeout {
          return false, [], Timeout;
        }
        if rr != ReadOk {
          return false, [], ConnectionClosed;
        }
      }
      assert payload[..] == stream[HEADER_SIZE..HEADER_SIZE + header.value.payloadLength];
      var message := DecodeDiagnosticMessage(payload[..]);
      if message.None? {
        return false, [], MalformedFrame;
      }
      if message.value.source != expectedSource || message.value.target != testerAddress {
        return false, [], MalformedFrame;
      }
      return true, message.value.uds, NoError;
    }

    method SendAndReceive(target: u16, request: seq<byte>) returns (ok: bool, uds: seq<byte>, err: TransportError)
      requires sock != null ==> sock.Valid()
      modifies sock
      ensures sock != null ==> sock.Valid() && sock.consumed >= old(sock.consumed) && sock.recvs >= old(sock.recvs)
      ensures ok ==>
        && sock != null
        && sock.sent == old(sock.sent) + DiagnosticFrame(testerAddress, target, request).Bytes()
        && Exchange(old(sock.Answer(DiagnosticFrame(testerAddress, target, request).Bytes())), target, testerAddress)
             == Reply(uds, sock.consumed - old(sock.consumed))
      ensures !ok && sock == null ==> err == ConnectionClosed
      ensures !ok && sock != null ==>
        || Exchange(old(sock.Answer(DiagnosticFrame(testerAddress, target, request).Bytes())), target, testerAddress)
             == Fail(err)
        || LinkFault(err, old(sock.recvs))
        || (err == ConnectionClosed
            && sock.ShortSend(old(sock.sends), |DiagnosticFrame(testerAddress, target, request).Bytes()|))
    {
      hide DecodeHeader, Frame.Bytes, DiagnosticFrame, ReadDiagnostic, Exchange, ReadAck, ReadFrame, Activate;
      ok, uds, err := false, [], NoError;
      if !IsConnected() {
        return false, [], ConnectionClosed;
      }
      var frame := EncodeDiagnosticMessage(testerAddress, target, request);
      ghost var stream := sock.Answer(frame);
      var n := sock.Send(frame);
      if n != |frame| {
        return false, [], ConnectionClosed;
      }
      assert sock.Pending() == stream;
      ExchangeInSteps(stream, target, testerAddress);

      var headerBuf := new byte[HEADER_SIZE];
      var rr := ReadExact(headerBuf);
      if rr == ReadTimeout {
        return false, [], Timeout;
      }
      if rr != ReadOk {
        return false, [], ConnectionClosed;
      }
      HeaderPrefix(stream);
      assert sock.Pending() == stream[HEADER_SIZE..];
      var header := DecodeHeader(headerBuf[..]);
      if header.None? || header.value.payloadLength > MAX_PAYLOAD_LENGTH {
        return false, [], MalformedFrame;
      }
      var ackPayload := new byte[header.value.payloadLength];
      if ackPayload.Length != 0 {
        rr := ReadExact(ackPayload);
        if rr == ReadTimeout {
          return false, [], Timeout;
        }
        if rr != ReadOk {
          return false, [], ConnectionClosed;
        }
      }
      assert sock.Pending() == stream[HEADER_SIZE + header.value.payloadLength..];
      if header.value.payloadType == DiagnosticMessageNegativeAck {
        return false, [], NegativeAck;
      }
      if header.value.payloadType != DiagnosticMessagePositiveAck {
        return false, [], MalformedFrame;
      }
      ok, uds, err := ReadDiagnosticMessage(target);
    }

    method ReceivePendingResponse(expectedSource: u16) returns (ok: bool, uds: seq<byte>, err: TransportError)
      requires sock != null ==> sock.Valid()
      modifies sock
      ensures sock != null ==>
        && sock.Valid() && sock.consumed >= old(sock.consumed)
        && sock.sent == old(sock.sent) && sock.recvs >= old(sock.recvs)
      ensures ok ==>
        && sock != null
        && ReadDiagnostic(old(sock.Pending()), expectedSource, testerAddress)
             == Reply(uds, sock.consumed - old(sock.consumed))
      ensures !ok && sock == null ==> err == ConnectionClosed
      ensures !ok && sock != null ==>
        || ReadDiagnostic(old(sock.Pending()), expectedSource, testerAddress) == Fail(err)
        || LinkFault(err, old(sock.recvs))
    {
      hide ReadDiagnostic;
      if !IsConnected() {
        return false, [], ConnectionClosed;
      }
      ok, uds, err := ReadDiagnosticMessage(expectedSource);
    }

    /** The answer to a routing activation request, read and checked. */
    method ReadActivation() returns (err: TransportError)
      requires sock != null && sock.Valid()
      modifies sock`consumed, sock`recvs
      ensures sock.Valid() && sock.consumed >= old(sock.consumed) && sock.recvs >= old(sock.recvs)
      ensures err == NoError ==> Activate(old(sock.Pending())) == Ok(sock.consumed - old(sock.consumed))
      ensures err != NoError ==>
        || Activate(old(sock.Pending())) == Err(err)
        || (err == Timeout && sock.FaultIn(old(sock.recvs), sock.recvs))
    {
      hide DecodeHeader, DecodeRoutingActivationResponse;
      ghost var stream := sock.Pending();
      var headerBuf := new byte[HEADER_SIZE];
      var rr := ReadExact(headerBuf);
      if rr != ReadOk {
        return Timeout;
      }
      HeaderPrefix(stream);
      assert sock.Pending() == stream[HEADER_SIZE..];
      var header := DecodeHeader(headerBuf[..]);
      if header.None? || header.value.payloadType != RoutingActivationResponse
         || header.value.payloadLength > MAX_PAYLOAD_LENGTH {
        return MalformedFrame;
      }
      var payload := new byte[header.value.payloadLength];
      if payload.Length != 0 {
        rr := ReadExact(payload);
        if rr != ReadOk {
          return Timeout;
        }
      }
      assert payload[..] == stream[HEADER_SIZE..HEADER_SIZE + header.value.payloadLength];
      var resp := DecodeRoutingActivationResponse(payload[..]);
      if resp.None? {
        return MalformedFrame;
      }
      if resp.value.code != 0x10 {
        return RoutingActivationFailed;
      }
      return NoError;
    }

    /** Routing activation over the socket the operating system dialed (null
        when dialing failed). A failed activation leaves the transport closed. */
    method Connect(dialed: Socket?) returns (ok: bool, err: TransportError)
      requires dialed != null ==> dialed.Valid()
      modifies this, dialed
      ensures old(sock) != null ==> ok && sock == old(sock) && (dialed != null ==> unchanged(dialed))
      ensures ok <==> sock != null
      ensures dialed != null ==>
        dialed.Valid() && dialed.consumed >= old(dialed.consumed) && dialed.recvs >= old(dialed.recvs)
      ensures old(sock) == null && ok ==>
        && sock == dialed
        && sock.sent == old(dialed.sent) + ActivationFrame(testerAddress, 0).Bytes()
        && Activate(old(dialed.Answer(ActivationFrame(testerAddress, 0).Bytes())))
             == Ok(sock.consumed - old(dialed.consumed))
      ensures !ok && dialed == null ==> err == ConnectFailed
      ensures !ok && dialed != null ==>
        || Activate(old(dialed.Answer(ActivationFrame(testerAddress, 0).Bytes()))) == Err(err)
        || (err == Timeout && dialed.FaultIn(old(dialed.recvs), dialed.recvs))
        || (err == ConnectFailed
            && dialed.ShortSend(old(dialed.sends), |ActivationFrame(testerAddress, 0).Bytes()|))
    {
      hide Frame.Bytes, ActivationFrame, Activate;
      if IsConnected() {
        return true, NoError;
      }
      if dialed == null {
        return false, ConnectFailed;
      }
      sock := dialed;
      var activation := EncodeRoutingActivationRequest(testerAddress, 0);
      var n := sock.Send(activation);
      if n != |activation| {
        Disconnect();
        return false, ConnectFailed;
      }
      err := ReadActivation();
      if err != NoError {
        Disconnect();
        return false, err;
      }
      return true, NoError;
    }
  }

  /** The header is decided by the first eight bytes alone. */
  lemma HeaderPrefix(s: seq<byte>)
    requires |s| >= HEADER_SIZE
    ensures DecodeHeader(s[..HEADER_SIZE]) == DecodeHeader(s)
  {
  }
}
