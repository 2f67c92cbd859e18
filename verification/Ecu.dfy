/** The other end of the wire: an ECU that keeps a record per data identifier
    and serves UDS requests, and the DoIP entity in front of it.

    Serve is the direct call: what one request does to the ECU and what it is
    answered. Speak is the same ECU as a peer on a socket, from the raw bytes
    it has been sent to the raw bytes it has sent back. */
module Ecu {
  import opened Bytes
  import opened DoipProtocol
  import opened DoipTransport
  import opened ResponsePending
  import opened Sockets
  import opened UdsServices
  import opened Wrappers

  datatype EcuState = EcuState(store: map<u16, seq<byte>>, session: byte, level: byte)

  /** An ECU at an address. It may refuse any request in any state, chooses its
      own seeds, and may announce any number of times that it needs more time.
      relocks: it ties the unlocked level to the session. */
  datatype Ecu = Ecu(
    address: u16,
    initial: EcuState,
    refuses: (EcuState, seq<byte>) -> Option<byte>,
    seedOf: EcuState -> seq<byte>,
    stalls: nat -> nat,
    relocks: bool)

  function Negative(sid: byte, code: byte): seq<byte> {
    [NEGATIVE_RESPONSE, sid, code]
  }

  const REQUEST_OUT_OF_RANGE: byte := 0x31
  const INVALID_KEY: byte := 0x35
  const SERVICE_NOT_SUPPORTED: byte := 0x11
  const RESPONSE_TOO_LONG: byte := 0x14

  function InSession(e: Ecu, st: EcuState, session: byte): EcuState {
    st.(session := session, level := if e.relocks then 0 else st.level)
  }

  function Perform(e: Ecu, st: EcuState, req: seq<byte>): (EcuState, seq<byte>)
    requires req != []
  {
    var sid := req[0];
    if sid == SID_READ_DATA_BY_IDENTIFIER && |req| == 3 then
      var did := ReadU16(req[1..]);
      if did in st.store then (st, [sid + 0x40] + req[1..3] + st.store[did])
      else (st, Negative(sid, REQUEST_OUT_OF_RANGE))
    else if sid == SID_WRITE_DATA_BY_IDENTIFIER && |req| >= 3 then
      (st.(store := st.store[ReadU16(req[1..]) := req[3..]]), [sid + 0x40] + req[1..3])
    else if sid == SID_IO_CONTROL && |req| >= 4 && req[3] == SHORT_TERM_ADJUSTMENT then
      (st.(store := st.store[ReadU16(req[1..]) := req[4..]]), [sid + 0x40] + req[1..4])
    else if sid == SID_DIAGNOSTIC_SESSION_CONTROL && |req| == 2 then
      (InSession(e, st, req[1]), [sid + 0x40, req[1]])
    else if sid == SID_TESTER_PRESENT && |req| == 2 then
      (st, [sid + 0x40, req[1]])
    else if sid == SID_SECURITY_ACCESS && |req| >= 2 && req[1] % 2 == 1 then
      (st, [sid + 0x40, req[1]] + e.seedOf(st))
    else if sid == SID_SECURITY_ACCESS && |req| >= 2 && req[1] > 0 then
      if KeyFits(e.seedOf(st), req[1] - 1, req[2..]) then (st.(level := req[1] - 1), [sid + 0x40, req[1]])
      else (st, Negative(sid, INVALID_KEY))
    else (st, Negative(sid, SERVICE_NOT_SUPPORTED))
  }

  /** One request served: a refusal changes nothing, and an answer that no
      frame could carry is replaced by a refusal. */
  function Serve(e: Ecu, st: EcuState, req: seq<byte>): (r: (EcuState, seq<byte>))
    ensures !IsPending(r.1) && |r.1| <= MAX_UDS_LENGTH
    ensures NegativeCode(r.1).Some? ==> r.0 == st
  {
    if req == [] then (st, Negative(0, SERVICE_NOT_SUPPORTED))
    else
      var refusal := e.refuses(st, req);
      if refusal.Some? && refusal.value != RESPONSE_PENDING then (st, Negative(req[0], refusal.value))
      else
        var (st', resp) := Perform(e, st, req);
        if |resp| > MAX_UDS_LENGTH then (st, Negative(req[0], RESPONSE_TOO_LONG)) else (st', resp)
  }

  /** The records, by octets: a read of one that is there and fits gives it, of
      another is out of range; a write or an adjustment puts it there. */
  lemma RecordServices(e: Ecu, st: EcuState, did: u16, data: seq<byte>)
    requires e.refuses(st, EncodeRead(did)).None? && e.refuses(st, EncodeWrite(did, data)).None?
    requires e.refuses(st, EncodeIoControl(did, 0x03, data)).None?
    ensures did in st.store && |st.store[did]| <= MAX_UDS_LENGTH - 3 ==>
      Serve(e, st, EncodeRead(did)) == (st, [0x62, did / 0x100, did % 0x100] + st.store[did])
    ensures did !in st.store ==> Serve(e, st, EncodeRead(did)) == (st, [0x7F, 0x22, 0x31])
    ensures Serve(e, st, EncodeWrite(did, data))
         == (st.(store := st.store[did := data]), [0x6E, did / 0x100, did % 0x100])
    ensures Serve(e, st, EncodeIoControl(did, 0x03, data))
         == (st.(store := st.store[did := data]), [0x6F, did / 0x100, did % 0x100, 0x03])
  {
    var identifier := [did / 0x100, did % 0x100];
    RequestOctets(did, 0x03, data, 0, 0);
    var read, write, adjust := EncodeRead(did), EncodeWrite(did, data), EncodeIoControl(did, 0x03, data);
    assert read[1..3] == identifier && ReadU16(read[1..]) == did;
    assert write[1..3] == identifier && ReadU16(write[1..]) == did && write[3..] == data;
    assert adjust[1..4] == identifier + [0x03] && ReadU16(adjust[1..]) == did && adjust[4..] == data;
    assert [0x62] + identifier == [0x62, did / 0x100, did % 0x100];
    assert [0x6E] + identifier == [0x6E, did / 0x100, did % 0x100];
    assert [0x6F] + (identifier + [0x03]) == [0x6F, did / 0x100, did % 0x100, 0x03];
    hide EncodeRead, EncodeWrite, EncodeIoControl, ReadU16, KeyFits;
  }

  /** The session, by octets: entered, with the level kept or locked again. */
  lemma SessionServices(e: Ecu, st: EcuState, session: byte)
    requires e.refuses(st, EncodeSessionControl(session)).None? && e.refuses(st, EncodeTesterPresent()).None?
    ensures Serve(e, st, EncodeSessionControl(session))
         == (EcuState(st.store, session, if e.relocks then 0 else st.level), [0x50, session])
    ensures Serve(e, st, EncodeTesterPresent()) == (st, [0x7E, 0x00])
  {
  }

  /** The security level, by octets: an odd one unlocks with exactly the key that
      fits the seed; another key is refused and changes nothing. */
  lemma SecurityServices(e: Ecu, st: EcuState, level: byte, key: seq<byte>)
    requires level % 2 == 1 && level < 0xFF
    requires e.refuses(st, EncodeRequestSeed(level)).None? && e.refuses(st, EncodeSendKey(level, key)).None?
    ensures |e.seedOf(st)| <= MAX_UDS_LENGTH - 2 ==>
      Serve(e, st, EncodeRequestSeed(level)) == (st, [0x67, level] + e.seedOf(st))
    ensures Serve(e, st, EncodeSendKey(level, key))
         == if KeyFits(e.seedOf(st), level, key) then (st.(level := level), [0x67, (level + 1) % 0x100])
            else (st, [0x7F, 0x27, 0x35])
  {
    RequestOctets(0, 0, key, 0, level);
    assert EncodeSendKey(level, key)[2..] == key && EncodeSendKey(level, key)[1] - 1 == level;
    hide EncodeRequestSeed, EncodeSendKey, ReadU16, KeyFits;
  }

  /** A request refused with a code is answered with it and changes nothing; an
      empty one is no service. */
  lemma RefusalIsAnswered(e: Ecu, st: EcuState, req: seq<byte>, code: byte)
    ensures req != [] && e.refuses(st, req) == Some(code) && code != 0x78 ==>
      Serve(e, st, req) == (st, [0x7F, req[0], code])
    ensures Serve(e, st, []) == (st, [0x7F, 0x00, 0x11])
  {
  }

  // --- The ECU on the wire ---

  function AckFrame(m: Addressed): Frame {
    Frame(DiagnosticMessagePositiveAck, BigEndian16(m.source) + BigEndian16(m.target) + [0])
  }

  function NackFrame(m: Addressed): Frame {
    Frame(DiagnosticMessageNegativeAck, BigEndian16(m.source) + BigEndian16(m.target) + [3])
  }

  function ActivatedFrame(tester: seq<byte>, address: u16): Frame {
    Frame(RoutingActivationResponse, tester + BigEndian16(address) + [0x10, 0, 0, 0, 0])
  }

  /** The answers to the n-th frame: stalls(n) pending ones, then the real one. */
  function StalledAnswers(e: Ecu, n: nat, req: seq<byte>, resp: seq<byte>): (rs: seq<seq<byte>>)
    ensures |rs| == e.stalls(n) + 1 && rs[|rs| - 1] == resp
    ensures AllPending(rs[..|rs| - 1])
    ensures |resp| <= MAX_UDS_LENGTH ==> Deliverable(rs)
  {
    var sid: byte := if req == [] then 0 else req[0];
    seq(e.stalls(n), i => Negative(sid, RESPONSE_PENDING)) + [resp]
  }

  /** What the n-th frame it is sent does to the ECU and what it sends back. */
  function OnFrame(e: Ecu, st: EcuState, n: nat, f: Frame): (EcuState, seq<byte>) {
    if f.payloadType == RoutingActivationRequest && |f.payload| >= 2 then
      (st, ActivatedFrame(f.payload[..2], e.address).Bytes())
    else if f.payloadType == DiagnosticMessage && DecodeDiagnosticMessage(f.payload).Some? then
      var m := DecodeDiagnosticMessage(f.payload).value;
      if m.target != e.address then (st, NackFrame(m).Bytes())
      else
        var (st', resp) := Serve(e, st, m.uds);
        (st', AckFrame(m).Bytes() + Answers(e.address, m.source, StalledAnswers(e, n, m.uds, resp)))
    else (st, [])
  }

  /** The entity's own frames, octet by octet. */
  lemma EntityOctets(m: Addressed, tester: u16, address: u16)
    ensures AckFrame(m).payload
         == [m.source / 0x100, m.source % 0x100, m.target / 0x100, m.target % 0x100, 0x00]
    ensures NackFrame(m).payload
         == [m.source / 0x100, m.source % 0x100, m.target / 0x100, m.target % 0x100, 0x03]
    ensures ActivatedFrame([tester / 0x100, tester % 0x100], address).payload
         == [tester / 0x100, tester % 0x100, address / 0x100, address % 0x100, 0x10, 0, 0, 0, 0]
  {
  }

  /** A request for another address reaches no ECU, and fails at the tester as
      negatively acknowledged. */
  lemma OtherAddressIsRefused(e: Ecu, st: EcuState, n: nat, source: u16, target: u16, uds: seq<byte>)
    requires target != e.address
    ensures var (st', sent) := OnFrame(e, st, n, DiagnosticFrame(source, target, uds));
      st' == st && Exchange(sent, target, source) == Fail(NegativeAck)
  {
    hide Frame.Bytes, ReadAck, ReadDiagnostic, DecodeDiagnosticMessage, AddressedBytes;
    var m := Addressed(source, target, uds);
    DiagnosticMessageRoundTrip(DiagnosticFrame(source, target, uds).payload, m);
    ReadAckAt(NackFrame(m), []);
    assert NackFrame(m).Bytes() + [] == NackFrame(m).Bytes();
  }

  function StateAfter(e: Ecu, fs: seq<Frame>): EcuState {
    if fs == [] then e.initial
    else OnFrame(e, StateAfter(e, fs[..|fs| - 1]), |fs| - 1, fs[|fs| - 1]).0
  }

  function Replies(e: Ecu, fs: seq<Frame>): seq<byte> {
    if fs == [] then []
    else Replies(e, fs[..|fs| - 1]) + OnFrame(e, StateAfter(e, fs[..|fs| - 1]), |fs| - 1, fs[|fs| - 1]).1
  }

  /** Everything this ECU has sent, having been sent these bytes. */
  function Speak(e: Ecu, wire: seq<byte>): seq<byte> {
    Replies(e, ParseWire(wire).0)
  }

  lemma {:induction false} RepliesGrow(e: Ecu, fs: seq<Frame>, gs: seq<Frame>)
    ensures Replies(e, fs) <= Replies(e, fs + gs)
    decreases |gs|
  {
    hide OnFrame;
    if gs == [] {
      assert fs + gs == fs;
    } else {
      var all := fs + gs;
      assert all[..|all| - 1] == fs + gs[..|gs| - 1];
      RepliesGrow(e, fs, gs[..|gs| - 1]);
    }
  }

  /** The ECU is a peer a socket may be connected to. */
  lemma SpeakIsCausal(e: Ecu)
    ensures Causal((wire: seq<byte>) => Speak(e, wire))
  {
    hide Replies;
    forall a: seq<byte>, b: seq<byte> | a <= b
      ensures Speak(e, a) <= Speak(e, b)
    {
      ParseWireExtends(a, b[|a|..]);
      assert b == a + b[|a|..];
      RepliesGrow(e, ParseWire(a).0, ParseWire(ParseWire(a).1 + b[|a|..]).0);
    }
  }

  /** One more whole frame after a stream of whole frames. */
  lemma AppendFrame(wire: seq<byte>, f: Frame)
    requires ParseWire(wire).1 == [] && f.Fits()
    ensures ParseWire(wire + f.Bytes()) == (ParseWire(wire).0 + [f], [])
  {
    hide Frame.Bytes;
    ParseWireExtends(wire, f.Bytes());
    assert [] + f.Bytes() == f.Bytes() && Wire([f]) == f.Bytes() + [];
    FramesAreSelfDelimiting([f], []);
    assert f.Bytes() + [] == f.Bytes() && Wire([f]) + [] == f.Bytes() && [f] + [] == [f];
  }

  /** Sent one more frame, the ECU goes one step on and adds the frame's answer. */
  lemma SpeakOneMore(e: Ecu, wire: seq<byte>, f: Frame)
    requires ParseWire(wire).1 == [] && f.Fits()
    ensures var fs := ParseWire(wire).0;
      var (st, answer) := OnFrame(e, StateAfter(e, fs), |fs|, f);
      && StateAfter(e, ParseWire(wire + f.Bytes()).0) == st
      && Speak(e, wire + f.Bytes()) == Speak(e, wire) + answer
  {
    hide Frame.Bytes, OnFrame;
    AppendFrame(wire, f);
    var fs := ParseWire(wire).0;
    assert (fs + [f])[..|fs|] == fs && (fs + [f])[|fs|] == f;
  }

  /** Asked over the wire, the ECU sends an acknowledgement, its pending
      answers and the answer of the direct call, and its state is that of the
      direct call. */
  lemma AskedOverTheWire(e: Ecu, wire: seq<byte>, tester: u16, req: seq<byte>)
    requires ParseWire(wire).1 == [] && |req| + 4 < 0x1_0000_0000
    ensures var f := DiagnosticFrame(tester, e.address, req);
      var n := |ParseWire(wire).0|;
      var (st, resp) := Serve(e, StateAfter(e, ParseWire(wire).0), req);
      && StateAfter(e, ParseWire(wire + f.Bytes()).0) == st
      && Speak(e, wire + f.Bytes()) == Speak(e, wire)
           + (AckFrame(Addressed(tester, e.address, req)).Bytes()
              + Answers(e.address, tester, StalledAnswers(e, n, req, resp)))
  {
    hide Frame.Bytes, Serve, StalledAnswers, Answers, AddressedBytes, DecodeDiagnosticMessage;
    SpeakOneMore(e, wire, DiagnosticFrame(tester, e.address, req));
    DiagnosticMessageRoundTrip(DiagnosticFrame(tester, e.address, req).payload, Addressed(tester, e.address, req));
  }

  /** What Resolve makes of that answer: the reply of the direct call, all of
      it used up, if the ECU stalled at most ten times; a pending reply if not. */
  lemma ResolveServed(e: Ecu, n: nat, m: Addressed, resp: seq<byte>)
    requires !IsPending(resp) && |resp| <= MAX_UDS_LENGTH
    ensures var s := AckFrame(m).Bytes() + Answers(e.address, m.source, StalledAnswers(e, n, m.uds, resp));
      var out := Resolve(s, e.address, m.source);
      && (e.stalls(n) <= MAX_PENDING_ATTEMPTS ==> out == Reply(resp, |s|))
      && (e.stalls(n) > MAX_PENDING_ATTEMPTS ==> out.Reply? && IsPending(out.uds))
  {
    hide Frame.Bytes, Resolve, IsPending, Answers, StalledAnswers;
    var rs := StalledAnswers(e, n, m.uds, resp);
    var ps := rs[..|rs| - 1];
    assert rs == ps + [resp];
    var s := AckFrame(m).Bytes() + Answers(e.address, m.source, rs);
    assert s + [] == s;
    PendingBound(AckFrame(m), ps, resp, [], e.address, m.source);
  }

  /** The two together, for a caller that has read everything up to here. */
  lemma OneRequest(e: Ecu, wire: seq<byte>, tester: u16, req: seq<byte>)
    requires ParseWire(wire).1 == [] && |req| + 4 < 0x1_0000_0000
    ensures var next := wire + DiagnosticFrame(tester, e.address, req).Bytes();
      var (st, resp) := Serve(e, StateAfter(e, ParseWire(wire).0), req);
      && ParseWire(next).1 == []
      && StateAfter(e, ParseWire(next).0) == st
      && |Speak(e, wire)| <= |Speak(e, next)|
      && var stream := Speak(e, next)[|Speak(e, wire)|..];
         var out := Resolve(stream, e.address, tester);
         if e.stalls(|ParseWire(wire).0|) <= MAX_PENDING_ATTEMPTS then out == Reply(resp, |stream|)
         else out.Reply? && IsPending(out.uds)
  {
    hide Frame.Bytes, Serve, Speak, StalledAnswers, Answers, AckFrame, Resolve, IsPending;
    var f := DiagnosticFrame(tester, e.address, req);
    AppendFrame(wire, f);
    AskedOverTheWire(e, wire, tester, req);
    var n := |ParseWire(wire).0|;
    var resp := Serve(e, StateAfter(e, ParseWire(wire).0), req).1;
    ResolveServed(e, n, Addressed(tester, e.address, req), resp);
  }

  /** Routing activation brings a fresh connection in step with the ECU: the
      answer is accepted and used up, and the ECU is in its initial state. */
  lemma ActivatedInStep(e: Ecu, tester: u16)
    ensures var wire := ActivationFrame(tester, 0).Bytes();
      && ParseWire(wire) == ([ActivationFrame(tester, 0)], [])
      && Activate(Speak(e, wire)) == Ok(|Speak(e, wire)|)
      && StateAfter(e, ParseWire(wire).0) == e.initial
  {
    var f := ActivationFrame(tester, 0);
    SpeakOneMoreActivation(e, f);
    AcceptsActivated(f.payload[..2], e.address);
  }

  lemma SpeakOneMoreActivation(e: Ecu, f: Frame)
    requires f.payloadType == RoutingActivationRequest && |f.payload| >= 2 && f.Fits()
    ensures ParseWire(f.Bytes()) == ([f], [])
    ensures Speak(e, f.Bytes()) == ActivatedFrame(f.payload[..2], e.address).Bytes()
    ensures StateAfter(e, [f]) == e.initial
  {
    hide Frame.Bytes, ActivatedFrame;
    assert ParseWire([]) == ([], []);
    AppendFrame([], f);
    assert [] + f.Bytes() == f.Bytes() && [] + [f] == [f];
    assert [f][..0] == [];
    var answer := ActivatedFrame(f.payload[..2], e.address).Bytes();
    assert Replies(e, [f]) == [] + answer == answer;
  }

  lemma AcceptsActivated(tester: seq<byte>, address: u16)
    requires |tester| == 2
    ensures Activate(ActivatedFrame(tester, address).Bytes()) == Ok(|ActivatedFrame(tester, address).Bytes()|)
  {
    hide HeaderBytes, DecodeHeader, BigEndian16;
    var f := ActivatedFrame(tester, address);
    var h := Header(f.payloadType, |f.payload|);
    HeaderRoundTrip(f.Bytes(), h);
    assert f.Bytes()[..HEADER_SIZE] == HeaderBytes(h);
    assert f.Bytes()[HEADER_SIZE..HEADER_SIZE + |f.payload|] == f.payload;
  }
}
