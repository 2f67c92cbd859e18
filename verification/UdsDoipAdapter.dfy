/** The adapter: transport, session state, UDS services and catalog behind the
    read and write calls of the server.

    The contracts are relative to an ECU at the other end of the socket (ghost
    parameter e). InStep says that the two ends agree: everything the ECU has
    sent has been received. The claim throughout is that a call over the wire,
    however the stream is cut into chunks, is the direct call of the ECU. */
module UdsDoipAdapter {
  import opened Bytes
  import opened Catalog
  import opened DoipProtocol
  import opened DoipTransport
  import opened Ecu
  import opened ResponsePending
  import opened Sockets
  import opened UdsServices
  import opened Wrappers

  datatype SovdResult =
    | SovdOk
    | SovdNotFound
    | SovdLocked
    | SovdBadRequest
    | SovdUnsupported
    | SovdBusy
    | SovdTransport
    | SovdNegativeResponse
    | SovdInternal
    | SovdForbidden
    | SovdConflict

  function NrcToSovdResult(nrc: byte): (r: SovdResult)
    ensures r != SovdOk && r != SovdTransport
  {
    match nrc
    case 0x11 | 0x12 | 0x70 | 0x7E | 0x7F => SovdUnsupported
    case 0x13 | 0x31 => SovdBadRequest
    case 0x21 | 0x36 | 0x37 | 0x78 => SovdBusy
    case 0x22 | 0x24 => SovdConflict
    case 0x33 | 0x35 => SovdForbidden
    case _ => SovdInternal
  }

  function NegativeOrInternal(resp: seq<byte>): (r: SovdResult)
    ensures r != SovdOk && r != SovdTransport
  {
    match NegativeCode(resp)
    case Some(nrc) => NrcToSovdResult(nrc)
    case None => SovdInternal
  }

  const DEFAULT_SESSION_TYPE: byte := 0x01

  /** The codes by what they come to; every other one is internal. */
  lemma NrcClasses(nrc: byte)
    ensures NrcToSovdResult(nrc) == SovdUnsupported <==> nrc in {0x11, 0x12, 0x70, 0x7E, 0x7F}
    ensures NrcToSovdResult(nrc) == SovdBadRequest <==> nrc in {0x13, 0x31}
    ensures NrcToSovdResult(nrc) == SovdBusy <==> nrc in {0x21, 0x36, 0x37, 0x78}
    ensures NrcToSovdResult(nrc) == SovdConflict <==> nrc in {0x22, 0x24}
    ensures NrcToSovdResult(nrc) == SovdForbidden <==> nrc in {0x33, 0x35}
    ensures NrcToSovdResult(nrc)
         in {SovdUnsupported, SovdBadRequest, SovdBusy, SovdConflict, SovdForbidden, SovdInternal}
  {
  }

  /** A response that carries no data comes to its code's result, or to an
      internal error if it has none. */
  lemma RefusalIsReported(resp: seq<byte>)
    ensures |resp| >= 3 && resp[0] == 0x7F ==> NegativeOrInternal(resp) == NrcToSovdResult(resp[2])
    ensures |resp| < 3 || resp[0] != 0x7F ==> NegativeOrInternal(resp) == SovdInternal
  {
    hide NrcToSovdResult;
  }

  /** What reading a record comes to when the ECU is asked directly. */
  function DirectRead(e: Ecu, st: EcuState, did: u16): (SovdResult, seq<byte>) {
    var resp := Serve(e, st, EncodeRead(did)).1;
    match DecodeRead(resp, did)
    case Some(data) => (SovdOk, data)
    case None => (NegativeOrInternal(resp), [])
  }

  function FindByDid(items: seq<DataItem>, did: u16): Option<DataItem> {
    if items == [] then None else if items[0].did == did then Some(items[0]) else FindByDid(items[1..], did)
  }

  /** Place i is the first that the identifier is listed at. */
  predicate FirstUnder(items: seq<DataItem>, did: u16, i: nat) {
    i < |items| && items[i].did == did && forall j :: 0 <= j < i ==> items[j].did != did
  }

  /** The lookup finds the first item under an identifier, and nothing exactly
      if there is none. */
  lemma {:induction false} FindByDidIff(items: seq<DataItem>, did: u16)
    ensures FindByDid(items, did).None? <==> forall i :: 0 <= i < |items| ==> items[i].did != did
    ensures forall i: nat :: FirstUnder(items, did, i) ==> FindByDid(items, did) == Some(items[i])
  {
    if items != [] {
      FindByDidIff(items[1..], did);
      assert forall i | 0 < i < |items| :: items[1..][i - 1] == items[i];
      forall i: nat | FirstUnder(items, did, i)
        ensures FindByDid(items, did) == Some(items[i])
      {
        if i > 0 {
          assert items[0].did != did;
          assert FirstUnder(items[1..], did, i - 1);
        }
      }
    }
  }

  /** A read that the ECU answers with data answers with its record. */
  lemma DirectReadReturnsTheRecord(e: Ecu, st: EcuState, did: u16)
    ensures Serve(e, st, EncodeRead(did)).0 == st
    ensures DirectRead(e, st, did).0 == SovdOk ==>
      did in st.store && DirectRead(e, st, did).1 == st.store[did]
  {
  }

  /** Session and security requests leave the records alone. */
  lemma SessionRequestsKeepTheStore(e: Ecu, st: EcuState, req: seq<byte>)
    requires |req| >= 1 && req[0] in {SID_DIAGNOSTIC_SESSION_CONTROL, SID_SECURITY_ACCESS, SID_TESTER_PRESENT}
    ensures Serve(e, st, req).0.store == st.store
  {
  }

  /** A session control confirmed has put the ECU in that session. */
  lemma ConfirmedSessionIsEntered(e: Ecu, st: EcuState, session: byte)
    ensures var (st', resp) := Serve(e, st, EncodeSessionControl(session));
      DecodeSessionControl(resp, session) ==> st' == InSession(e, st, session)
  {
  }

  /** A tester present changes nothing. */
  lemma TesterPresentChangesNothing(e: Ecu, st: EcuState)
    ensures Serve(e, st, EncodeTesterPresent()).0 == st
  {
  }

  /** A seed given for a level that has a key has changed nothing. */
  lemma SeedChangesNothing(e: Ecu, st: EcuState, level: byte)
    requires CanUnlock(level)
    ensures Serve(e, st, EncodeRequestSeed(level)).0 == st
  {
  }

  /** A key accepted for such a level has unlocked that level. */
  lemma AcceptedKeyUnlocks(e: Ecu, st: EcuState, level: byte, key: seq<byte>)
    requires CanUnlock(level)
    ensures var (st', resp) := Serve(e, st, EncodeSendKey(level, key));
      DecodeKeyAccepted(resp, level) ==> st' == st.(level := level)
  {
    hide DerivedKey, ReadU16;
  }

  /** An ECU that refuses a read or a write makes it come to its code's result,
      with no data and nothing stored. */
  lemma RefusalIsPassedOn(e: Ecu, st: EcuState, did: u16, data: seq<byte>, ioControl: bool, code: byte)
    requires code != 0x78
    ensures e.refuses(st, EncodeRead(did)) == Some(code) ==>
      DirectRead(e, st, did) == (NrcToSovdResult(code), [])
    ensures e.refuses(st, WriteRequest(did, data, ioControl)) == Some(code) ==>
      DirectWrite(e, st, did, data, ioControl) == (NrcToSovdResult(code), st)
  {
    hide NrcToSovdResult, Perform;
  }

  function WriteRequest(did: u16, data: seq<byte>, ioControl: bool): seq<byte> {
    if ioControl then EncodeIoControl(did, SHORT_TERM_ADJUSTMENT, data) else EncodeWrite(did, data)
  }

  predicate WriteConfirmed(resp: seq<byte>, did: u16, ioControl: bool) {
    if ioControl then DecodeIoControl(resp, did) else DecodeWrite(resp, did)
  }

  /** What writing a record comes to when the ECU is asked directly. */
  function DirectWrite(e: Ecu, st: EcuState, did: u16, data: seq<byte>, ioControl: bool): (SovdResult, EcuState) {
    var (st', resp) := Serve(e, st, WriteRequest(did, data, ioControl));
    (if WriteConfirmed(resp, did, ioControl) then SovdOk else NegativeOrInternal(resp), st')
  }

  /** A write the ECU confirms has stored the data, and nothing else changed. */
  lemma ConfirmedWriteStores(e: Ecu, st: EcuState, did: u16, data: seq<byte>, ioControl: bool)
    ensures var (r, st') := DirectWrite(e, st, did, data, ioControl);
      r == SovdOk ==> st' == st.(store := st.store[did := data])
  {
  }

  /** The ECU refuses nothing, and its seeds fit a frame. */
  ghost predicate Willing(e: Ecu) {
    forall st, req :: e.refuses(st, req) == None && |e.seedOf(st)| + 2 <= MAX_UDS_LENGTH
  }

  /** It never needs more time than the adapter allows. */
  ghost predicate Prompt(e: Ecu) {
    forall n :: e.stalls(n) <= MAX_PENDING_ATTEMPTS
  }

  /** A requestSeed level: odd, with a sendKey sub-function of its own. */
  predicate CanUnlock(level: byte) {
    level % 2 == 1 && level < 0xFF
  }

  /** Asked for a seed and given the key derived from it, a willing ECU
      unlocks that level, and confirms both in the form the adapter expects. */
  lemma SeedAndKeyUnlock(e: Ecu, st: EcuState, level: byte)
    requires Willing(e) && CanUnlock(level)
    ensures Serve(e, st, EncodeRequestSeed(level)).0 == st
    ensures DecodeSeed(Serve(e, st, EncodeRequestSeed(level)).1, level) == Some(e.seedOf(st))
    ensures var (st', resp) := Serve(e, st, EncodeSendKey(level, DerivedKey(e.seedOf(st), level)));
      st' == st.(level := level) && DecodeKeyAccepted(resp, level)
  {
    hide DerivedKey, IsPending, Perform;
    SeedIsGiven(e, st, level);
    KeyIsAccepted(e, st, level);
  }

  /** A willing ECU answers a read of a record it has, if the answer fits. */
  lemma WillingReadSucceeds(e: Ecu, st: EcuState, did: u16)
    requires Willing(e) && did in st.store && |st.store[did]| + 3 <= MAX_UDS_LENGTH
    ensures DirectRead(e, st, did) == (SovdOk, st.store[did])
  {
    hide BigEndian16, ReadU16, NrcToSovdResult, IsPending;
    var req := EncodeRead(did);
    assert req[1..] == BigEndian16(did) == req[1..3] && req[1..][..2] == req[1..];
    U16RoundTrip(req[1..], did);
    DecodeReadIff(Serve(e, st, req).1, did, st.store[did]);
  }

  lemma WillingSessionSucceeds(e: Ecu, st: EcuState, session: byte)
    requires Willing(e)
    ensures DecodeSessionControl(Serve(e, st, EncodeSessionControl(session)).1, session)
  {
  }

  lemma WillingWriteSucceeds(e: Ecu, st: EcuState, did: u16, data: seq<byte>, ioControl: bool)
    requires Willing(e)
    ensures DirectWrite(e, st, did, data, ioControl).0 == SovdOk
  {
    hide ReadU16, BigEndian16, NrcToSovdResult, IsPending;
    var req := WriteRequest(did, data, ioControl);
    assert req[1..3] == BigEndian16(did);
    var resp := Serve(e, st, req).1;
    EchoesIff(resp, req[0], did);
    assert [req[0] + 0x40] + BigEndian16(did) <= resp;
  }

  lemma SeedIsGiven(e: Ecu, st: EcuState, level: byte)
    requires CanUnlock(level)
    ensures Perform(e, st, EncodeRequestSeed(level)) == (st, [SID_SECURITY_ACCESS + 0x40, level] + e.seedOf(st))
    ensures DecodeSeed([SID_SECURITY_ACCESS + 0x40, level] + e.seedOf(st), level) == Some(e.seedOf(st))
  {
  }

  lemma KeyIsAccepted(e: Ecu, st: EcuState, level: byte)
    requires CanUnlock(level)
    ensures Perform(e, st, EncodeSendKey(level, DerivedKey(e.seedOf(st), level)))
         == (st.(level := level), [SID_SECURITY_ACCESS + 0x40, level + 1])
    ensures DecodeKeyAccepted([SID_SECURITY_ACCESS + 0x40, level + 1], level)
  {
    hide ReadU16, DerivedKey, KeyFits;
    var key := DerivedKey(e.seedOf(st), level);
    DerivedKeyFitsIff(e.seedOf(st), level, key);
    assert EncodeSendKey(level, key)[2..] == key;
  }

  lemma ServeIsNotPending(e: Ecu, st: EcuState, req: seq<byte>)
    ensures !IsPending(Serve(e, st, req).1)
  {
  }

  class UdsDoipContext {
    const transport: DoipTransport
    const ecuAddress: u16
    const catalog: Option<seq<DataItem>>
    var sessionType: byte
    var securityLevel: byte

    constructor (transport: DoipTransport, ecuAddress: u16, catalog: Option<seq<DataItem>>)
      ensures this.transport == transport && this.ecuAddress == ecuAddress && this.catalog == catalog
      ensures sessionType == DEFAULT_SESSION_TYPE && securityLevel == 0
    {
      this.transport, this.ecuAddress, this.catalog := transport, ecuAddress, catalog;
      sessionType, securityLevel := DEFAULT_SESSION_TYPE, 0;
    }

    ghost predicate Valid()
      reads transport, transport.sock
    {
      transport.sock != null ==> transport.sock.Valid()
    }

    ghost predicate Usable(dialed: Socket?)
      reads transport, transport.sock, dialed
    {
      Valid() && (dialed != null ==> dialed.Valid())
    }

    /** The socket is connected to this ECU. */
    ghost predicate Attached(e: Ecu, s: Socket) {
      e.address == ecuAddress && forall wire :: s.peer(wire) == Speak(e, wire)
    }

    /** Connected to the ECU, between requests, with nothing left unread. */
    ghost predicate InStep(e: Ecu)
      reads transport, transport.sock
    {
      && transport.sock != null && transport.sock.Valid() && Attached(e, transport.sock)
      && ParseWire(transport.sock.sent).1 == []
      && transport.sock.Pending() == []
    }

    /** In step, or about to be connected to the ECU for the first time. */
    ghost predicate Reaches(e: Ecu, dialed: Socket?)
      reads transport, transport.sock, dialed
    {
      || InStep(e)
      || (transport.sock == null && dialed != null && dialed.Valid() && Attached(e, dialed)
          && dialed.sent == [] && dialed.consumed == 0)
    }

    /** The ECU's state, after everything it has been sent. */
    ghost function Now(e: Ecu): EcuState
      reads transport, transport.sock
    {
      if transport.sock == null then e.initial else StateAfter(e, ParseWire(transport.sock.sent).0)
    }

    /** The last whole frame that has been sent. */
    ghost function LastFrame(): Option<Frame>
      reads transport, transport.sock
    {
      if transport.sock == null then None
      else
        var fs := ParseWire(transport.sock.sent).0;
        if fs == [] then None else Some(fs[|fs| - 1])
    }

    /** How often the ECU will ask for more time on the next request; the
        first frame on a new connection is the routing activation. */
    ghost function NextStall(e: Ecu): nat
      reads transport, transport.sock
    {
      e.stalls(if transport.sock == null then 1 else |ParseWire(transport.sock.sent).0|)
    }

    /** The connection there is, or else the one to be, loses nothing. */
    ghost predicate ReliableLink(dialed: Socket?)
      reads transport
    {
      if transport.sock != null then transport.sock.Reliable() else dialed != null && dialed.Reliable()
    }

    /** An ECU that refuses nothing and is prompt, reached over a network that
        loses nothing. */
    ghost predicate Cooperative(e: Ecu, dialed: Socket?)
      reads transport, transport.sock, dialed
    {
      Reaches(e, dialed) && ReliableLink(dialed) && Willing(e) && Prompt(e)
    }

    /** The tester's bookkeeping is true of the ECU: the session, and at least
        the level. */
    ghost predicate Informed(e: Ecu)
      reads this, transport, transport.sock
    {
      Now(e).session == sessionType && Now(e).level >= securityLevel
    }

    /** A request no longer than the wire's length field can say. */
    static predicate Sendable(req: seq<byte>) {
      |req| + 4 < 0x1_0000_0000
    }

    method EnsureConnected(dialed: Socket?, ghost e: Ecu) returns (up: bool)
      requires Usable(dialed)
      modifies transport, dialed
      ensures Usable(dialed) && (up <==> transport.sock != null)
      ensures transport.sock == old(transport.sock) || transport.sock == dialed
      ensures old(transport.sock) != null ==> transport.sock == old(transport.sock)
      ensures old(Reaches(e, dialed)) && up ==>
        InStep(e) && Now(e) == old(Now(e)) && NextStall(e) == old(NextStall(e))
      ensures old(Reaches(e, dialed)) && old(ReliableLink(dialed)) ==> up && ReliableLink(dialed)
    {
      hide Frame.Bytes, Activate, ActivationFrame, Speak;
      ghost var first := ActivationFrame(transport.testerAddress, 0);
      ActivatedInStep(e, transport.testerAddress);
      assert [] + first.Bytes() == first.Bytes();
      if !transport.IsConnected() {
        ghost var anew := old(Reaches(e, dialed));
        assert anew ==> old(dialed.Answer(first.Bytes())) == Speak(e, first.Bytes());
        var ok, err := transport.Connect(dialed);
        if !ok {
          return false;
        }
      }
      return true;
    }

    /** The send of this request was cut short, or a recv since then met a
        timeout or a lost connection. */
    ghost predicate NetworkFault(req: seq<byte>, recvs: nat, sends: nat)
      requires transport.sock != null
      reads transport, transport.sock
    {
      || transport.sock.ShortSend(sends, |DiagnosticFrame(transport.testerAddress, ecuAddress, req).Bytes()|)
      || transport.sock.FaultIn(recvs, transport.sock.recvs)
    }

    /** One request on the open connection: the request, then the bounded loop
        over pending answers, which is Resolve of the stream that follows. */
    method AskAndResolve(req: seq<byte>) returns (ok: bool, resp: seq<byte>)
      requires Valid() && transport.sock != null
      modifies transport.sock
      ensures Valid() && transport.sock.consumed >= old(transport.sock.consumed)
      ensures transport.sock.recvs >= old(transport.sock.recvs)
      ensures ok ==>
        && transport.sock.sent
             == old(transport.sock.sent) + DiagnosticFrame(transport.testerAddress, ecuAddress, req).Bytes()
        && Resolve(old(transport.sock.Answer(DiagnosticFrame(transport.testerAddress, ecuAddress, req).Bytes())),
                   ecuAddress, transport.testerAddress)
             == Reply(resp, transport.sock.consumed - old(transport.sock.consumed))
      ensures !ok ==>
        || Resolve(old(transport.sock.Answer(DiagnosticFrame(transport.testerAddress, ecuAddress, req).Bytes())),
                   ecuAddress, transport.testerAddress).Fail?
        || NetworkFault(req, old(transport.sock.recvs), old(transport.sock.sends))
    {
      hide ReadDiagnostic, Frame.Bytes, DiagnosticFrame, Exchange, Resolve, Resume, IsPending;
      ghost var wire := transport.sock.sent + DiagnosticFrame(transport.testerAddress, ecuAddress, req).Bytes();
      ghost var stream := transport.sock.Answer(DiagnosticFrame(transport.testerAddress, ecuAddress, req).Bytes());
      ghost var start := transport.sock.consumed;
      ResolveResumes(stream, ecuAddress, transport.testerAddress);
      var got, current, err := transport.SendAndReceive(ecuAddress, req);
      if !got {
        return false, [];
      }
      ghost var read := transport.sock.consumed - start;
      var attempts := 0;
      while IsPending(current) && attempts < MAX_PENDING_ATTEMPTS
        invariant Valid()
        invariant 0 <= attempts <= MAX_PENDING_ATTEMPTS
        invariant 0 <= read <= |stream| && transport.sock.consumed == start + read
        invariant transport.sock.recvs >= old(transport.sock.recvs)
        invariant transport.sock.sent == wire && transport.sock.Pending() == stream[read..]
        invariant Resolve(stream, ecuAddress, transport.testerAddress)
               == Resume(stream, read, current, MAX_PENDING_ATTEMPTS - attempts, ecuAddress, transport.testerAddress)
      {
        ResumeStep(stream, read, current, MAX_PENDING_ATTEMPTS - attempts, ecuAddress, transport.testerAddress);
        ghost var before := transport.sock.consumed;
        got, current, err := transport.ReceivePendingResponse(ecuAddress);
        if !got {
          return false, [];
        }
        ghost var used := transport.sock.consumed - before;
        assert stream[read..][used..] == stream[read + used..];
        read := read + used;
        attempts := attempts + 1;
      }
      ResumeEnds(stream, read, current, MAX_PENDING_ATTEMPTS - attempts, ecuAddress, transport.testerAddress);
      return true, current;
    }

    /** The same request as a step of the two ends together. */
    method AskInStep(req: seq<byte>, ghost e: Ecu) returns (ok: bool, resp: seq<byte>)
      requires Valid() && transport.sock != null
      modifies transport.sock
      ensures Valid()
      ensures old(InStep(e)) && ok && Sendable(req) ==>
        && Now(e) == Serve(e, old(Now(e)), req).0
        && (IsPending(resp) <==> old(NextStall(e)) > MAX_PENDING_ATTEMPTS)
        && (!IsPending(resp) ==> InStep(e) && resp == Serve(e, old(Now(e)), req).1)
        && LastFrame() == Some(DiagnosticFrame(transport.testerAddress, ecuAddress, req))
      ensures old(InStep(e)) && !ok && Sendable(req) ==>
        NetworkFault(req, old(transport.sock.recvs), old(transport.sock.sends))
    {
      hide Resolve, Frame.Bytes, DiagnosticFrame, IsPending, Serve, Speak, ParseWire, StateAfter;
      if InStep(e) && Sendable(req) {
        ghost var wire, bytes := transport.sock.sent, DiagnosticFrame(transport.testerAddress, ecuAddress, req).Bytes();
        OneRequest(e, wire, transport.testerAddress, req);
        assert DiagnosticFrame(transport.testerAddress, ecuAddress, req).Fits() by {
          DiagnosticFrameFits(transport.testerAddress, ecuAddress, req);
        }
        AppendFrame(wire, DiagnosticFrame(transport.testerAddress, ecuAddress, req));
        ServeIsNotPending(e, Now(e), req);
        assert transport.sock.consumed == |Speak(e, wire)|;
        assert transport.sock.Answer(bytes) == Speak(e, wire + bytes)[|Speak(e, wire)|..];
      }
      ok, resp := AskAndResolve(req);
    }

    /** The one place a request crosses the wire. Whatever the chunks, a
        request that comes back with a reply is the direct call of the ECU:
        same reply, same effect, and both ends in step again. On a network
        that loses nothing it always comes back, and with a pending reply
        exactly if the ECU stalled more than ten times. */
    method SendAndResolve(req: seq<byte>, dialed: Socket?, ghost e: Ecu) returns (ok: bool, resp: seq<byte>)
      requires Usable(dialed)
      modifies transport, transport.sock, dialed
      ensures Usable(dialed)
      ensures transport.sock == old(transport.sock) || transport.sock == dialed
      ensures old(transport.sock) != null ==> transport.sock == old(transport.sock)
      ensures old(Reaches(e, dialed)) && ok && Sendable(req) ==>
        && transport.sock != null
        && Now(e) == Serve(e, old(Now(e)), req).0
        && (IsPending(resp) <==> old(NextStall(e)) > MAX_PENDING_ATTEMPTS)
        && (!IsPending(resp) ==> InStep(e) && resp == Serve(e, old(Now(e)), req).1)
        && LastFrame() == Some(DiagnosticFrame(transport.testerAddress, ecuAddress, req))
      ensures old(Reaches(e, dialed)) && old(ReliableLink(dialed)) && Sendable(req) ==> ok && ReliableLink(dialed)
    {
      hide InStep, IsPending, Serve;
      var up := EnsureConnected(dialed, e);
      if !up {
        return false, [];
      }
      ok, resp := AskInStep(req, e);
    }

    method ReadData(did: u16, dialed: Socket?, ghost e: Ecu) returns (r: SovdResult, data: seq<byte>)
      requires Usable(dialed)
      modifies transport, transport.sock, dialed
      ensures Usable(dialed)
      ensures transport.sock == old(transport.sock) || transport.sock == dialed
      ensures old(Reaches(e, dialed)) && r == SovdOk ==>
        InStep(e) && Now(e) == old(Now(e)) && did in Now(e).store && data == Now(e).store[did]
      ensures old(Reaches(e, dialed)) && r != SovdTransport ==>
        if old(NextStall(e)) <= MAX_PENDING_ATTEMPTS
        then (r, data) == DirectRead(e, old(Now(e)), did) && InStep(e)
        else r == SovdBusy
      ensures old(Reaches(e, dialed)) && old(ReliableLink(dialed)) ==> r != SovdTransport && ReliableLink(dialed)
    {
      hide InStep, Serve, Reaches, NrcToSovdResult;
      DirectReadReturnsTheRecord(e, Now(e), did);
      var req := EncodeRead(did);
      var ok, resp := SendAndResolve(req, dialed, e);
      if !ok {
        return SovdTransport, [];
      }
      var answer := DecodeRead(resp, did);
      if answer.None? {
        PendingMeansBusy(resp);
        return NegativeOrInternal(resp), [];
      }
      return SovdOk, answer.value;
    }

    method EnsureSession(session: byte, dialed: Socket?, ghost e: Ecu) returns (ok: bool)
      requires Usable(dialed)
      modifies this, transport, transport.sock, dialed
      ensures Usable(dialed) && securityLevel == old(securityLevel)
      ensures transport.sock == old(transport.sock) || transport.sock == dialed
      ensures sessionType == if ok then session else old(sessionType)
      ensures old(sessionType) == session ==> ok
      ensures old(Reaches(e, dialed)) && ok ==> Reaches(e, dialed) && Now(e).store == old(Now(e)).store
      ensures old(Cooperative(e, dialed)) ==> ok && Cooperative(e, dialed)
      ensures old(Reaches(e, dialed)) && ok ==>
        Now(e) == if old(sessionType) == session then old(Now(e)) else InSession(e, old(Now(e)), session)
    {
      hide InStep, Serve, Willing;
      if sessionType == session {
        return true;
      }
      ConfirmedSessionIsEntered(e, Now(e), session);
      if Willing(e) {
        WillingSessionSucceeds(e, Now(e), session);
      }
      var req := EncodeSessionControl(session);
      SessionRequestsKeepTheStore(e, Now(e), req);
      var sent, resp := SendAndResolve(req, dialed, e);
      if !sent || !DecodeSessionControl(resp, session) {
        return false;
      }
      assert !IsPending(resp) by { AcceptedIsNotPending(resp); }
      sessionType := session;
      return true;
    }

    /** One beat of the heartbeat, whose outcome it does not look at. A beat
        that gets its answer leaves the ECU as it was and both ends in step. */
    method Beat(dialed: Socket?, ghost e: Ecu) returns (ghost answered: bool)
      requires Usable(dialed)
      modifies transport, transport.sock, dialed
      ensures Usable(dialed)
      ensures transport.sock == old(transport.sock) || transport.sock == dialed
      ensures old(Reaches(e, dialed)) && answered ==>
        && InStep(e) && Now(e) == old(Now(e))
        && (old(Informed(e)) ==> Informed(e))
      ensures old(Cooperative(e, dialed)) ==> answered && Cooperative(e, dialed)
    {
      hide InStep, Serve, Willing, IsPending;
      TesterPresentChangesNothing(e, Now(e));
      var ok, resp := SendAndResolve(EncodeTesterPresent(), dialed, e);
      answered := ok && !IsPending(resp);
    }

    /** The idle fallback of the heartbeat changes the bookkeeping only: nothing
        is sent. It is true of the ECU afterwards exactly if the ECU has gone
        back to the default session by itself. */
    method FallBack(ghost e: Ecu)
      modifies this
      ensures sessionType == DEFAULT_SESSION_TYPE && securityLevel == 0
      ensures Now(e) == old(Now(e))
      ensures Informed(e) <==> Now(e).session == DEFAULT_SESSION_TYPE
      ensures old(Informed(e)) && old(sessionType) != DEFAULT_SESSION_TYPE ==> !Informed(e)
    {
      sessionType := DEFAULT_SESSION_TYPE;
      securityLevel := 0;
    }

    /** Back to the default session: asked for, and noted whatever the answer.
        A confirmed one is true of the ECU. */
    method RevertToDefault(dialed: Socket?, ghost e: Ecu) returns (confirmed: bool)
      requires Usable(dialed)
      modifies this, transport, transport.sock, dialed
      ensures Usable(dialed)
      ensures transport.sock == old(transport.sock) || transport.sock == dialed
      ensures sessionType == 0x01
      ensures securityLevel == if old(sessionType) == 0x01 then old(securityLevel) else 0
      ensures old(Reaches(e, dialed)) && confirmed ==>
        && Reaches(e, dialed)
        && Now(e) == (if old(sessionType) == DEFAULT_SESSION_TYPE then old(Now(e))
                      else InSession(e, old(Now(e)), DEFAULT_SESSION_TYPE))
        && (old(Informed(e)) ==> Informed(e))
      ensures old(Cooperative(e, dialed)) ==> confirmed && Cooperative(e, dialed)
    {
      hide InStep, Serve, Willing;
      if sessionType == DEFAULT_SESSION_TYPE {
        return true;
      }
      ConfirmedSessionIsEntered(e, Now(e), DEFAULT_SESSION_TYPE);
      if Willing(e) {
        WillingSessionSucceeds(e, Now(e), DEFAULT_SESSION_TYPE);
      }
      var ok, resp := SendAndResolve(EncodeSessionControl(DEFAULT_SESSION_TYPE), dialed, e);
      confirmed := ok && DecodeSessionControl(resp, DEFAULT_SESSION_TYPE);
      AcceptedIsNotPending(resp);
      sessionType := DEFAULT_SESSION_TYPE;
      securityLevel := 0;
    }

    method RequestSeed(level: byte, dialed: Socket?, ghost e: Ecu) returns (seed: Option<seq<byte>>)
      requires Usable(dialed)
      modifies transport, transport.sock, dialed
      ensures Usable(dialed)
      ensures transport.sock == old(transport.sock) || transport.sock == dialed
      ensures old(Reaches(e, dialed)) && seed.Some? ==>
        Reaches(e, dialed) && Now(e).store == old(Now(e)).store && |seed.value| <= MAX_UDS_LENGTH
      ensures old(Reaches(e, dialed)) && old(ReliableLink(dialed)) && Willing(e) && Prompt(e) && CanUnlock(level) ==>
        seed == Some(e.seedOf(Now(e))) && ReliableLink(dialed)
      ensures old(Reaches(e, dialed)) && seed.Some? && CanUnlock(level) ==> Now(e) == old(Now(e))
    {
      hide InStep, Serve, Willing, DerivedKey, IsPending;
      if CanUnlock(level) {
        SeedChangesNothing(e, Now(e), level);
      }
      SessionRequestsKeepTheStore(e, Now(e), EncodeRequestSeed(level));
      if Willing(e) && CanUnlock(level) {
        SeedAndKeyUnlock(e, Now(e), level);
      }
      var sent, resp := SendAndResolve(EncodeRequestSeed(level), dialed, e);
      if !sent {
        return None;
      }
      AcceptedIsNotPending(resp);
      return DecodeSeed(resp, level);
    }

    method SendKey(level: byte, seed: seq<byte>, dialed: Socket?, ghost e: Ecu) returns (ok: bool)
      requires Usable(dialed)
      modifies transport, transport.sock, dialed
      ensures Usable(dialed)
      ensures transport.sock == old(transport.sock) || transport.sock == dialed
      ensures old(Reaches(e, dialed)) && ok && |seed| <= MAX_UDS_LENGTH ==>
        Reaches(e, dialed) && Now(e).store == old(Now(e)).store
      ensures old(Reaches(e, dialed)) && old(ReliableLink(dialed)) && |seed| <= MAX_UDS_LENGTH ==> ReliableLink(dialed)
      ensures (old(Reaches(e, dialed)) && old(ReliableLink(dialed)) && Willing(e) && Prompt(e) && CanUnlock(level)
               && seed == e.seedOf(old(Now(e)))) ==> ok
      ensures old(Reaches(e, dialed)) && ok && CanUnlock(level) && |seed| <= MAX_UDS_LENGTH ==>
        Now(e) == old(Now(e)).(level := level)
    {
      hide InStep, Serve, DerivedKey, IsPending;
      var key := DeriveKey(seed, level);
      if CanUnlock(level) {
        AcceptedKeyUnlocks(e, Now(e), level, key);
      }
      var req := EncodeSendKey(level, key);
      SessionRequestsKeepTheStore(e, Now(e), req);
      if Willing(e) && CanUnlock(level) {
        SeedAndKeyUnlock(e, Now(e), level);
      }
      var sent, resp := SendAndResolve(req, dialed, e);
      if !sent {
        return false;
      }
      AcceptedIsNotPending(resp);
      return DecodeKeyAccepted(resp, level);
    }

    /** The seed and key exchange, unless the level is unlocked already. With
        a willing ECU on a network that loses nothing it always succeeds. */
    method EnsureSecurityLevel(level: byte, dialed: Socket?, ghost e: Ecu) returns (ok: bool)
      requires Usable(dialed)
      modifies this, transport, transport.sock, dialed
      ensures Usable(dialed) && sessionType == old(sessionType)
      ensures transport.sock == old(transport.sock) || transport.sock == dialed
      ensures securityLevel == if ok && old(securityLevel) < level then level else old(securityLevel)
      ensures old(securityLevel) >= level ==> ok
      ensures old(Reaches(e, dialed)) && ok ==> Reaches(e, dialed) && Now(e).store == old(Now(e)).store
      ensures old(Cooperative(e, dialed)) && CanUnlock(level) ==> ok && Cooperative(e, dialed)
      ensures old(Reaches(e, dialed)) && ok && CanUnlock(level) ==>
        Now(e) == if old(securityLevel) >= level then old(Now(e)) else old(Now(e)).(level := level)
    {
      hide Reaches, Willing, Prompt;
      if securityLevel >= level {
        return true;
      }
      var seed := RequestSeed(level, dialed, e);
      if seed.None? {
        return false;
      }
      ok := SendKey(level, seed.value, dialed, e);
      if ok {
        securityLevel := level;
      }
    }

    /** The catalog entry of an identifier, if there is a catalog with one. */
    function Item(did: u16): Option<DataItem> {
      if catalog.None? then None else FindByDid(catalog.value, did)
    }

    function SessionFor(did: u16): Option<byte> {
      match Item(did)
      case Some(item) => if item.requiresSession.Some? then SessionNameToType(item.requiresSession.value) else None
      case None => None
    }

    /** The demanded level, cut to an octet. */
    function LevelFor(did: u16): Option<byte> {
      match Item(did)
      case Some(item) =>
        if item.requiresSecurityLevel.Some? then Some(item.requiresSecurityLevel.value % 0x100) else None
      case None => None
    }

    predicate IoControlFor(did: u16) {
      Item(did).Some? && Item(did).value.ioControl
    }

    /** The demanded level, if any, is one that a seed can be requested for. */
    predicate CanEscalate(did: u16) {
      LevelFor(did).Some? ==> CanUnlock(LevelFor(did).value)
    }

    /** The session has to change, the ECU will lock itself with it, and the
        tester takes an earlier unlock to be good enough. */
    ghost predicate Stale(e: Ecu, did: u16)
      reads this
    {
      && e.relocks
      && SessionFor(did).Some? && SessionFor(did).value != sessionType
      && LevelFor(did).Some? && 0 < LevelFor(did).value <= securityLevel
    }

    /** The session, then the security level the catalog demands for a write. */
    method Escalate(did: u16, dialed: Socket?, ghost e: Ecu) returns (r: SovdResult)
      requires Usable(dialed)
      modifies this, transport, transport.sock, dialed
      ensures Usable(dialed)
      ensures transport.sock == old(transport.sock) || transport.sock == dialed
      ensures old(Reaches(e, dialed)) && r == SovdOk ==> Reaches(e, dialed) && Now(e).store == old(Now(e)).store
      ensures r == SovdOk && SessionFor(did).Some? ==> sessionType == SessionFor(did).value
      ensures r == SovdOk && LevelFor(did).Some? ==> securityLevel >= LevelFor(did).value
      ensures r in {SovdOk, SovdTransport, SovdForbidden}
      ensures r == SovdTransport ==>
        SessionFor(did).Some? && old(sessionType) == sessionType != SessionFor(did).value
      ensures r == SovdForbidden ==>
        && (SessionFor(did).Some? ==> sessionType == SessionFor(did).value)
        && LevelFor(did).Some? && securityLevel < LevelFor(did).value
      ensures SessionFor(did).None? && LevelFor(did).None? ==> r == SovdOk && Untouched(dialed)
      ensures old(Cooperative(e, dialed)) && CanEscalate(did) ==> r == SovdOk && Cooperative(e, dialed)
      ensures old(Reaches(e, dialed)) && old(Informed(e)) && r == SovdOk && CanEscalate(did) ==>
        && Now(e).session == sessionType
        && (!e.relocks ==> Informed(e))
        && (LevelFor(did).Some? ==> (Now(e).level >= LevelFor(did).value <==> !old(Stale(e, did))))
    {
      hide Reaches, Cooperative;
      var session := SessionFor(did);
      if session.Some? {
        var escalated := EnsureSession(session.value, dialed, e);
        if !escalated {
          return SovdTransport;
        }
      }
      var level := LevelFor(did);
      if level.Some? {
        var unlocked := EnsureSecurityLevel(level.value, dialed, e);
        if !unlocked {
          return SovdForbidden;
        }
      }
      return SovdOk;
    }

    /** What the catalog's own entry for the identifier demands of a write: the
        session it names, at least its level, and the service it asks for, with
        this data, in the last frame sent. */
    ghost predicate MeetsDemands(did: u16, data: seq<byte>)
      reads this, transport, transport.sock
    {
      catalog.Some? ==> forall i: nat :: FirstUnder(catalog.value, did, i) ==>
        var item := catalog.value[i];
        && (item.requiresSession == Some("default") ==> sessionType == 0x01)
        && (item.requiresSession == Some("programming") ==> sessionType == 0x02)
        && (item.requiresSession == Some("extended") ==> sessionType == 0x03)
        && (item.requiresSecurityLevel.Some? ==> securityLevel >= item.requiresSecurityLevel.value % 0x100)
        && LastFrame() == Some(DiagnosticFrame(transport.testerAddress, ecuAddress,
                                               if item.ioControl
                                               then [0x2F, did / 0x100, did % 0x100, 0x03] + data
                                               else [0x2E, did / 0x100, did % 0x100] + data))
    }

    /** An identifier the catalog does not list demands nothing; and what one it
        lists demands is what its first entry says. */
    lemma DemandsAreTheItems(did: u16)
      ensures (catalog.None? || forall i :: 0 <= i < |catalog.value| ==> catalog.value[i].did != did) ==>
        SessionFor(did).None? && LevelFor(did).None? && !IoControlFor(did)
      ensures catalog.Some? ==> forall i: nat :: FirstUnder(catalog.value, did, i) ==>
        var item := catalog.value[i];
        && SessionFor(did)
           == (if item.requiresSession.Some? then SessionNameToType(item.requiresSession.value) else None)
        && LevelFor(did)
           == (if item.requiresSecurityLevel.Some? then Some(item.requiresSecurityLevel.value % 0x100) else None)
        && IoControlFor(did) == item.ioControl
    {
      hide SessionNameToType;
      if catalog.Some? {
        FindByDidIff(catalog.value, did);
      }
    }

    twostate predicate Untouched(dialed: Socket?)
      reads transport, transport.sock, dialed
    {
      && unchanged(transport)
      && (transport.sock != null ==> unchanged(transport.sock))
      && (dialed != null ==> unchanged(dialed))
    }

    /** The write itself, in whatever session is in force. */
    method SendWrite(did: u16, data: seq<byte>, ioControl: bool, dialed: Socket?, ghost e: Ecu) returns (r: SovdResult)
      requires Usable(dialed)
      modifies transport, transport.sock, dialed
      ensures Usable(dialed)
      ensures transport.sock == old(transport.sock) || transport.sock == dialed
      ensures old(Reaches(e, dialed)) && r == SovdOk && Sendable(WriteRequest(did, data, ioControl)) ==>
        InStep(e) && Now(e).store == old(Now(e)).store[did := data]
      ensures old(Reaches(e, dialed)) && r != SovdTransport && Sendable(WriteRequest(did, data, ioControl)) ==>
        if old(NextStall(e)) <= MAX_PENDING_ATTEMPTS
        then (r, Now(e)) == DirectWrite(e, old(Now(e)), did, data, ioControl) && InStep(e)
        else r == SovdBusy
      ensures old(Reaches(e, dialed)) && old(ReliableLink(dialed)) && Sendable(WriteRequest(did, data, ioControl)) ==>
        r != SovdTransport && ReliableLink(dialed)
      ensures old(Reaches(e, dialed)) && r == SovdOk && Sendable(WriteRequest(did, data, ioControl)) ==>
        && Now(e) == old(Now(e)).(store := old(Now(e)).store[did := data])
        && (old(Informed(e)) ==> Informed(e))
      ensures old(Reaches(e, dialed)) && r != SovdTransport && Sendable(WriteRequest(did, data, ioControl)) ==>
        LastFrame() == Some(DiagnosticFrame(transport.testerAddress, ecuAddress, WriteRequest(did, data, ioControl)))
    {
      hide Reaches, InStep, Serve, NegativeOrInternal, IsPending;
      var req := WriteRequest(did, data, ioControl);
      ConfirmedWriteStores(e, Now(e), did, data, ioControl);
      var ok, resp := SendAndResolve(req, dialed, e);
      if !ok {
        return SovdTransport;
      }
      AcceptedIsNotPending(resp);
      PendingMeansBusy(resp);
      return if WriteConfirmed(resp, did, ioControl) then SovdOk else NegativeOrInternal(resp);
    }

    /** A write that comes back confirmed has stored exactly the data under
        exactly this identifier, whatever was escalated on the way; with a
        cooperative ECU it always does. */
    method WriteData(did: u16, data: seq<byte>, dialed: Socket?, ghost e: Ecu) returns (r: SovdResult)
      requires Usable(dialed)
      modifies this, transport, transport.sock, dialed
      ensures Usable(dialed)
      ensures transport.sock == old(transport.sock) || transport.sock == dialed
      ensures old(Reaches(e, dialed)) && r == SovdOk && |data| + 8 < 0x1_0000_0000 ==>
        InStep(e) && Now(e).store == old(Now(e)).store[did := data]
      ensures r == SovdOk && SessionFor(did).Some? ==> sessionType == SessionFor(did).value
      ensures r == SovdOk && LevelFor(did).Some? ==> securityLevel >= LevelFor(did).value
      ensures (old(Reaches(e, dialed)) && r != SovdTransport && |data| + 8 < 0x1_0000_0000
               && SessionFor(did).None? && LevelFor(did).None?) ==>
        if old(NextStall(e)) <= MAX_PENDING_ATTEMPTS
        then (r, Now(e)) == DirectWrite(e, old(Now(e)), did, data, IoControlFor(did)) && InStep(e)
        else r == SovdBusy
      ensures (old(Reaches(e, dialed)) && old(ReliableLink(dialed)) && |data| + 8 < 0x1_0000_0000
               && SessionFor(did).None? && LevelFor(did).None?) ==> r != SovdTransport
      ensures old(Cooperative(e, dialed)) && CanEscalate(did) && |data| + 8 < 0x1_0000_0000 ==>
        r == SovdOk && ReliableLink(dialed)
      ensures (old(Reaches(e, dialed)) && old(Informed(e)) && r == SovdOk && CanEscalate(did)
               && |data| + 8 < 0x1_0000_0000) ==>
        && Now(e).session == sessionType
        && (!e.relocks ==> Informed(e))
        && (LevelFor(did).Some? ==> (Now(e).level >= LevelFor(did).value <==> !old(Stale(e, did))))
      ensures old(Reaches(e, dialed)) && r == SovdOk && |data| + 8 < 0x1_0000_0000 ==> MeetsDemands(did, data)
    {
      hide Reaches, InStep, DirectWrite, WriteRequest, SessionFor, LevelFor, IoControlFor, Willing, CanEscalate,
        MeetsDemands, LastFrame, DiagnosticFrame, Stale, Now, Informed;
      r := Escalate(did, dialed, e);
      if r != SovdOk {
        return r;
      }
      var ioControl := IoControlFor(did);
      assert |WriteRequest(did, data, ioControl)| <= |data| + 4 by {
        WriteRequestSize(did, data, ioControl);
      }
      if Willing(e) {
        WillingWriteSucceeds(e, Now(e), did, data, ioControl);
      }
      r := SendWrite(did, data, ioControl, dialed, e);
      assert old(Reaches(e, dialed)) && r == SovdOk && |data| + 8 < 0x1_0000_0000 ==> MeetsDemands(did, data) by {
        if r == SovdOk && LastFrame()
             == Some(DiagnosticFrame(transport.testerAddress, ecuAddress, WriteRequest(did, data, ioControl))) {
          DemandsAreMet(did, data);
        }
      }
    }

    lemma DemandsAreMet(did: u16, data: seq<byte>)
      requires SessionFor(did).Some? ==> sessionType == SessionFor(did).value
      requires LevelFor(did).Some? ==> securityLevel >= LevelFor(did).value
      requires LastFrame() == Some(DiagnosticFrame(transport.testerAddress, ecuAddress,
                                                   WriteRequest(did, data, IoControlFor(did))))
      ensures MeetsDemands(did, data)
    {
      hide SessionFor, LevelFor, IoControlFor, LastFrame, SessionNameToType, DiagnosticFrame;
      DemandsAreTheItems(did);
      SessionNames("");
      RequestOctets(did, 0x03, data, 0, 0);
    }
  }

  lemma DiagnosticFrameFits(source: u16, target: u16, req: seq<byte>)
    requires |req| + 4 < 0x1_0000_0000
    ensures DiagnosticFrame(source, target, req).Fits()
  {
  }

  lemma WriteRequestSize(did: u16, data: seq<byte>, ioControl: bool)
    ensures |WriteRequest(did, data, ioControl)| == |data| + (if ioControl then 4 else 3)
  {
  }

  lemma PendingMeansBusy(resp: seq<byte>)
    ensures IsPending(resp) ==> NegativeOrInternal(resp) == SovdBusy
  {
  }

  lemma AcceptedIsNotPending(resp: seq<byte>)
    ensures |resp| > 0 && resp[0] != NEGATIVE_RESPONSE ==> !IsPending(resp)
  {
  }
}
