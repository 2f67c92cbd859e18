/** The bounded response-pending loop: an ECU that needs more time answers
    7F xx 78 and sends the real answer unprompted later. Resolve says what one
    request comes to on the byte stream that follows it. */
module ResponsePending {
  import opened Bytes
  import opened DoipProtocol
  import opened DoipTransport
  import opened UdsServices

  const MAX_PENDING_ATTEMPTS := 10

  /** Reads an answer, and another for each pending one while attempts are left. */
  function Chain(s: seq<byte>, ecu: u16, tester: u16, left: nat): (r: Outcome)
    ensures r.Reply? ==> r.used <= |s|
  {
    match ReadDiagnostic(s, ecu, tester)
    case Fail(e) => Fail(e)
    case Reply(uds, used) =>
      if IsPending(uds) && left > 0 then Shift(Chain(s[used..], ecu, tester, left - 1), used) else Reply(uds, used)
  }

  function Resolve(s: seq<byte>, ecu: u16, tester: u16): (r: Outcome)
    ensures r.Reply? ==> r.used <= |s|
  {
    match ReadAck(s)
    case Err(e) => Fail(e)
    case Ok(ack) => Shift(Chain(s[ack..], ecu, tester, MAX_PENDING_ATTEMPTS), ack)
  }

  /** What the loop still comes to, with this answer in hand, its successors
      from here on in the stream and some attempts left. */
  function Resume(answers: seq<byte>, read: nat, current: seq<byte>, left: nat, ecu: u16, tester: u16): Outcome
    requires read <= |answers|
  {
    if IsPending(current) && left > 0 then Shift(Chain(answers[read..], ecu, tester, left - 1), read)
    else Reply(current, read)
  }

  lemma ResumeStep(answers: seq<byte>, read: nat, current: seq<byte>, left: nat, ecu: u16, tester: u16)
    requires read <= |answers| && IsPending(current) && left > 0
    ensures var next := ReadDiagnostic(answers[read..], ecu, tester);
      Resume(answers, read, current, left, ecu, tester)
      == if next.Reply? then Resume(answers, read + next.used, next.uds, left - 1, ecu, tester) else next
  {
  }

  lemma ResumeEnds(answers: seq<byte>, read: nat, current: seq<byte>, left: nat, ecu: u16, tester: u16)
    requires read <= |answers| && (!IsPending(current) || left == 0)
    ensures Resume(answers, read, current, left, ecu, tester) == Reply(current, read)
  {
  }

  /** The exchange first, the loop from its answer on. */
  lemma ResolveResumes(s: seq<byte>, ecu: u16, tester: u16)
    ensures var first := Exchange(s, ecu, tester);
      Resolve(s, ecu, tester)
      == if first.Reply? then Resume(s, first.used, first.uds, MAX_PENDING_ATTEMPTS, ecu, tester) else first
  {
    hide ReadDiagnostic, IsPending, ReadAck;
    var first := Exchange(s, ecu, tester);
    if first.Reply? {
      var ack := ReadAck(s).value;
      assert s[ack..][first.used - ack..] == s[first.used..];
    }
  }

  /** The stream of an ECU's answers, one diagnostic frame each. */
  function Answers(ecu: u16, tester: u16, rs: seq<seq<byte>>): seq<byte> {
    if rs == [] then [] else DiagnosticFrame(ecu, tester, rs[0]).Bytes() + Answers(ecu, tester, rs[1..])
  }

  predicate Deliverable(rs: seq<seq<byte>>) {
    forall i :: 0 <= i < |rs| ==> |rs[i]| <= MAX_UDS_LENGTH
  }

  predicate AllPending(rs: seq<seq<byte>>) {
    forall i :: 0 <= i < |rs| ==> IsPending(rs[i])
  }

  /** The answers a caller with this many attempts left reads: pending ones,
      then the one it returns, which is pending only if the attempts ran out. */
  predicate IsWait(rs: seq<seq<byte>>, left: nat) {
    && 0 < |rs| <= left + 1
    && AllPending(rs[..|rs| - 1])
    && (IsPending(rs[|rs| - 1]) ==> |rs| == left + 1)
    && Deliverable(rs)
  }

  lemma {:induction false} ChainReads(rs: seq<seq<byte>>, tail: seq<byte>, ecu: u16, tester: u16, left: nat)
    requires IsWait(rs, left)
    ensures Chain(Answers(ecu, tester, rs) + tail, ecu, tester, left)
         == Reply(rs[|rs| - 1], |Answers(ecu, tester, rs)|)
    decreases left
  {
    hide ReadDiagnostic, DiagnosticFrame, Frame.Bytes, IsPending;
    var s := Answers(ecu, tester, rs) + tail;
    var f := DiagnosticFrame(ecu, tester, rs[0]).Bytes();
    var rest := Answers(ecu, tester, rs[1..]);
    assert s == f + (rest + tail);
    ReadDiagnosticIff(s, ecu, tester, rs[0], |f|);
    assert s[|f|..] == rest + tail;
    if |rs| > 1 {
      assert rs[..|rs| - 1][0] == rs[0];
      assert rs[1..][..|rs| - 2] == rs[..|rs| - 1][1..];
      ChainReads(rs[1..], tail, ecu, tester, left - 1);
    } else {
      assert rest == [];
    }
  }

  lemma {:induction false} ChainSound(s: seq<byte>, ecu: u16, tester: u16, left: nat) returns (rs: seq<seq<byte>>)
    requires Chain(s, ecu, tester, left).Reply?
    ensures IsWait(rs, left) && Answers(ecu, tester, rs) <= s
    ensures Chain(s, ecu, tester, left) == Reply(rs[|rs| - 1], |Answers(ecu, tester, rs)|)
    decreases left
  {
    hide ReadDiagnostic, DiagnosticFrame, Frame.Bytes, IsPending;
    var Reply(uds, used) := ReadDiagnostic(s, ecu, tester);
    ReadDiagnosticIff(s, ecu, tester, uds, used);
    if IsPending(uds) && left > 0 {
      var rest := ChainSound(s[used..], ecu, tester, left - 1);
      rs := [uds] + rest;
      assert rs[1..] == rest;
      assert rs[..|rs| - 1] == [uds] + rest[..|rest| - 1];
      assert s == s[..used] + s[used..];
    } else {
      rs := [uds];
      assert rs[..0] == [] && Answers(ecu, tester, rs[1..]) == [];
      assert Answers(ecu, tester, rs) == s[..used];
    }
  }

  /** The stream begins with an acknowledgement and these answers. */
  predicate IsExchange(s: seq<byte>, ecu: u16, tester: u16, ack: Frame, rs: seq<seq<byte>>) {
    IsAck(ack) && IsWait(rs, MAX_PENDING_ATTEMPTS) && ack.Bytes() + Answers(ecu, tester, rs) <= s
  }

  /** Exchange refinement, both ways: a request returns resp, using up used
      bytes, exactly when the stream begins with a positive acknowledgement,
      then at most ten pending answers, then resp - itself pending only as the
      eleventh - and those frames are the used bytes. */
  lemma ResolveIff(s: seq<byte>, ecu: u16, tester: u16, resp: seq<byte>, used: nat)
    ensures Resolve(s, ecu, tester) == Reply(resp, used)
       <==> (exists ack, rs :: IsExchange(s, ecu, tester, ack, rs)
               && rs[|rs| - 1] == resp && used == |ack.Bytes() + Answers(ecu, tester, rs)|)
  {
    hide ReadFrame, Frame.Bytes, Chain, AllPending, Deliverable, IsPending;
    if Resolve(s, ecu, tester) == Reply(resp, used) {
      var ack := ReadFrame(s).value;
      ReadFrameIff(s, ack);
      var rs := ChainSound(s[|ack.Bytes()|..], ecu, tester, MAX_PENDING_ATTEMPTS);
      assert s == ack.Bytes() + s[|ack.Bytes()|..];
      assert IsExchange(s, ecu, tester, ack, rs);
    }
    if ack, rs :| IsExchange(s, ecu, tester, ack, rs)
                  && rs[|rs| - 1] == resp && used == |ack.Bytes() + Answers(ecu, tester, rs)| {
      var tail := s[used..];
      assert s == ack.Bytes() + (Answers(ecu, tester, rs) + tail);
      ReadAckAt(ack, Answers(ecu, tester, rs) + tail);
      ChainReads(rs, tail, ecu, tester, MAX_PENDING_ATTEMPTS);
    }
  }

  /** A peer that acknowledges, sends any number of pending answers and then a
      real one: up to ten pending answers give exactly the real answer and use
      up exactly those frames; from eleven on, the eleventh pending answer is
      returned and everything behind it is left in the stream. */
  lemma PendingBound(ack: Frame, ps: seq<seq<byte>>, r: seq<byte>, tail: seq<byte>, ecu: u16, tester: u16)
    requires IsAck(ack) && AllPending(ps) && !IsPending(r) && Deliverable(ps + [r])
    ensures var s := ack.Bytes() + Answers(ecu, tester, ps + [r]) + tail;
      Resolve(s, ecu, tester)
      == if |ps| <= 10 then Reply(r, |s| - |tail|)
         else Reply(ps[10],
                    |ack.Bytes() + Answers(ecu, tester, ps[..11])|)
  {
    hide Frame.Bytes, Resolve, IsPending, Answers;
    var rs := ps + [r];
    var s := ack.Bytes() + Answers(ecu, tester, rs) + tail;
    var n := if |ps| <= MAX_PENDING_ATTEMPTS then |rs| else MAX_PENDING_ATTEMPTS + 1;
    var read := rs[..n];
    AnswersSplit(ecu, tester, rs, n);
    assert read[..n - 1] == ps[..n - 1];
    assert read == if |ps| <= MAX_PENDING_ATTEMPTS then rs else ps[..n];
    assert IsExchange(s, ecu, tester, ack, read);
    ResolveIff(s, ecu, tester, read[n - 1], |ack.Bytes() + Answers(ecu, tester, read)|);
  }

  lemma {:induction false} AnswersSplit(ecu: u16, tester: u16, rs: seq<seq<byte>>, n: nat)
    requires n <= |rs|
    ensures Answers(ecu, tester, rs) == Answers(ecu, tester, rs[..n]) + Answers(ecu, tester, rs[n..])
  {
    hide Frame.Bytes, DiagnosticFrame;
    if n == 0 {
      assert rs[n..] == rs;
    } else {
      AnswersSplit(ecu, tester, rs[1..], n - 1);
      assert rs[..n][1..] == rs[1..][..n - 1] && rs[1..][n - 1..] == rs[n..];
    }
  }

  /** With eleven pending answers or more the next request fails: where its
      acknowledgement should stand there is an old answer. */
  lemma StaleAnswersBreakTheNextExchange(ack: Frame, ps: seq<seq<byte>>, r: seq<byte>, tail: seq<byte>,
                                         ecu: u16, tester: u16)
    requires IsAck(ack) && AllPending(ps) && !IsPending(r) && Deliverable(ps + [r])
    requires |ps| > MAX_PENDING_ATTEMPTS
    ensures var s := ack.Bytes() + Answers(ecu, tester, ps + [r]);
      var first := Resolve(s, ecu, tester);
      && first.Reply?
      && Resolve(s[first.used..] + tail, ecu, tester) == Fail(MalformedFrame)
  {
    hide Frame.Bytes, Chain, ReadFrame, IsPending;
    var rs, n := ps + [r], MAX_PENDING_ATTEMPTS + 1;
    var s := ack.Bytes() + Answers(ecu, tester, rs);
    PendingBound(ack, ps, r, [], ecu, tester);
    assert s + [] == s;
    AnswersSplit(ecu, tester, rs, n);
    assert rs[..n] == ps[..n];
    var rest := Answers(ecu, tester, rs[n..]);
    assert s == ack.Bytes() + Answers(ecu, tester, ps[..n]) + rest;
    assert s[|ack.Bytes() + Answers(ecu, tester, ps[..n])|..] == rest;
    var stale := DiagnosticFrame(ecu, tester, rs[n]);
    assert rs[n..][0] == rs[n];
    assert rest + tail == stale.Bytes() + (Answers(ecu, tester, rs[n..][1..]) + tail);
    ReadAckAt(stale, Answers(ecu, tester, rs[n..][1..]) + tail);
  }
}
