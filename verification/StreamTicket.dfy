/** Single-use tickets for the event stream: minted for one (entity path, data
    id) pair, burned by the first redeem that names them, dead after 30 s.

    The functions say what each call does to the table and answers; the class
    is proved to do that. Each call is handed its clock readings in the order
    it takes them, in nanoseconds. */
module StreamTicket {
  import opened Bytes
  import opened Numerals
  import opened Sets
  import opened Wrappers

  const SECOND := 1_000_000_000
  const STREAM_TICKET_TTL_SECONDS := 30
  const MAX_OUTSTANDING_TICKETS := 64

  /** Sixteen random octets; nothing is assumed of them, not even that two
      draws differ. */
  type Raw = s: seq<byte> | |s| == 16 witness [0, 0, 0, 0, 0, 0, 0, 0, 0, 0, 0, 0, 0, 0, 0, 0]

  datatype Entry = Entry(path: string, dataId: string, expiresAt: int)

  type Tickets = map<string, Entry>

  function TicketText(raw: Raw): string {
    "tkt-" + HexText(raw, Lower)
  }

  /** Tickets collide only when the random octets do. */
  lemma TicketTextInjective(a: Raw, b: Raw)
    ensures TicketText(a) == TicketText(b) <==> a == b
  {
    if TicketText(a) == TicketText(b) {
      assert TicketText(a)[4..] == HexText(a, Lower) && TicketText(b)[4..] == HexText(b, Lower);
      HexTextInjective(a, b, Lower);
    }
  }

  /** A ticket is "tkt-" and the 32 digits of its random octets. */
  lemma TicketTextReadsBack(raw: Raw)
    ensures |TicketText(raw)| == 36 && TicketText(raw)[..4] == "tkt-"
    ensures HexOctets(TicketText(raw)[4..]) == Some(raw)
  {
    hide HexText, HexOctets;
    HexRoundTrip(raw, Lower);
    assert TicketText(raw)[4..] == HexText(raw, Lower);
  }

  function Unexpired(t: Tickets, now: int): Tickets {
    map k | k in t && now < t[k].expiresAt :: t[k]
  }

  function MintedFor(path: string, dataId: string, at: int): Entry {
    Entry(path, dataId, at + STREAM_TICKET_TTL_SECONDS * SECOND)
  }

  /** The sweep reads the clock at now, the new expiry at later; random is
      None when the generator fails. */
  function Issue(t: Tickets, path: string, dataId: string, random: Option<Raw>, now: int, later: int)
    : (Tickets, Option<string>)
  {
    var live := Unexpired(t, now);
    if |live| >= MAX_OUTSTANDING_TICKETS || random.None? then (live, None)
    else (live[TicketText(random.value) := MintedFor(path, dataId, later)], Some(TicketText(random.value)))
  }

  function Redeem(t: Tickets, ticket: string, path: string, dataId: string, now: int): (Tickets, bool) {
    (t - {ticket},
     ticket in t && now < t[ticket].expiresAt && t[ticket].path == path && t[ticket].dataId == dataId)
  }

  class StreamTicketStore {
    var tickets: Tickets

    constructor ()
      ensures tickets == map[]
    {
      tickets := map[];
    }

    method SweepExpired(now: int)
      modifies this
      ensures tickets == Unexpired(old(tickets), now)
    {
      var rest := tickets.Keys;
      while rest != {}
        invariant rest <= tickets.Keys <= old(tickets).Keys
        invariant forall k :: k in tickets ==> tickets[k] == old(tickets)[k]
        invariant forall k :: k in tickets && k !in rest ==> now < tickets[k].expiresAt
        invariant forall k :: k in old(tickets) && now < old(tickets)[k].expiresAt ==> k in tickets
        decreases rest
      {
        var k :| k in rest;
        rest := rest - {k};
        if now >= tickets[k].expiresAt {
          tickets := tickets - {k};
        }
      }
    }

    method IssueTicket(path: string, dataId: string, random: Option<Raw>, now: int, later: int)
      returns (ticket: Option<string>)
      modifies this
      ensures (tickets, ticket) == Issue(old(tickets), path, dataId, random, now, later)
    {
      SweepExpired(now);
      if |tickets| >= MAX_OUTSTANDING_TICKETS {
        return None;
      }
      if random.None? {
        return None;
      }
      var text := "tkt-" + HexText(random.value, Lower);
      var entry := Entry(path, dataId, later + STREAM_TICKET_TTL_SECONDS * SECOND);
      tickets := tickets[text := entry];
      return Some(text);
    }

    method RedeemTicket(ticket: string, path: string, dataId: string, now: int) returns (ok: bool)
      modifies this
      ensures (tickets, ok) == Redeem(old(tickets), ticket, path, dataId, now)
    {
      if ticket !in tickets {
        assert tickets - {ticket} == tickets;
        return false;
      }
      var entry := tickets[ticket];
      tickets := tickets - {ticket};
      if now >= entry.expiresAt {
        return false;
      }
      return entry.path == path && entry.dataId == dataId;
    }
  }

  // --- Whole runs ---

  datatype Op =
    | IssueOp(path: string, dataId: string, random: Option<Raw>)
    | RedeemOp(ticket: string, path: string, dataId: string)

  /** A call, with the times of its first and its last clock reading. */
  datatype Call = Call(op: Op, now: int, later: int)

  datatype Answer = Minted(ticket: Option<string>) | Redeemed(ok: bool)

  function Step(t: Tickets, c: Call): (Tickets, Answer) {
    match c.op
    case IssueOp(path, dataId, random) =>
      var (u, ticket) := Issue(t, path, dataId, random, c.now, c.later);
      (u, Minted(ticket))
    case RedeemOp(ticket, path, dataId) =>
      var (u, ok) := Redeem(t, ticket, path, dataId, c.now);
      (u, Redeemed(ok))
  }

  function After(calls: seq<Call>): Tickets
    decreases |calls|
  {
    if calls == [] then map[] else Step(After(calls[..|calls| - 1]), calls[|calls| - 1]).0
  }

  function AnswerTo(calls: seq<Call>, i: nat): Answer
    requires i < |calls|
  {
    Step(After(calls[..i]), calls[i]).1
  }

  predicate Mints(calls: seq<Call>, i: nat, ticket: string) {
    i < |calls| && AnswerTo(calls, i) == Minted(Some(ticket))
  }

  predicate Redeems(calls: seq<Call>, i: nat, ticket: string) {
    i < |calls| && calls[i].op.RedeemOp? && calls[i].op.ticket == ticket && AnswerTo(calls, i) == Redeemed(true)
  }

  /** The call mints the ticket, or tries to redeem it for whatever pair. */
  predicate Touches(calls: seq<Call>, i: nat, ticket: string) {
    i < |calls| && (Mints(calls, i, ticket) || (calls[i].op.RedeemOp? && calls[i].op.ticket == ticket))
  }

  /** The clock does not go back: within a call, or from one to the next. */
  ghost predicate ClockRuns(calls: seq<Call>) {
    && (forall i :: 0 <= i < |calls| ==> calls[i].now <= calls[i].later)
    && (forall i, j :: 0 <= i < j < |calls| ==> calls[i].later <= calls[j].now)
  }

  /** Never more than 64 tickets, expired ones included. */
  lemma {:induction false} OutstandingIsBounded(calls: seq<Call>)
    ensures |After(calls)| <= 64
  {
    hide TicketText;
    if calls != [] {
      var before, c := After(calls[..|calls| - 1]), calls[|calls| - 1];
      OutstandingIsBounded(calls[..|calls| - 1]);
      match c.op
      case IssueOp(path, dataId, random) =>
        FewerKeys(Unexpired(before, c.now), before);
      case RedeemOp(ticket, path, dataId) =>
        FewerKeys(before - {ticket}, before);
    }
  }

  lemma FewerKeys(t: Tickets, u: Tickets)
    requires t.Keys <= u.Keys
    ensures |t| <= |u|
  {
    SubsetIsNoLarger(t.Keys, u.Keys);
    assert |t| == |t.Keys| && |u| == |u.Keys|;
  }

  /** The calls that mint the ticket, and those that redeem it. */
  function MintsOf(calls: seq<Call>, ticket: string): set<nat> {
    set i: nat | i < |calls| && Mints(calls, i, ticket)
  }

  function RedeemsOf(calls: seq<Call>, ticket: string): set<nat> {
    set i: nat | i < |calls| && Redeems(calls, i, ticket)
  }

  lemma LastCallOf(calls: seq<Call>, ticket: string)
    requires calls != []
    ensures var prefix, last := calls[..|calls| - 1], |calls| - 1;
      && |MintsOf(calls, ticket)| == |MintsOf(prefix, ticket)| + (if Mints(calls, last, ticket) then 1 else 0)
      && |RedeemsOf(calls, ticket)| == |RedeemsOf(prefix, ticket)| + (if Redeems(calls, last, ticket) then 1 else 0)
  {
    hide AnswerTo;
    AnswersStay(calls);
    var prefix, last := calls[..|calls| - 1], |calls| - 1;
    WithTheLast(MintsOf(calls, ticket), MintsOf(prefix, ticket), last);
    WithTheLast(RedeemsOf(calls, ticket), RedeemsOf(prefix, ticket), last);
  }

  /** What a call was answered does not depend on later ones. */
  lemma AnswersStay(calls: seq<Call>)
    requires calls != []
    ensures forall i: nat :: i < |calls| - 1 ==> AnswerTo(calls[..|calls| - 1], i) == AnswerTo(calls, i)
  {
    hide Step, After;
    var prefix := calls[..|calls| - 1];
    assert forall i: nat | i < |prefix| :: prefix[..i] == calls[..i];
  }

  lemma WithTheLast(all: set<nat>, before: set<nat>, last: nat)
    requires last !in before && forall i: nat :: i != last ==> (i in all <==> i in before)
    ensures |all| == |before| + (if last in all then 1 else 0)
  {
    assert all == if last in all then before + {last} else before;
  }

  lemma NoCalls(ticket: string)
    ensures MintsOf([], ticket) == RedeemsOf([], ticket) == AllMints([]) == AllRedeems([]) == {}
  {
  }

  /** No ticket is redeemed more often than it was minted, even when the
      random octets repeat; one still outstanding has a redeem in hand. */
  lemma {:induction false} RedeemsNeverExceedMints(calls: seq<Call>, ticket: string)
    ensures |RedeemsOf(calls, ticket)| + (if ticket in After(calls) then 1 else 0) <= |MintsOf(calls, ticket)|
  {
    hide TicketText, Unexpired, MintsOf, RedeemsOf;
    NoCalls(ticket);
    if calls != [] {
      var before, c := After(calls[..|calls| - 1]), calls[|calls| - 1];
      RedeemsNeverExceedMints(calls[..|calls| - 1], ticket);
      LastCallOf(calls, ticket);
      assert Unexpired(before, c.now).Keys <= before.Keys by {
        UnexpiredKeys(before, c.now);
      }
    }
  }

  /** The calls that mint any ticket, and those that redeem one. */
  function AllMints(calls: seq<Call>): set<nat> {
    set i: nat | i < |calls| && AnswerTo(calls, i).Minted? && AnswerTo(calls, i).ticket.Some?
  }

  function AllRedeems(calls: seq<Call>): set<nat> {
    set i: nat | i < |calls| && AnswerTo(calls, i) == Redeemed(true)
  }

  lemma LastOfAll(calls: seq<Call>)
    requires calls != []
    ensures var prefix, answer := calls[..|calls| - 1], AnswerTo(calls, |calls| - 1);
      && |AllMints(calls)| == |AllMints(prefix)| + (if answer.Minted? && answer.ticket.Some? then 1 else 0)
      && |AllRedeems(calls)| == |AllRedeems(prefix)| + (if answer == Redeemed(true) then 1 else 0)
  {
    hide AnswerTo;
    AnswersStay(calls);
    var prefix, last := calls[..|calls| - 1], |calls| - 1;
    WithTheLast(AllMints(calls), AllMints(prefix), last);
    WithTheLast(AllRedeems(calls), AllRedeems(prefix), last);
  }

  /** Over the whole store: redeems and outstanding tickets are paid for by
      mints. A collision loses a ticket, it never makes one. */
  lemma {:induction false} RedeemsAndOutstandingNeverExceedMints(calls: seq<Call>)
    ensures |AllRedeems(calls)| + |After(calls)| <= |AllMints(calls)|
  {
    hide TicketText, AllMints, AllRedeems;
    NoCalls("");
    if calls != [] {
      var before, c := After(calls[..|calls| - 1]), calls[|calls| - 1];
      RedeemsAndOutstandingNeverExceedMints(calls[..|calls| - 1]);
      LastOfAll(calls);
      match c.op
      case IssueOp(path, dataId, random) =>
        FewerKeys(Unexpired(before, c.now), before);
      case RedeemOp(ticket, path, dataId) =>
        if ticket in before {
          assert (before - {ticket}).Keys == before.Keys - {ticket};
          assert |before - {ticket}| == |(before - {ticket}).Keys| && |before| == |before.Keys|;
        } else {
          assert before - {ticket} == before;
        }
    }
  }

  lemma UnexpiredKeys(t: Tickets, now: int)
    ensures Unexpired(t, now).Keys <= t.Keys
  {
  }

  /** Call j minted the ticket, it has not expired, and nothing has touched it
      since. */
  ghost predicate LiveSince(calls: seq<Call>, j: nat, ticket: string, now: int) {
    && Mints(calls, j, ticket)
    && now < calls[j].later + 30_000_000_000
    && forall m :: j < m < |calls| ==> !Touches(calls, m, ticket)
  }

  lemma LiveSincePrefix(calls: seq<Call>, j: nat, ticket: string, now: int)
    requires j < |calls| - 1
    ensures LiveSince(calls, j, ticket, now)
      <==> LiveSince(calls[..|calls| - 1], j, ticket, now) && !Touches(calls, |calls| - 1, ticket)
  {
    hide Step, After;
    var prefix := calls[..|calls| - 1];
    forall m: nat | m < |prefix|
      ensures Mints(prefix, m, ticket) == Mints(calls, m, ticket)
      ensures Touches(prefix, m, ticket) == Touches(calls, m, ticket)
    {
      assert prefix[..m] == calls[..m];
    }
  }

  /** What the last call leaves of a ticket that a later time would accept. */
  lemma LastCall(calls: seq<Call>, ticket: string, now: int)
    requires calls != [] && calls[|calls| - 1].now <= now
    ensures Mints(calls, |calls| - 1, ticket) ==>
      var c := calls[|calls| - 1];
      ticket in After(calls) && After(calls)[ticket] == MintedFor(c.op.path, c.op.dataId, c.later)
    ensures Touches(calls, |calls| - 1, ticket) && !Mints(calls, |calls| - 1, ticket) ==> ticket !in After(calls)
    ensures !Touches(calls, |calls| - 1, ticket) ==>
      var before := Unexpired(After(calls[..|calls| - 1]), now);
      (ticket in Unexpired(After(calls), now) <==> ticket in before)
      && (ticket in before ==> After(calls)[ticket] == before[ticket])
  {
  }

  /** What the table holds unexpired is what the history says: the entry of
      the last mint, unless touched or outlived since. Sweeping shows nowhere. */
  lemma {:induction false} TableIsHistory(calls: seq<Call>, ticket: string, now: int)
    requires ClockRuns(calls)
    requires forall i :: 0 <= i < |calls| ==> calls[i].later <= now
    ensures ticket in Unexpired(After(calls), now) <==> exists j: nat :: LiveSince(calls, j, ticket, now)
    ensures forall j: nat :: LiveSince(calls, j, ticket, now) ==>
      ticket in After(calls)
      && After(calls)[ticket] == MintedFor(calls[j].op.path, calls[j].op.dataId, calls[j].later)
  {
    hide TicketText, Step, After, AnswerTo;
    if calls == [] {
      assert After(calls) == map[] by { EmptyRun(); }
    } else {
      var prefix, last := calls[..|calls| - 1], |calls| - 1;
      TableIsHistory(prefix, ticket, now);
      LastCall(calls, ticket, now);
      forall j: nat | LiveSince(calls, j, ticket, now)
        ensures ticket in Unexpired(After(calls), now)
        ensures After(calls)[ticket] == MintedFor(calls[j].op.path, calls[j].op.dataId, calls[j].later)
      {
        if j < last {
          LiveSincePrefix(calls, j, ticket, now);
        }
      }
      if ticket in Unexpired(After(calls), now) {
        if Touches(calls, last, ticket) {
          assert LiveSince(calls, last, ticket, now);
        } else {
          var j: nat :| LiveSince(prefix, j, ticket, now);
          LiveSincePrefix(calls, j, ticket, now);
        }
      }
    }
  }

  lemma EmptyRun()
    ensures After([]) == map[]
  {
  }

  /** A redeem succeeds exactly when an earlier call minted the ticket for the
      very pair it names, less than 30 s ago, and nothing has touched the
      ticket in between: neither a redeem, failed or not, nor a second mint. */
  lemma RedeemIff(calls: seq<Call>, i: nat)
    requires ClockRuns(calls) && i < |calls| && calls[i].op.RedeemOp?
    ensures AnswerTo(calls, i) == Redeemed(true) <==>
      exists j: nat :: (
        && LiveSince(calls[..i], j, calls[i].op.ticket, calls[i].now)
        && calls[j].op.path == calls[i].op.path
        && calls[j].op.dataId == calls[i].op.dataId)
  {
    hide TicketText, After, Touches;
    var op, now := calls[i].op, calls[i].now;
    TableIsHistory(calls[..i], op.ticket, now);
    hide LiveSince;
    forall j: nat | LiveSince(calls[..i], j, op.ticket, now)
      ensures j < i && calls[..i][j] == calls[j]
    {
      LiveSinceIsEarlier(calls[..i], j, op.ticket, now);
    }
  }

  lemma LiveSinceIsEarlier(calls: seq<Call>, j: nat, ticket: string, now: int)
    requires LiveSince(calls, j, ticket, now)
    ensures j < |calls|
  {
  }

  /** A mint is refused exactly when 64 tickets are live by the history,
      whatever the table has not swept, or when there are no random octets;
      otherwise it answers with the ticket of its octets. */
  lemma RefusedIffFull(calls: seq<Call>, i: nat, live: set<string>)
    requires ClockRuns(calls) && i < |calls| && calls[i].op.IssueOp?
    requires forall k :: k in live <==> exists j: nat :: LiveSince(calls[..i], j, k, calls[i].now)
    ensures |live| <= 64
    ensures AnswerTo(calls, i)
         == Minted(if |live| == 64 || calls[i].op.random.None? then None
                   else Some(TicketText(calls[i].op.random.value)))
  {
    hide TicketText, After, Touches, LiveSince;
    var held := Unexpired(After(calls[..i]), calls[i].now);
    forall k
      ensures k in live <==> k in held
    {
      TableIsHistory(calls[..i], k, calls[i].now);
    }
    assert held.Keys == live;
    assert |held| == |held.Keys|;
    OutstandingIsBounded(calls[..i]);
    UnexpiredKeys(After(calls[..i]), calls[i].now);
    FewerKeys(held, After(calls[..i]));
  }
}
