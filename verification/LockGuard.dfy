/** The client's lock guard: acquires on construction, renews from a heartbeat
    thread every half time to live, releases on destruction - while any other
    client calls the same server.

    The guard's requests are trips: sent, served (the server's expiry check),
    stamped (the server's new expiry), returned. */
module LockGuard {
  import opened LockManager
  import opened LockRefinement
  import opened Wrappers

  const MILLISECOND := 1_000_000

  /** How long the store lets a lock of this time to live stand. */
  function Lifetime(ttlSeconds: int): int {
    ExpiryOf(0, ttlSeconds)
  }

  /** What the heartbeat waits between a reply and the next renewal. */
  function Interval(ttlSeconds: int): int {
    (if ttlSeconds * 500 < 100 then 100 else ttlSeconds * 500) * MILLISECOND
  }

  /** Half the time to live, but a tenth of a second at least. */
  lemma IntervalIs(ttlSeconds: int)
    ensures ttlSeconds >= 1 ==> Interval(ttlSeconds) == ttlSeconds * 500_000_000
    ensures ttlSeconds <= 0 ==> Interval(ttlSeconds) == 100_000_000
  {
  }

  /** A call the server runs: a renewal by the guard, or another client's. */
  datatype Event = Ours(served: int, stamped: int) | Theirs(call: Call)

  function CallOf(e: Event, path: string, id: string, ttl: int): Call {
    match e
    case Ours(served, stamped) => Call(RenewOp(path, id, ttl), served, stamped)
    case Theirs(call) => call
  }

  function CallsOf(events: seq<Event>, path: string, id: string, ttl: int): (calls: seq<Call>)
    ensures |calls| == |events|
    ensures forall i :: 0 <= i < |events| ==> calls[i] == CallOf(events[i], path, id, ttl)
  {
    if events == [] then [] else [CallOf(events[0], path, id, ttl)] + CallsOf(events[1..], path, id, ttl)
  }

  /** Another client never uses the guard's id. */
  predicate Foreign(call: Call, id: string) {
    match call.op
    case ReleaseOp(_, other) => other != id
    case RenewOp(_, other, _) => other != id
    case _ => true
  }

  predicate AllForeign(events: seq<Event>, id: string) {
    forall i :: 0 <= i < |events| && events[i].Theirs? ==> Foreign(events[i].call, id)
  }

  /** Each renewal is served before the expiry the one before it set. */
  predicate InTime(expiry: int, events: seq<Event>, ttl: int)
    decreases |events|
  {
    events == [] ||
    match events[0]
    case Ours(served, stamped) => served < expiry && InTime(ExpiryOf(stamped, ttl), events[1..], ttl)
    case Theirs(_) => InTime(expiry, events[1..], ttl)
  }

  function ExpiryAfter(expiry: int, events: seq<Event>, ttl: int): int
    decreases |events|
  {
    if events == [] then expiry
    else match events[0]
      case Ours(_, stamped) => ExpiryAfter(ExpiryOf(stamped, ttl), events[1..], ttl)
      case Theirs(_) => ExpiryAfter(expiry, events[1..], ttl)
  }

  /** The guard's id holds the entity until expiry; no id at or past the
      server's counter is in use. */
  predicate Holds(s: LockTable, path: string, id: string, expiry: int) {
    path in s.locks && s.locks[path] == LockEntry(id, expiry)
  }

  /** The id was granted before. */
  ghost predicate Granted(s: LockTable, id: string) {
    forall n :: n >= s.nextId ==> id != LockId(n)
  }

  /** The answer exclusion demands of a call on the guarded entity. */
  predicate Excluded(call: Call, path: string, id: string, a: Answer) {
    match call.op
    case AcquireOp(p, _) => p == path ==> a == Grant(None)
    case ReleaseOp(p, _) => p == path ==> a == ReleaseAnswer(ReleaseWrongId)
    case RenewOp(p, _, _) => p == path ==> a == RenewAnswer(RenewWrongId)
    case CheckOp(p, other) => p == path ==> a == Flag(other == id)
    case IsLockedOp(p) => p == path ==> a == Flag(true)
    case CountOp(_) => true
  }

  /** A successful acquire is where a guard's lifetime begins. */
  lemma AcquireBeginsTheHold(s: LockTable, path: string, ttl: int, served: int, stamped: int)
    requires !LockedUnexpired(s, path, served)
    ensures var (t, id) := Acquire(s, path, ttl, served, stamped);
      id.Some? && Holds(t, path, id.value, ExpiryOf(stamped, ttl)) && Granted(t, id.value)
  {
    hide LockId;
    forall n | n >= s.nextId + 1
      ensures LockId(s.nextId) != LockId(n)
    {
      LockIdInjective(s.nextId, n);
    }
  }

  lemma ForeignCallKeepsTheLock(s: LockTable, call: Call, path: string, id: string, expiry: int)
    requires Holds(s, path, id, expiry) && Granted(s, id) && Foreign(call, id)
    requires call.now < expiry
    ensures Holds(Lazy(s, call).0, path, id, expiry) && Granted(Lazy(s, call).0, id)
    ensures Excluded(call, path, id, Lazy(s, call).1)
  {
  }

  lemma RenewalKeepsTheLock(s: LockTable, path: string, id: string, expiry: int, ttl: int, e: Event)
    requires Holds(s, path, id, expiry) && Granted(s, id)
    requires e.Ours? && e.served < expiry
    ensures var (t, a) := Lazy(s, CallOf(e, path, id, ttl));
      Holds(t, path, id, ExpiryOf(e.stamped, ttl)) && Granted(t, id) && a == RenewAnswer(Renewed)
  {
  }

  /** What the guard's owner is promised of a call: its own renewals succeed,
      the calls of others are turned away. */
  predicate Guarded(e: Event, path: string, id: string, a: Answer) {
    match e
    case Ours(_, _) => a == RenewAnswer(Renewed)
    case Theirs(call) => Excluded(call, path, id, a)
  }

  predicate AllGuarded(events: seq<Event>, path: string, id: string, answers: seq<Answer>)
    requires |answers| == |events|
  {
    forall i :: 0 <= i < |events| ==> Guarded(events[i], path, id, answers[i])
  }

  /** A run of calls taken apart at its first event. */
  lemma RunFirst(s: LockTable, events: seq<Event>, path: string, id: string, ttl: int)
    requires events != []
    ensures var (t, a) := Lazy(s, CallOf(events[0], path, id, ttl));
      var (u, answers) := RunLazy(t, CallsOf(events[1..], path, id, ttl));
      RunLazy(s, CallsOf(events, path, id, ttl)) == (u, [a] + answers)
  {
    hide Lazy;
    assert CallsOf(events, path, id, ttl)[1..] == CallsOf(events[1..], path, id, ttl);
  }

  /** A call is made while the lock stands: the next renewal, or else the end,
      comes before the expiry, and the clock does not go back. */
  lemma {:induction false} BeforeExpiry(expiry: int, events: seq<Event>, path: string, id: string, ttl: int,
                                        from: int, end: int)
    requires InTime(expiry, events, ttl) && ClockRuns(from, CallsOf(events, path, id, ttl))
    requires end < ExpiryAfter(expiry, events, ttl)
    requires (if events == [] then from else CallOf(events[|events| - 1], path, id, ttl).later) <= end
    ensures from < expiry
    decreases |events|
  {
    if events != [] && events[0].Theirs? {
      var call := events[0].call;
      assert CallsOf(events, path, id, ttl)[1..] == CallsOf(events[1..], path, id, ttl);
      BeforeExpiry(expiry, events[1..], path, id, ttl, call.later, end);
    }
  }

  /** The guard keeps exclusion for its whole lifetime: if every renewal, and
      the end of the guard, comes before the expiry set by the one before,
      then whatever the other clients do, every renewal succeeds, every call
      of theirs on the entity is turned away, and the lock stands at the end. */
  lemma {:induction false} GuardExcludes(s: LockTable, events: seq<Event>, path: string, id: string, expiry: int,
                                         ttl: int, from: int, end: int)
    requires Holds(s, path, id, expiry) && Granted(s, id)
    requires AllForeign(events, id) && ClockRuns(from, CallsOf(events, path, id, ttl))
    requires InTime(expiry, events, ttl) && end < ExpiryAfter(expiry, events, ttl)
    requires (if events == [] then from else CallOf(events[|events| - 1], path, id, ttl).later) <= end
    ensures var (t, answers) := RunLazy(s, CallsOf(events, path, id, ttl));
      && |answers| == |events|
      && LockedUnexpired(t, path, end) && t.locks[path].id == id
      && AllGuarded(events, path, id, answers)
    decreases |events|
  {
    hide Lazy, Excluded, Foreign, RunLazy, ExpiryOf;
    if events == [] {
      EmptyRun(s);
    } else {
      RunFirst(s, events, path, id, ttl);
      assert CallsOf(events, path, id, ttl)[1..] == CallsOf(events[1..], path, id, ttl);
      var t := Lazy(s, CallOf(events[0], path, id, ttl)).0;
      match events[0] {
        case Ours(served, stamped) =>
          RenewalKeepsTheLock(s, path, id, expiry, ttl, events[0]);
          GuardExcludes(t, events[1..], path, id, ExpiryOf(stamped, ttl), ttl, stamped, end);
        case Theirs(call) =>
          BeforeExpiry(expiry, events[1..], path, id, ttl, call.later, end);
          assert Foreign(events[0].call, id);
          ForeignCallKeepsTheLock(s, call, path, id, expiry);
          GuardExcludes(t, events[1..], path, id, expiry, ttl, call.later, end);
      }
    }
  }

  lemma EmptyRun(s: LockTable)
    ensures RunLazy(s, []) == (s, [])
  {
  }

  // --- Exactly then ---

  /** The entry with the guard's id, if there still is one, expires then. */
  ghost predicate HoldsOrLost(s: LockTable, path: string, id: string, expiry: int) {
    Granted(s, id) && (path in s.locks && s.locks[path].id == id ==> s.locks[path].expiresAt == expiry)
  }

  predicate AllRenewed(events: seq<Event>, answers: seq<Answer>)
    requires |answers| == |events|
  {
    forall i :: 0 <= i < |events| && events[i].Ours? ==> answers[i] == RenewAnswer(Renewed)
  }

  lemma ForeignCallNeverExtends(s: LockTable, call: Call, path: string, id: string, expiry: int)
    requires HoldsOrLost(s, path, id, expiry) && Foreign(call, id)
    ensures HoldsOrLost(Lazy(s, call).0, path, id, expiry)
  {
  }

  lemma AnsweredRenewedMeansInTime(s: LockTable, path: string, id: string, expiry: int, ttl: int, e: Event)
    requires HoldsOrLost(s, path, id, expiry) && e.Ours?
    requires Lazy(s, CallOf(e, path, id, ttl)).1 == RenewAnswer(Renewed)
    ensures e.served < expiry && HoldsOrLost(Lazy(s, CallOf(e, path, id, ttl)).0, path, id, ExpiryOf(e.stamped, ttl))
  {
  }

  lemma {:induction false} RenewedMeansInTime(s: LockTable, events: seq<Event>, path: string, id: string, expiry: int,
                                              ttl: int)
    requires HoldsOrLost(s, path, id, expiry) && AllForeign(events, id)
    requires var answers := RunLazy(s, CallsOf(events, path, id, ttl)).1;
      |answers| == |events| && AllRenewed(events, answers)
    ensures InTime(expiry, events, ttl)
    decreases |events|
  {
    hide Lazy, HoldsOrLost, Foreign;
    if events != [] {
      var calls := CallsOf(events, path, id, ttl);
      assert calls[1..] == CallsOf(events[1..], path, id, ttl);
      var (t, a) := Lazy(s, calls[0]);
      var answers := RunLazy(s, calls).1;
      assert answers[0] == a && answers[1..] == RunLazy(t, calls[1..]).1;
      match events[0] {
        case Ours(served, stamped) =>
          AnsweredRenewedMeansInTime(s, path, id, expiry, ttl, events[0]);
          RenewedMeansInTime(t, events[1..], path, id, ExpiryOf(stamped, ttl), ttl);
        case Theirs(call) =>
          assert Foreign(events[0].call, id);
          ForeignCallNeverExtends(s, call, path, id, expiry);
          RenewedMeansInTime(t, events[1..], path, id, expiry, ttl);
      }
    }
  }

  // --- Trips ---

  datatype Trip = Trip(sent: int, served: int, stamped: int, returned: int)

  predicate GoodTrip(t: Trip) {
    t.sent <= t.served <= t.stamped <= t.returned
  }

  /** The guard's trips: the acquire, then a renewal an interval after each reply. */
  predicate Heartbeat(trips: seq<Trip>, ttl: int) {
    && trips != []
    && (forall i :: 0 <= i < |trips| ==> GoodTrip(trips[i]))
    && (forall i :: 0 <= i < |trips| - 1 ==> trips[i + 1].sent == trips[i].returned + Interval(ttl))
  }

  function RenewalEvents(trips: seq<Trip>): seq<Event> {
    if trips == [] then [] else [Ours(trips[0].served, trips[0].stamped)] + RenewalEvents(trips[1..])
  }

  /** The guard's own events, in order, among all. */
  function OwnEvents(events: seq<Event>): seq<Event> {
    if events == [] then []
    else (if events[0].Ours? then [events[0]] else []) + OwnEvents(events[1..])
  }

  lemma {:induction false} OnlyOwnEventsMatter(expiry: int, events: seq<Event>, ttl: int)
    ensures InTime(expiry, events, ttl) <==> InTime(expiry, OwnEvents(events), ttl)
    decreases |events|
  {
    if events != [] {
      match events[0]
      case Ours(served, stamped) =>
        OnlyOwnEventsMatter(ExpiryOf(stamped, ttl), events[1..], ttl);
        assert OwnEvents(events)[1..] == OwnEvents(events[1..]);
      case Theirs(_) =>
        OnlyOwnEventsMatter(expiry, events[1..], ttl);
        assert OwnEvents(events) == OwnEvents(events[1..]);
    }
  }

  /** From the server's stamp to its reply's arrival, and from the next
      request's departure to its service. */
  predicate LagsFit(trips: seq<Trip>, ttl: int) {
    forall i :: 0 <= i < |trips| - 1 ==>
      (trips[i].returned - trips[i].stamped) + (trips[i + 1].served - trips[i + 1].sent) < Lifetime(ttl) - Interval(ttl)
  }

  lemma {:induction false} InTimeIffLagsFit(trips: seq<Trip>, ttl: int)
    requires Heartbeat(trips, ttl)
    ensures InTime(ExpiryOf(trips[0].stamped, ttl), RenewalEvents(trips[1..]), ttl) <==> LagsFit(trips, ttl)
    decreases |trips|
  {
    if |trips| > 1 {
      var rest := trips[1..];
      assert Heartbeat(rest, ttl);
      InTimeIffLagsFit(rest, ttl);
      assert RenewalEvents(rest)[1..] == RenewalEvents(rest[1..]);
      assert RenewalEvents(rest)[0] == Ours(trips[1].served, trips[1].stamped);
      assert LagsFit(trips, ttl) <==>
        (trips[1].served < ExpiryOf(trips[0].stamped, ttl)) && LagsFit(rest, ttl);
    } else {
      assert trips[1..] == [];
    }
  }

  lemma {:induction false} BeforeNextRenewal(expiry: int, events: seq<Event>, path: string, id: string, ttl: int,
                                             from: int)
    requires InTime(expiry, events, ttl) && OwnEvents(events) != [] && ClockRuns(from, CallsOf(events, path, id, ttl))
    ensures from < expiry
    decreases |events|
  {
    if events[0].Theirs? {
      assert CallsOf(events, path, id, ttl)[1..] == CallsOf(events[1..], path, id, ttl);
      BeforeNextRenewal(expiry, events[1..], path, id, ttl, events[0].call.later);
    }
  }

  lemma {:induction false} NoneOwned(events: seq<Event>)
    requires OwnEvents(events) == []
    ensures forall i :: 0 <= i < |events| ==> events[i].Theirs?
  {
    if events != [] {
      assert OwnEvents(events) == OwnEvents(events[1..]);
      NoneOwned(events[1..]);
    }
  }

  lemma {:induction false} InTimeMeansRenewed(s: LockTable, events: seq<Event>, path: string, id: string, expiry: int,
                                              ttl: int, from: int)
    requires Holds(s, path, id, expiry) && Granted(s, id)
    requires AllForeign(events, id) && ClockRuns(from, CallsOf(events, path, id, ttl)) && InTime(expiry, events, ttl)
    ensures var answers := RunLazy(s, CallsOf(events, path, id, ttl)).1;
      |answers| == |events| && AllRenewed(events, answers)
    decreases |events|
  {
    hide Lazy, Foreign, OwnEvents, RunLazy, ExpiryOf;
    OneAnswerEach(s, CallsOf(events, path, id, ttl));
    if OwnEvents(events) == [] {
      NoneOwned(events);
    } else if events != [] {
      RunFirst(s, events, path, id, ttl);
      assert CallsOf(events, path, id, ttl)[1..] == CallsOf(events[1..], path, id, ttl);
      var t := Lazy(s, CallOf(events[0], path, id, ttl)).0;
      match events[0] {
        case Ours(served, stamped) =>
          RenewalKeepsTheLock(s, path, id, expiry, ttl, events[0]);
          InTimeMeansRenewed(t, events[1..], path, id, ExpiryOf(stamped, ttl), ttl, stamped);
        case Theirs(call) =>
          BeforeNextRenewal(expiry, events, path, id, ttl, call.now);
          assert Foreign(events[0].call, id);
          ForeignCallKeepsTheLock(s, call, path, id, expiry);
          InTimeMeansRenewed(t, events[1..], path, id, expiry, ttl, call.later);
      }
    }
  }

  /** All renewals of a guard succeed exactly when, between any two of its
      trips, the lag of the reply and the lag of the next request add up to
      less than the interval leaves of the lock's lifetime - whatever the
      other clients do, and whenever. */
  lemma GuardNeverLapsesIff(s: LockTable, events: seq<Event>, path: string, id: string, ttl: int, trips: seq<Trip>)
    requires Heartbeat(trips, ttl)
    requires Holds(s, path, id, ExpiryOf(trips[0].stamped, ttl)) && Granted(s, id)
    requires AllForeign(events, id) && OwnEvents(events) == RenewalEvents(trips[1..])
    requires ClockRuns(trips[0].stamped, CallsOf(events, path, id, ttl))
    ensures |RunLazy(s, CallsOf(events, path, id, ttl)).1| == |events|
    ensures AllRenewed(events, RunLazy(s, CallsOf(events, path, id, ttl)).1) <==> LagsFit(trips, ttl)
  {
    var expiry := ExpiryOf(trips[0].stamped, ttl);
    hide LagsFit, Heartbeat, Granted, Lazy;
    OnlyOwnEventsMatter(expiry, events, ttl);
    InTimeIffLagsFit(trips, ttl);
    OneAnswerEach(s, CallsOf(events, path, id, ttl));
    if LagsFit(trips, ttl) {
      InTimeMeansRenewed(s, events, path, id, expiry, ttl, trips[0].stamped);
    }
    if AllRenewed(events, RunLazy(s, CallsOf(events, path, id, ttl)).1) {
      assert HoldsOrLost(s, path, id, expiry);
      RenewedMeansInTime(s, events, path, id, expiry, ttl);
    }
  }

  // --- The whole lifetime ---

  lemma {:induction false} OwnEventsSetTheExpiry(expiry: int, events: seq<Event>, ttl: int)
    ensures ExpiryAfter(expiry, events, ttl) == ExpiryAfter(expiry, OwnEvents(events), ttl)
    decreases |events|
  {
    if events != [] {
      match events[0]
      case Ours(_, stamped) =>
        OwnEventsSetTheExpiry(ExpiryOf(stamped, ttl), events[1..], ttl);
        assert OwnEvents(events)[1..] == OwnEvents(events[1..]);
      case Theirs(_) =>
        OwnEventsSetTheExpiry(expiry, events[1..], ttl);
        assert OwnEvents(events) == OwnEvents(events[1..]);
    }
  }

  lemma {:induction false} LastTripSetsTheExpiry(trips: seq<Trip>, ttl: int)
    requires trips != []
    ensures ExpiryAfter(ExpiryOf(trips[0].stamped, ttl), RenewalEvents(trips[1..]), ttl)
         == ExpiryOf(trips[|trips| - 1].stamped, ttl)
    decreases |trips|
  {
    if |trips| > 1 {
      var rest := trips[1..];
      LastTripSetsTheExpiry(rest, ttl);
      assert RenewalEvents(rest)[1..] == RenewalEvents(rest[1..]);
      assert RenewalEvents(rest)[0] == Ours(rest[0].served, rest[0].stamped);
    } else {
      assert trips[1..] == [];
    }
  }

  /** The guard is destroyed after its last reply. */
  predicate ReleasedAfter(trips: seq<Trip>, release: Trip)
    requires trips != []
  {
    GoodTrip(release) && trips[|trips| - 1].returned <= release.sent
  }

  /** Exclusion for the guard's whole lifetime: if the lags of its trips fit and
      the release is served before the last expiry, then from the acquire to
      the release, whatever the other clients do and whenever, no call of
      theirs on the entity gets through, every renewal succeeds, and the lock
      that the destructor releases is still the guard's own. */
  lemma GuardKeepsExclusion(s: LockTable, events: seq<Event>, path: string, id: string, ttl: int, trips: seq<Trip>,
                            release: Trip)
    requires Heartbeat(trips, ttl) && LagsFit(trips, ttl)
    requires ReleasedAfter(trips, release) && release.served < ExpiryOf(trips[|trips| - 1].stamped, ttl)
    requires Holds(s, path, id, ExpiryOf(trips[0].stamped, ttl)) && Granted(s, id)
    requires AllForeign(events, id) && OwnEvents(events) == RenewalEvents(trips[1..])
    requires ClockRuns(trips[0].stamped, CallsOf(events, path, id, ttl))
    requires (if events == [] then trips[0].stamped else CallOf(events[|events| - 1], path, id, ttl).later)
          <= release.served
    ensures var (t, answers) := RunLazy(s, CallsOf(events, path, id, ttl));
      && |answers| == |events|
      && AllGuarded(events, path, id, answers)
      && Release(t, path, id, release.served).1 == Released
  {
    var expiry := ExpiryOf(trips[0].stamped, ttl);
    hide LagsFit, Heartbeat, Granted, Lazy, Excluded, Foreign, ExpiryOf;
    OnlyOwnEventsMatter(expiry, events, ttl);
    InTimeIffLagsFit(trips, ttl);
    OwnEventsSetTheExpiry(expiry, events, ttl);
    LastTripSetsTheExpiry(trips, ttl);
    GuardExcludes(s, events, path, id, expiry, ttl, trips[0].stamped, release.served);
  }

  /** A release sent during the wait after the last reply, when the next
      renewal would have been sent at the latest, is served in time if its lag
      fits like a renewal's. */
  lemma PromptReleaseIsInTime(trips: seq<Trip>, release: Trip, ttl: int)
    requires trips != [] && ReleasedAfter(trips, release) && LagsFit(trips + [release], ttl)
    requires release.sent <= trips[|trips| - 1].returned + Interval(ttl)
    ensures LagsFit(trips, ttl) && release.served < ExpiryOf(trips[|trips| - 1].stamped, ttl)
  {
    var all := trips + [release];
    assert forall i | 0 <= i < |trips| :: all[i] == trips[i];
    assert all[|trips|] == release;
    assert (all[|trips| - 1].returned - all[|trips| - 1].stamped) + (all[|trips|].served - all[|trips|].sent)
        < Lifetime(ttl) - Interval(ttl);
  }

  lemma {:induction false} OneAnswerEach(s: LockTable, calls: seq<Call>)
    ensures |RunLazy(s, calls).1| == |calls|
    decreases |calls|
  {
    if calls != [] {
      OneAnswerEach(Lazy(s, calls[0]).0, calls[1..]);
    }
  }

  /** Past two hours no guard survives its first renewal: it waits half the time
      to live it asked for, and the store clamps that to one hour. */
  lemma LongTtlNeverFits(trips: seq<Trip>, ttl: int)
    requires Heartbeat(trips, ttl) && |trips| > 1 && ttl >= 2 * MAX_LOCK_TTL_SECONDS
    ensures !LagsFit(trips, ttl)
  {
    assert GoodTrip(trips[0]) && GoodTrip(trips[1]);
    assert (trips[0].returned - trips[0].stamped) + (trips[1].served - trips[1].sent) >= 0;
  }

  /** Up to 3600 seconds the interval is half the lifetime. */
  lemma IntervalIsHalf(ttl: int)
    requires 1 <= ttl <= MAX_LOCK_TTL_SECONDS
    ensures 2 * Interval(ttl) == Lifetime(ttl) == ttl * SECOND
  {
  }

  /** Trips of up to a quarter of the time to live always fit. */
  lemma QuarterTripsFit(trips: seq<Trip>, ttl: int)
    requires 1 <= ttl <= MAX_LOCK_TTL_SECONDS && forall i :: 0 <= i < |trips| ==> GoodTrip(trips[i])
    requires forall i :: 0 <= i < |trips| ==> 4 * (trips[i].returned - trips[i].sent) < ttl * SECOND
    ensures LagsFit(trips, ttl)
  {
  }

  /** Trips of just under half the time to live do not: with a lock of one
      second, stamped as its trip begins and with the renewal served as its
      trip ends, two trips of 0.4 seconds leave a gap. The renewal is refused;
      and another client that asks at 1.1 seconds is granted the lock. */
  lemma HalfTripsMayLapse(path: string)
    ensures var first := Trip(0, 0, 0, 400 * MILLISECOND);
      var second := Trip(900 * MILLISECOND, 1300 * MILLISECOND, 1300 * MILLISECOND, 1300 * MILLISECOND);
      var (s, id) := Acquire(LockTable(map[], 1), path, 1, first.served, first.stamped);
      && Heartbeat([first, second], 1)
      && 2 * (first.returned - first.sent) < SECOND && 2 * (second.returned - second.sent) < SECOND
      && id.Some?
      && var renewal := Call(RenewOp(path, id.value, 1), second.served, second.stamped);
         var rival := Call(AcquireOp(path, 1), 1100 * MILLISECOND, 1100 * MILLISECOND);
         && RunLazy(s, [renewal]).1 == [RenewAnswer(RenewNotFound)]
         && RunLazy(s, [rival, renewal]).1 == [Grant(Some(LockId(2))), RenewAnswer(RenewWrongId)]
  {
    var first := Trip(0, 0, 0, 400 * MILLISECOND);
    var second := Trip(900 * MILLISECOND, 1300 * MILLISECOND, 1300 * MILLISECOND, 1300 * MILLISECOND);
    var (s, id) := Acquire(LockTable(map[], 1), path, 1, first.served, first.stamped);
    var renewal := Call(RenewOp(path, id.value, 1), second.served, second.stamped);
    var rival := Call(AcquireOp(path, 1), 1100 * MILLISECOND, 1100 * MILLISECOND);
    LockIdInjective(1, 2);
    hide LockId;
    assert [renewal][1..] == [] && [rival, renewal][1..] == [renewal];
    assert RunLazy(s, [renewal]).1 == [RenewAnswer(RenewNotFound)];
    var t := Lazy(s, rival).0;
    assert RunLazy(t, [renewal]).1 == [RenewAnswer(RenewWrongId)];
  }
}
