/** Lazy expiry answers like eager expiry: over any sequence of calls with a
    clock that does not go back, the lock table cannot be told from a store
    that deletes each lock the moment it expires. */
module LockRefinement {
  import opened LockManager
  import opened Numerals
  import opened Wrappers

  datatype Op =
    | AcquireOp(path: string, ttlSeconds: int)
    | ReleaseOp(path: string, id: string)
    | RenewOp(path: string, id: string, ttlSeconds: int)
    | CheckOp(path: string, id: string)
    | IsLockedOp(path: string)
    | CountOp(readAt: map<string, int>)  // when each entry is looked at

  /** A call, with the times of its first and its last clock reading. */
  datatype Call = Call(op: Op, now: int, later: int)

  datatype Answer =
    | Grant(id: Option<string>)
    | ReleaseAnswer(release: ReleaseResult)
    | RenewAnswer(renew: RenewResult)
    | Flag(value: bool)
    | Count(n: nat)

  function Lazy(s: LockTable, c: Call): (LockTable, Answer) {
    match c.op
    case AcquireOp(path, ttl) => var (t, id) := Acquire(s, path, ttl, c.now, c.later); (t, Grant(id))
    case ReleaseOp(path, id) => var (t, r) := Release(s, path, id, c.now); (t, ReleaseAnswer(r))
    case RenewOp(path, id, ttl) => var (t, r) := Renew(s, path, id, ttl, c.now, c.later); (t, RenewAnswer(r))
    case CheckOp(path, id) => (s, Flag(CheckLock(s, path, id, c.now)))
    case IsLockedOp(path) => (s, Flag(LockedUnexpired(s, path, c.now)))
    case CountOp(readAt) => (s, Count(|Counted(s, readAt)|))
  }

  // --- The reference: a plain map, purged first ---

  function Unexpired(locks: map<string, LockEntry>, now: int): map<string, LockEntry> {
    map path | path in locks && now < locks[path].expiresAt :: locks[path]
  }

  /** One call on a store whose locks are all live: presence is all it asks,
      but for a count, during which further ones may expire. */
  function OnLive(s: LockTable, c: Call): (LockTable, Answer) {
    match c.op
    case AcquireOp(path, ttl) =>
      if path in s.locks then (s, Grant(None))
      else
        (LockTable(s.locks[path := LockEntry(LockId(s.nextId), ExpiryOf(c.later, ttl))], s.nextId + 1),
         Grant(Some(LockId(s.nextId))))
    case ReleaseOp(path, id) =>
      if path !in s.locks then (s, ReleaseAnswer(ReleaseNotFound))
      else if s.locks[path].id != id then (s, ReleaseAnswer(ReleaseWrongId))
      else (s.(locks := s.locks - {path}), ReleaseAnswer(Released))
    case RenewOp(path, id, ttl) =>
      if path !in s.locks then (s, RenewAnswer(RenewNotFound))
      else if s.locks[path].id != id then (s, RenewAnswer(RenewWrongId))
      else (s.(locks := s.locks[path := LockEntry(id, ExpiryOf(c.later, ttl))]), RenewAnswer(Renewed))
    case CheckOp(path, id) => (s, Flag(path in s.locks ==> s.locks[path].id == id))
    case IsLockedOp(path) => (s, Flag(path in s.locks))
    case CountOp(readAt) => (s, Count(|Counted(s, readAt)|))
  }

  function Eager(s: LockTable, c: Call): (LockTable, Answer) {
    OnLive(s.(locks := Unexpired(s.locks, c.now)), c)
  }

  function RunLazy(s: LockTable, calls: seq<Call>): (LockTable, seq<Answer>)
    decreases |calls|
  {
    if calls == [] then (s, [])
    else
      var (t, a) := Lazy(s, calls[0]);
      var (u, rest) := RunLazy(t, calls[1..]);
      (u, [a] + rest)
  }

  function RunEager(s: LockTable, calls: seq<Call>): (LockTable, seq<Answer>)
    decreases |calls|
  {
    if calls == [] then (s, [])
    else
      var (t, a) := Eager(s, calls[0]);
      var (u, rest) := RunEager(t, calls[1..]);
      (u, [a] + rest)
  }

  /** The readings of a count lie within the call. */
  predicate ReadsInOrder(c: Call) {
    && c.now <= c.later
    && (c.op.CountOp? ==> forall path :: path in c.op.readAt ==> c.now <= c.op.readAt[path] <= c.later)
  }

  /** The clock does not go back: within a call, or from one to the next. */
  predicate ClockRuns(from: int, calls: seq<Call>)
    decreases |calls|
  {
    calls == [] || (from <= calls[0].now && ReadsInOrder(calls[0]) && ClockRuns(calls[0].later, calls[1..]))
  }

  /** The two stores agree on everything that is live. */
  predicate Agree(lazy: LockTable, eager: LockTable, now: int) {
    lazy.nextId == eager.nextId && Unexpired(lazy.locks, now) == Unexpired(eager.locks, now)
  }

  lemma AgreeLater(lazy: LockTable, eager: LockTable, now: int, later: int)
    requires Agree(lazy, eager, now) && now <= later
    ensures Agree(lazy, eager, later)
  {
    var a, b := Unexpired(lazy.locks, now), Unexpired(eager.locks, now);
    assert Unexpired(lazy.locks, later) == Unexpired(a, later);
    assert Unexpired(eager.locks, later) == Unexpired(b, later);
  }

  /** One call: same answer, and agreement again. */
  lemma SameAnswer(lazy: LockTable, eager: LockTable, c: Call)
    requires Agree(lazy, eager, c.now) && ReadsInOrder(c)
    ensures Lazy(lazy, c).1 == Eager(eager, c).1
    ensures Agree(Lazy(lazy, c).0, Eager(eager, c).0, c.now)
  {
    var live := Unexpired(eager.locks, c.now);
    assert Unexpired(live, c.now) == live;
    match c.op
    case AcquireOp(path, ttl) =>
      assert LockedUnexpired(lazy, path, c.now) <==> path in live;
      var entry := LockEntry(LockId(lazy.nextId), ExpiryOf(c.later, ttl));
      UnexpiredAfterPut(lazy.locks, path, entry, c.now);
      UnexpiredAfterPut(live, path, entry, c.now);
    case ReleaseOp(path, id) =>
      assert LockedUnexpired(lazy, path, c.now) <==> path in live;
      UnexpiredAfterRemove(lazy.locks, path, c.now);
      UnexpiredAfterRemove(live, path, c.now);
    case RenewOp(path, id, ttl) =>
      assert LockedUnexpired(lazy, path, c.now) <==> path in live;
      var entry := LockEntry(id, ExpiryOf(c.later, ttl));
      UnexpiredAfterPut(lazy.locks, path, entry, c.now);
      UnexpiredAfterPut(live, path, entry, c.now);
      UnexpiredAfterRemove(lazy.locks, path, c.now);
    case CheckOp(path, id) => assert LockedUnexpired(lazy, path, c.now) <==> path in live;
    case IsLockedOp(path) => assert LockedUnexpired(lazy, path, c.now) <==> path in live;
    case CountOp(readAt) => assert Counted(lazy, readAt) == Counted(eager.(locks := live), readAt);
  }

  lemma UnexpiredAfterPut(locks: map<string, LockEntry>, path: string, entry: LockEntry, now: int)
    ensures Unexpired(locks[path := entry], now)
         == if now < entry.expiresAt then Unexpired(locks, now)[path := entry] else Unexpired(locks, now) - {path}
  {
  }

  lemma UnexpiredAfterRemove(locks: map<string, LockEntry>, path: string, now: int)
    ensures Unexpired(locks - {path}, now) == Unexpired(locks, now) - {path}
  {
  }

  /** Lazy expiry refines eager expiry: the same answers, call by call, over
      every run. */
  lemma {:induction false} LazyRefinesEager(lazy: LockTable, eager: LockTable, from: int, calls: seq<Call>)
    requires Agree(lazy, eager, from) && ClockRuns(from, calls)
    ensures RunLazy(lazy, calls).1 == RunEager(eager, calls).1
    decreases |calls|
  {
    hide Agree, Lazy, Eager;
    if calls != [] {
      AgreeLater(lazy, eager, from, calls[0].now);
      SameAnswer(lazy, eager, calls[0]);
      var lazy', eager' := Lazy(lazy, calls[0]).0, Eager(eager, calls[0]).0;
      AgreeLater(lazy', eager', calls[0].now, calls[0].later);
      LazyRefinesEager(lazy', eager', calls[0].later, calls[1..]);
    }
  }

  // --- Ids and expiries over a run ---

  /** The ids a run has granted are those from one counter value to another. */
  lemma {:induction false} GrantedIds(s: LockTable, calls: seq<Call>, i: nat)
    requires i < |RunLazy(s, calls).1|
    requires RunLazy(s, calls).1[i].Grant? && RunLazy(s, calls).1[i].id.Some?
    ensures exists n :: s.nextId <= n < RunLazy(s, calls).0.nextId && RunLazy(s, calls).1[i].id == Some(LockId(n))
    decreases |calls|
  {
    hide LockId, ExpiryOf;
    var (t, a) := Lazy(s, calls[0]);
    NextIdGrows(t, calls[1..]);
    if i == 0 {
      assert RunLazy(s, calls).1[i].id == Some(LockId(s.nextId));
    } else {
      GrantedIds(t, calls[1..], i - 1);
    }
  }

  lemma {:induction false} NextIdGrows(s: LockTable, calls: seq<Call>)
    ensures s.nextId <= RunLazy(s, calls).0.nextId
    decreases |calls|
  {
    if calls != [] {
      NextIdGrows(Lazy(s, calls[0]).0, calls[1..]);
    }
  }

  lemma LockIdInjective(m: nat, n: nat)
    ensures LockId(m) == LockId(n) <==> m == n
  {
    DecimalInjective(m, n);
    assert LockId(m)[5..] == Decimal(m) && LockId(n)[5..] == Decimal(n);
  }

  /** No id is ever granted twice in a run. */
  lemma {:induction false} GrantedIdsAreDistinct(s: LockTable, calls: seq<Call>, i: nat, j: nat)
    requires i < j < |RunLazy(s, calls).1|
    requires RunLazy(s, calls).1[i].Grant? && RunLazy(s, calls).1[i].id.Some?
    requires RunLazy(s, calls).1[j].Grant?
    ensures RunLazy(s, calls).1[i].id != RunLazy(s, calls).1[j].id
    decreases |calls|
  {
    hide LockId, ExpiryOf;
    var (t, a) := Lazy(s, calls[0]);
    if i > 0 {
      GrantedIdsAreDistinct(t, calls[1..], i - 1, j - 1);
    } else if RunLazy(s, calls).1[j].id.Some? {
      GrantedIds(t, calls[1..], j - 1);
      var n :| t.nextId <= n && RunLazy(t, calls[1..]).1[j - 1].id == Some(LockId(n));
      LockIdInjective(s.nextId, n);
    }
  }

  /** No lock in the table outlasts this time by more than the maximum. */
  predicate ExpiriesWithin(s: LockTable, now: int) {
    forall path :: path in s.locks ==> s.locks[path].expiresAt <= now + MAX_LOCK_TTL_SECONDS * SECOND
  }

  /** However large the requested times to live, at every point of a run no
      lock lasts longer than 3600 seconds from then on. */
  lemma {:induction false} ExpiriesStayWithin(s: LockTable, from: int, calls: seq<Call>)
    requires ExpiriesWithin(s, from) && ClockRuns(from, calls)
    ensures ExpiriesWithin(RunLazy(s, calls).0, if calls == [] then from else calls[|calls| - 1].later)
    decreases |calls|
  {
    if calls != [] {
      var t := Lazy(s, calls[0]).0;
      assert ExpiriesWithin(t, calls[0].later);
      ExpiriesStayWithin(t, calls[0].later, calls[1..]);
    }
  }
}
