/** Per-entity locks with a time to live. An expired lock stays in the table
    until it is touched; nothing sweeps it.

    The functions say what each call does to the table and answers; the class
    is proved to do that. Each call is handed its clock readings in the order
    it takes them, in nanoseconds. */
module LockManager {
  import opened Numerals
  import opened Sets
  import opened Wrappers

  const SECOND := 1_000_000_000
  const MAX_LOCK_TTL_SECONDS := 3600

  datatype LockEntry = LockEntry(id: string, expiresAt: int)

  datatype LockTable = LockTable(locks: map<string, LockEntry>, nextId: nat)

  datatype ReleaseResult = Released | ReleaseNotFound | ReleaseWrongId
  datatype RenewResult = Renewed | RenewNotFound | RenewWrongId

  function LockId(n: nat): string {
    "lock-" + Decimal(n)
  }

  function ExpiryOf(now: int, ttlSeconds: int): int {
    now + (if ttlSeconds < MAX_LOCK_TTL_SECONDS then ttlSeconds else MAX_LOCK_TTL_SECONDS) * SECOND
  }

  /** A lock lasts as long as was asked for, but never over an hour. */
  lemma ExpiryIsClamped(now: int, ttlSeconds: int)
    ensures ttlSeconds <= 3600 ==> ExpiryOf(now, ttlSeconds) == now + ttlSeconds * 1_000_000_000
    ensures ttlSeconds >= 3600 ==> ExpiryOf(now, ttlSeconds) == now + 3_600_000_000_000
  {
  }

  predicate LockedUnexpired(s: LockTable, path: string, now: int) {
    path in s.locks && now < s.locks[path].expiresAt
  }

  /** The expiry check reads the clock at now, the new expiry at later. */
  function Acquire(s: LockTable, path: string, ttlSeconds: int, now: int, later: int): (LockTable, Option<string>) {
    if LockedUnexpired(s, path, now) then (s, None)
    else
      var id := LockId(s.nextId);
      (LockTable(s.locks[path := LockEntry(id, ExpiryOf(later, ttlSeconds))], s.nextId + 1), Some(id))
  }

  function Release(s: LockTable, path: string, id: string, now: int): (LockTable, ReleaseResult) {
    if !LockedUnexpired(s, path, now) then (s.(locks := s.locks - {path}), ReleaseNotFound)
    else if s.locks[path].id != id then (s, ReleaseWrongId)
    else (s.(locks := s.locks - {path}), Released)
  }

  function Renew(s: LockTable, path: string, id: string, ttlSeconds: int, now: int, later: int)
    : (LockTable, RenewResult)
  {
    if !LockedUnexpired(s, path, now) then (s.(locks := s.locks - {path}), RenewNotFound)
    else if s.locks[path].id != id then (s, RenewWrongId)
    else (s.(locks := s.locks[path := LockEntry(id, ExpiryOf(later, ttlSeconds))]), Renewed)
  }

  /** A release or a renewal leaves no expired entry behind on its entity, and
      those of other entities alone. */
  lemma ExpiredEntryIsPurged(s: LockTable, path: string, id: string, ttlSeconds: int, now: int, later: int)
    ensures var released, renewed := Release(s, path, id, now).0, Renew(s, path, id, ttlSeconds, now, later).0;
      && (path in released.locks || path in renewed.locks ==> path in s.locks && now < s.locks[path].expiresAt)
      && released.locks - {path} == s.locks - {path} == renewed.locks - {path}
  {
  }

  predicate CheckLock(s: LockTable, path: string, id: string, now: int) {
    !LockedUnexpired(s, path, now) || s.locks[path].id == id
  }

  /** The entities locked at a time. */
  function Held(s: LockTable, now: int): set<string> {
    set path | path in s.locks && now < s.locks[path].expiresAt
  }

  ghost predicate NonDecreasing(clock: nat -> int) {
    forall i, j :: i <= j ==> clock(i) <= clock(j)
  }

  class Manager {
    var locks: map<string, LockEntry>
    var nextId: nat

    constructor ()
      ensures Table() == LockTable(map[], 1)
    {
      locks, nextId := map[], 1;
    }

    function Table(): LockTable
      reads this
    {
      LockTable(locks, nextId)
    }

    method AcquireLock(path: string, ttlSeconds: int, now: int, later: int) returns (id: Option<string>)
      modifies this
      ensures (Table(), id) == Acquire(old(Table()), path, ttlSeconds, now, later)
    {
      if LockedUnexpired(Table(), path, now) {
        return None;
      }
      var ttl := if ttlSeconds < MAX_LOCK_TTL_SECONDS then ttlSeconds else MAX_LOCK_TTL_SECONDS;
      var text := "lock-" + Decimal(nextId);
      nextId := nextId + 1;
      var entry := LockEntry(text, later + ttl * SECOND);
      locks := locks[path := entry];
      return Some(text);
    }

    method ReleaseLock(path: string, id: string, now: int) returns (r: ReleaseResult)
      modifies this
      ensures (Table(), r) == Release(old(Table()), path, id, now)
    {
      if !LockedUnexpired(Table(), path, now) {
        locks := locks - {path};
        return ReleaseNotFound;
      }
      if locks[path].id != id {
        return ReleaseWrongId;
      }
      locks := locks - {path};
      return Released;
    }

    method RenewLock(path: string, id: string, ttlSeconds: int, now: int, later: int) returns (r: RenewResult)
      modifies this
      ensures (Table(), r) == Renew(old(Table()), path, id, ttlSeconds, now, later)
    {
      if !LockedUnexpired(Table(), path, now) {
        locks := locks - {path};
        return RenewNotFound;
      }
      if locks[path].id != id {
        return RenewWrongId;
      }
      var ttl := if ttlSeconds < MAX_LOCK_TTL_SECONDS then ttlSeconds else MAX_LOCK_TTL_SECONDS;
      locks := locks[path := LockEntry(id, later + ttl * SECOND)];
      return Renewed;
    }

    /** Counts entry by entry, reading the clock anew for each: readAt is when
        each entry was looked at. At least the locks held when it ends, at
        most those held when it began. */
    method HeldLockCount(clock: nat -> int) returns (count: nat, ghost readAt: map<string, int>)
      requires NonDecreasing(clock)
      ensures readAt.Keys == locks.Keys
      ensures forall path :: path in readAt ==> clock(0) <= readAt[path] <= clock(|locks|)
      ensures count == |Counted(Table(), readAt)|
      ensures |Held(Table(), clock(|locks|))| <= count <= |Held(Table(), clock(0))|
    {
      count := 0;
      readAt := map[];
      var rest := locks.Keys;
      var i := 0;
      assert Counted(Table(), readAt) == {};
      while rest != {}
        invariant rest <= locks.Keys && i + |rest| == |locks|
        invariant readAt.Keys == locks.Keys - rest
        invariant forall path :: path in readAt ==> clock(0) <= readAt[path] <= clock(|locks|)
        invariant count == |Counted(Table(), readAt)|
        decreases rest
      {
        var path :| path in rest;
        CountedGrows(Table(), readAt, path, clock(i));
        readAt := readAt[path := clock(i)];
        if clock(i) < locks[path].expiresAt {
          count := count + 1;
        }
        rest := rest - {path};
        i := i + 1;
      }
      CountedBracket(Table(), readAt, clock(0), clock(|locks|));
    }
  }

  /** The locks found unexpired when each entry is looked at at its own time. */
  function Counted(s: LockTable, readAt: map<string, int>): set<string> {
    set path | path in s.locks && path in readAt && readAt[path] < s.locks[path].expiresAt
  }

  lemma CountedGrows(s: LockTable, readAt: map<string, int>, path: string, now: int)
    requires path in s.locks && path !in readAt
    ensures |Counted(s, readAt[path := now])| == |Counted(s, readAt)| + (if now < s.locks[path].expiresAt then 1 else 0)
  {
    if now < s.locks[path].expiresAt {
      assert Counted(s, readAt[path := now]) == Counted(s, readAt) + {path};
    } else {
      assert Counted(s, readAt[path := now]) == Counted(s, readAt);
    }
  }

  lemma CountedBracket(s: LockTable, readAt: map<string, int>, first: int, last: int)
    requires readAt.Keys == s.locks.Keys && forall path :: path in readAt ==> first <= readAt[path] <= last
    ensures |Held(s, last)| <= |Counted(s, readAt)| <= |Held(s, first)|
  {
    SubsetIsNoLarger(Held(s, last), Counted(s, readAt));
    SubsetIsNoLarger(Counted(s, readAt), Held(s, first));
  }
}
