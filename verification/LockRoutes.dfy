/** The lock handlers as operations on the lock manager, one request at a time.
    Between them they read the clock in order: clock(0), clock(1), ... */
module LockRoutes {
  import opened LockCap
  import opened LockManager
  import opened Wrappers

  datatype Reply =
    | BadRequest
    | Busy
    | Conflict
    | Created(id: string, ttlSeconds: int)
    | Extended(ttlSeconds: int)
    | NoContent
    | Forbidden
    | NotFound

  function Granted(ttlSeconds: int): int {
    if ttlSeconds < MAX_LOCK_TTL_SECONDS then ttlSeconds else MAX_LOCK_TTL_SECONDS
  }

  /** One request on its own never takes the server past the cap, is refused
      as busy only at the cap, and reports the time to live really granted. */
  method PostLock(m: Manager, path: string, ttlSeconds: int, clock: nat -> int) returns (r: Reply)
    requires NonDecreasing(clock)
    modifies m
    ensures r == BadRequest <==> ttlSeconds <= 0
    ensures r in {BadRequest, Busy, Conflict} || r.Created?
    ensures !r.Created? ==> m.Table() == old(m.Table())
    ensures var n := old(|m.locks|);
      && (r == Busy ==> |Held(old(m.Table()), clock(0))| >= MAX_CONCURRENT_LOCKS)
      && (ttlSeconds > 0 && |Held(old(m.Table()), clock(n))| >= MAX_CONCURRENT_LOCKS ==> r == Busy)
      && (r == Conflict ==> LockedUnexpired(old(m.Table()), path, clock(n + 1)))
      && (r.Created? ==>
            && (m.Table(), Some(r.id)) == Acquire(old(m.Table()), path, ttlSeconds, clock(n + 1), clock(n + 2))
            && r.ttlSeconds == (if ttlSeconds > 3600 then 3600 else ttlSeconds)
            && path in m.locks && m.locks[path] == LockEntry(r.id, clock(n + 2) + r.ttlSeconds * 1_000_000_000)
            && |Held(m.Table(), clock(n + 2))| <= MAX_CONCURRENT_LOCKS)
  {
    hide Held;
    if ttlSeconds <= 0 {
      return BadRequest;
    }
    ghost var n := |m.locks|;
    var count, readAt := m.HeldLockCount(clock);
    if count >= MAX_CONCURRENT_LOCKS {
      return Busy;
    }
    var after := |m.locks|;
    HeldLater(m.Table(), clock(n), clock(n + 1));
    HeldAfterAcquire(m.Table(), path, ttlSeconds, clock(n + 1), clock(n + 2));
    var id := m.AcquireLock(path, ttlSeconds, clock(after + 1), clock(after + 2));
    if id.None? {
      return Conflict;
    }
    return Created(id.value, Granted(ttlSeconds));
  }

  /** A renewal succeeds exactly for the holder of an unexpired lock, which then
      expires the granted time from now on; a lock held by another id and one
      that is not held are told apart, and neither is changed. */
  method PutLock(m: Manager, path: string, id: string, ttlSeconds: int, now: int, later: int) returns (r: Reply)
    modifies m
    ensures r == BadRequest <==> ttlSeconds <= 0
    ensures r == NotFound <==> ttlSeconds > 0 && !LockedUnexpired(old(m.Table()), path, now)
    ensures r == Forbidden <==>
      ttlSeconds > 0 && LockedUnexpired(old(m.Table()), path, now) && old(m.locks[path].id) != id
    ensures r.Extended? <==>
      ttlSeconds > 0 && LockedUnexpired(old(m.Table()), path, now) && old(m.locks[path].id) == id
    ensures r.Extended? ==>
      && r.ttlSeconds == (if ttlSeconds > 3600 then 3600 else ttlSeconds)
      && path in m.locks && m.locks[path] == LockEntry(id, later + r.ttlSeconds * 1_000_000_000)
    ensures r in {BadRequest, Forbidden} ==> m.Table() == old(m.Table())
    ensures ttlSeconds <= 0 ==> r == BadRequest && m.Table() == old(m.Table())
    ensures ttlSeconds > 0 ==>
      && m.Table() == Renew(old(m.Table()), path, id, ttlSeconds, now, later).0
      && r == match Renew(old(m.Table()), path, id, ttlSeconds, now, later).1
              case Renewed => Extended(Granted(ttlSeconds))
              case RenewWrongId => Forbidden
              case RenewNotFound => NotFound
  {
    if ttlSeconds <= 0 {
      return BadRequest;
    }
    var renewed := m.RenewLock(path, id, ttlSeconds, now, later);
    match renewed
    case Renewed => return Extended(Granted(ttlSeconds));
    case RenewWrongId => return Forbidden;
    case RenewNotFound => return NotFound;
  }

  /** revert says that the entity's session is to be torn down: exactly when
      the lock was really released. */
  method DeleteLock(m: Manager, path: string, id: string, now: int) returns (r: Reply, revert: bool)
    modifies m
    ensures m.Table() == Release(old(m.Table()), path, id, now).0
    ensures revert <==> r == NoContent
    ensures r == NoContent <==> LockedUnexpired(old(m.Table()), path, now) && old(m.locks[path].id) == id
    ensures r == Forbidden <==> LockedUnexpired(old(m.Table()), path, now) && old(m.locks[path].id) != id
    ensures r == NotFound <==> !LockedUnexpired(old(m.Table()), path, now)
  {
    var released := m.ReleaseLock(path, id, now);
    match released
    case Released => return NoContent, true;
    case ReleaseWrongId => return Forbidden, false;
    case ReleaseNotFound => return NotFound, false;
  }
}
