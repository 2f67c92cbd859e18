/** The server-wide lock cap: each request first counts the held locks, then
    acquires, and other requests get in between the two. */
module LockCap {
  import opened LockManager
  import opened Numerals
  import opened Sets

  const MAX_CONCURRENT_LOCKS := 64

  /** A server worker: between requests, or past the capacity check of one. */
  datatype Worker = Free | Passed(path: string, ttlSeconds: int)

  datatype Server = Server(table: LockTable, now: int, workers: seq<Worker>)

  /** Count: a worker's capacity check, from now to now + d, came to n.
      Take: the acquire of a worker past its check. d is the time a step takes. */
  datatype Step =
    | Count(w: nat, path: string, ttlSeconds: int, n: nat, d: nat)
    | Take(w: nat, d: nat)
    | PutLock(path: string, id: string, ttlSeconds: int, d: nat)
    | DeleteLock(path: string, id: string)
    | Tick(d: nat)

  /** The count is any number the counting loop may come to. */
  predicate Enabled(s: Server, a: Step) {
    match a
    case Count(w, path, ttl, n, d) =>
      && w < |s.workers| && s.workers[w] == Free && ttl > 0
      && |Held(s.table, s.now + d)| <= n <= |Held(s.table, s.now)|
    case Take(w, _) => w < |s.workers| && s.workers[w].Passed?
    case _ => true
  }

  function Apply(s: Server, a: Step): Server
    requires Enabled(s, a)
  {
    match a
    case Count(w, path, ttl, n, d) =>
      Server(s.table, s.now + d,
             if n >= MAX_CONCURRENT_LOCKS then s.workers else s.workers[w := Passed(path, ttl)])
    case Take(w, d) =>
      Server(Acquire(s.table, s.workers[w].path, s.workers[w].ttlSeconds, s.now, s.now + d).0,
             s.now + d, s.workers[w := Free])
    case PutLock(path, id, ttl, d) =>
      Server(Renew(s.table, path, id, ttl, s.now, s.now + d).0, s.now + d, s.workers)
    case DeleteLock(path, id) => s.(table := Release(s.table, path, id, s.now).0)
    case Tick(d) => s.(now := s.now + d)
  }

  /** Runs are taken apart at the end. */
  predicate CanRun(s: Server, run: seq<Step>)
    decreases |run|, 0
  {
    run == [] ||
    (CanRun(s, run[..|run| - 1]) && Enabled(After(s, run[..|run| - 1]), run[|run| - 1]))
  }

  function After(s: Server, run: seq<Step>): Server
    requires CanRun(s, run)
    decreases |run|, 1
  {
    if run == [] then s else Apply(After(s, run[..|run| - 1]), run[|run| - 1])
  }

  function PassedCount(workers: seq<Worker>): (n: nat)
    ensures n <= |workers|
  {
    if workers == [] then 0 else (if workers[0].Passed? then 1 else 0) + PassedCount(workers[1..])
  }

  lemma {:induction false} PassedAfterUpdate(workers: seq<Worker>, w: nat, now: Worker)
    requires w < |workers|
    ensures PassedCount(workers[w := now]) + (if workers[w].Passed? then 1 else 0)
         == PassedCount(workers) + (if now.Passed? then 1 else 0)
  {
    if w > 0 {
      PassedAfterUpdate(workers[1..], w - 1, now);
      assert workers[w := now][1..] == workers[1..][w - 1 := now];
    }
  }

  lemma HeldAfterAcquire(s: LockTable, path: string, ttl: int, now: int, later: int)
    requires now <= later
    ensures |Held(Acquire(s, path, ttl, now, later).0, later)| <= |Held(s, now)| + 1
  {
    SubsetIsNoLarger(Held(Acquire(s, path, ttl, now, later).0, later), Held(s, now) + {path});
  }

  lemma HeldAfterRenew(s: LockTable, path: string, id: string, ttl: int, now: int, later: int)
    requires now <= later
    ensures |Held(Renew(s, path, id, ttl, now, later).0, later)| <= |Held(s, now)|
  {
    SubsetIsNoLarger(Held(Renew(s, path, id, ttl, now, later).0, later), Held(s, now));
  }

  lemma HeldAfterRelease(s: LockTable, path: string, id: string, now: int)
    ensures |Held(Release(s, path, id, now).0, now)| <= |Held(s, now)|
  {
    SubsetIsNoLarger(Held(Release(s, path, id, now).0, now), Held(s, now));
  }

  lemma HeldLater(s: LockTable, now: int, later: int)
    requires now <= later
    ensures |Held(s, later)| <= |Held(s, now)|
  {
    SubsetIsNoLarger(Held(s, later), Held(s, now));
  }

  /** Locks held, and acquires already let through. */
  function Load(s: Server): nat {
    |Held(s.table, s.now)| + PassedCount(s.workers)
  }

  lemma StepKeepsTheBound(s: Server, a: Step)
    requires Enabled(s, a) && Load(s) <= MAX_CONCURRENT_LOCKS - 1 + |s.workers|
    ensures |Apply(s, a).workers| == |s.workers|
    ensures Load(Apply(s, a)) <= MAX_CONCURRENT_LOCKS - 1 + |s.workers|
  {
    hide Held, Acquire, Renew, Release;
    match a
    case Count(w, path, ttl, n, d) => HeldLater(s.table, s.now, s.now + d);
    case Take(w, d) =>
      HeldAfterAcquire(s.table, s.workers[w].path, s.workers[w].ttlSeconds, s.now, s.now + d);
      PassedAfterUpdate(s.workers, w, Free);
    case PutLock(path, id, ttl, d) => HeldAfterRenew(s.table, path, id, ttl, s.now, s.now + d);
    case DeleteLock(path, id) => HeldAfterRelease(s.table, path, id, s.now);
    case Tick(d) => HeldLater(s.table, s.now, s.now + d);
  }

  /** A server with n workers and no locks. */
  function Fresh(n: nat): Server {
    Server(LockTable(map[], 1), 0, seq(n, _ => Free))
  }

  lemma {:induction false} NoneHaveJustStarted(n: nat)
    ensures PassedCount(Fresh(n).workers) == 0 && Held(Fresh(n).table, 0) == {}
  {
    if n > 0 {
      NoneHaveJustStarted(n - 1);
      assert Fresh(n).workers[1..] == Fresh(n - 1).workers;
    }
  }

  /** The cap under concurrency: in every state n workers can reach, locks held
      plus acquires let through never exceed 63 + n. */
  lemma {:induction false} CapUnderConcurrency(n: nat, run: seq<Step>)
    requires CanRun(Fresh(n), run)
    ensures |After(Fresh(n), run).workers| == n
    ensures Load(After(Fresh(n), run)) <= MAX_CONCURRENT_LOCKS - 1 + n
    decreases |run|
  {
    hide Held, Apply, Enabled;
    if run == [] {
      NoneHaveJustStarted(n);
    } else {
      CapUnderConcurrency(n, run[..|run| - 1]);
      StepKeepsTheBound(After(Fresh(n), run[..|run| - 1]), run[|run| - 1]);
    }
  }

  // --- The bound is reached ---

  function PathOf(i: nat): string {
    "ecu" + Decimal(i)
  }

  lemma PathOfInjective(i: nat, j: nat)
    ensures PathOf(i) == PathOf(j) <==> i == j
  {
    DecimalInjective(i, j);
    assert PathOf(i)[3..] == Decimal(i) && PathOf(j)[3..] == Decimal(j);
  }

  /** The table after k different entities have been locked at time 0. */
  function Filled(k: nat): LockTable {
    if k == 0 then LockTable(map[], 1) else Acquire(Filled(k - 1), PathOf(k - 1), 1, 0, 0).0
  }

  predicate IsFilledPath(k: nat, path: string) {
    exists i :: 0 <= i < k && path == PathOf(i)
  }

  /** Every entry of the filled table is one of the k, and expires in a second. */
  predicate FilledBy(k: nat, locks: map<string, LockEntry>) {
    forall p :: p in locks ==> locks[p].expiresAt == SECOND && IsFilledPath(k, p)
  }

  lemma {:induction false} FilledHolds(k: nat)
    ensures FilledBy(k, Filled(k).locks)
    ensures |Filled(k).locks| == k && Filled(k).locks.Keys == Held(Filled(k), 0)
  {
    hide Filled, PathOf, LockId, IsFilledPath;
    if k > 0 {
      FilledHolds(k - 1);
      NotFilledYet(k - 1);
      var locks, path := Filled(k - 1).locks, PathOf(k - 1);
      var entry := LockEntry(LockId(Filled(k - 1).nextId), SECOND);
      FilledStep(k);
      FilledByOneMore(k, locks, entry);
      assert locks[path := entry].Keys == locks.Keys + {path};
    } else {
      NothingFilled();
    }
    AllHeld(Filled(k), k);
  }

  lemma NothingFilled()
    ensures Filled(0).locks == map[]
  {
  }

  lemma FilledStep(k: nat)
    requires k > 0 && PathOf(k - 1) !in Filled(k - 1).locks
    ensures Filled(k).locks == Filled(k - 1).locks[PathOf(k - 1) := LockEntry(LockId(Filled(k - 1).nextId), SECOND)]
  {
    hide LockId, PathOf;
  }

  lemma FilledByOneMore(k: nat, locks: map<string, LockEntry>, entry: LockEntry)
    requires k > 0 && FilledBy(k - 1, locks) && entry.expiresAt == SECOND
    ensures FilledBy(k, locks[PathOf(k - 1) := entry])
  {
    hide PathOf, IsFilledPath;
    forall p
      ensures IsFilledPath(k - 1, p) || p == PathOf(k - 1) ==> IsFilledPath(k, p)
    {
      FilledPathGrows(k, p);
    }
  }

  lemma AllHeld(s: LockTable, k: nat)
    requires FilledBy(k, s.locks)
    ensures s.locks.Keys == Held(s, 0)
  {
  }

  lemma NotFilledYet(k: nat)
    ensures !IsFilledPath(k, PathOf(k))
  {
    hide PathOf;
    forall i: nat | i < k
      ensures PathOf(k) != PathOf(i)
    {
      PathOfInjective(k, i);
    }
  }

  lemma FilledPathGrows(k: nat, path: string)
    requires k > 0
    ensures IsFilledPath(k - 1, path) || path == PathOf(k - 1) ==> IsFilledPath(k, path)
  {
  }

  /** j of the n workers, from the first on, are past their check, each for an
      entity of its own beyond the first 63. */
  function Crew(n: nat, from: nat, to: nat): seq<Worker> {
    seq(n, w => if from <= w < to then Passed(PathOf(63 + w), 1) else Free)
  }

  ghost predicate Reaches(n: nat, s: Server) {
    exists run :: CanRun(Fresh(n), run) && After(Fresh(n), run) == s
  }

  lemma OneMoreStep(n: nat, s: Server, a: Step)
    requires Reaches(n, s) && Enabled(s, a)
    ensures Reaches(n, Apply(s, a))
  {
    var run :| CanRun(Fresh(n), run) && After(Fresh(n), run) == s;
    var longer := run + [a];
    assert longer[..|longer| - 1] == run;
    assert CanRun(Fresh(n), longer) && After(Fresh(n), longer) == Apply(s, a);
  }

  /** A worker's request from its check to its lock, with nobody in between. */
  lemma FillStep(n: nat, k: nat)
    requires 1 <= n && k < MAX_CONCURRENT_LOCKS
    ensures var s, a := Server(Filled(k), 0, Crew(n, 0, 0)), Count(0, PathOf(k), 1, k, 0);
      && Enabled(s, a)
      && var t, b := Apply(s, a), Take(0, 0);
         Enabled(t, b) && Apply(t, b) == Server(Filled(k + 1), 0, Crew(n, 0, 0))
  {
    hide Held, Acquire, PathOf;
    FilledCount(k);
  }

  lemma {:induction false} FillUp(n: nat, k: nat)
    requires 1 <= n && k <= MAX_CONCURRENT_LOCKS - 1
    ensures Reaches(n, Server(Filled(k), 0, Crew(n, 0, 0)))
  {
    if k == 0 {
      assert Crew(n, 0, 0) == Fresh(n).workers;
      assert CanRun(Fresh(n), []) && After(Fresh(n), []) == Fresh(n);
    } else {
      hide Held, Acquire, Filled, Reaches, Crew, Enabled, Apply, PathOf;
      FillUp(n, k - 1);
      FillStep(n, k - 1);
      var s, count := Server(Filled(k - 1), 0, Crew(n, 0, 0)), Count(0, PathOf(k - 1), 1, k - 1, 0);
      OneMoreStep(n, s, count);
      OneMoreStep(n, Apply(s, count), Take(0, 0));
    }
  }

  lemma FilledCount(k: nat)
    ensures |Held(Filled(k), 0)| == k
  {
    FilledHolds(k);
  }

  /** One more worker passes its check while fewer than 64 locks are held. */
  lemma PassStep(n: nat, j: nat, k: nat)
    requires j < n && k < MAX_CONCURRENT_LOCKS
    ensures var s, a := Server(Filled(k), 0, Crew(n, 0, j)), Count(j, PathOf(63 + j), 1, k, 0);
      Enabled(s, a) && Apply(s, a) == Server(Filled(k), 0, Crew(n, 0, j + 1))
  {
    hide Held, Filled, PathOf;
    FilledCount(k);
  }

  lemma {:induction false} AllPass(n: nat, j: nat, k: nat)
    requires 1 <= n && j <= n && k < MAX_CONCURRENT_LOCKS
    ensures Reaches(n, Server(Filled(k), 0, Crew(n, 0, j)))
  {
    hide Held, Acquire, Filled, Reaches, Crew, Enabled, Apply, PathOf;
    if j == 0 {
      FillUp(n, k);
    } else {
      AllPass(n, j - 1, k);
      PassStep(n, j - 1, k);
      OneMoreStep(n, Server(Filled(k), 0, Crew(n, 0, j - 1)), Count(j - 1, PathOf(63 + (j - 1)), 1, k, 0));
    }
  }

  /** One more worker takes the lock it was let through for. */
  lemma TakeStep(n: nat, j: nat, k: nat)
    requires j < n && k == 63 + j
    ensures var s, a := Server(Filled(k), 0, Crew(n, j, n)), Take(j, 0);
      Enabled(s, a) && Apply(s, a) == Server(Filled(k + 1), 0, Crew(n, j + 1, n))
  {
    hide Acquire, PathOf, Held;
  }

  lemma {:induction false} AllTake(n: nat, j: nat, k: nat)
    requires 1 <= n && j <= n && k == 63 + j
    ensures Reaches(n, Server(Filled(k), 0, Crew(n, j, n)))
    decreases j
  {
    hide Held, Acquire, Filled, Reaches, Crew, Enabled, Apply, PathOf;
    if j == 0 {
      AllPass(n, n, k);
    } else {
      AllTake(n, j - 1, k - 1);
      TakeStep(n, j - 1, k - 1);
      OneMoreStep(n, Server(Filled(k - 1), 0, Crew(n, j - 1, n)), Take(j - 1, 0));
    }
  }

  /** The bound is exact: n workers can really come to hold 63 + n locks. */
  lemma BoundIsReached(n: nat)
    requires 1 <= n
    ensures exists run ::
      && CanRun(Fresh(n), run)
      && |Held(After(Fresh(n), run).table, After(Fresh(n), run).now)| == MAX_CONCURRENT_LOCKS - 1 + n
  {
    hide Held, CanRun, After, Filled, Crew;
    AllTake(n, n, 63 + n);
    FilledHolds(63 + n);
    var s := Server(Filled(63 + n), 0, Crew(n, n, n));
    var run :| CanRun(Fresh(n), run) && After(Fresh(n), run) == s;
    assert |Held(After(Fresh(n), run).table, After(Fresh(n), run).now)| == 63 + n;
  }

  /** So the cap of 64 locks holds exactly when there is no second worker. */
  lemma CapHoldsIffOneWorker(n: nat)
    ensures (forall run :: CanRun(Fresh(n), run) ==>
               |Held(After(Fresh(n), run).table, After(Fresh(n), run).now)| <= MAX_CONCURRENT_LOCKS)
       <==> n <= 1
  {
    hide Held;
    if n <= 1 {
      forall run | CanRun(Fresh(n), run)
        ensures |Held(After(Fresh(n), run).table, After(Fresh(n), run).now)| <= MAX_CONCURRENT_LOCKS
      {
        CapUnderConcurrency(n, run);
      }
    } else {
      BoundIsReached(n);
    }
  }
}
