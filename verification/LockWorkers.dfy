/** The workers behind the lock cap share one store: whatever the interleaving,
    what their requests have made of it is what the store makes of those calls
    one after another. */
module LockWorkers {
  import opened LockManager
  import opened LockCap
  import opened Wrappers
  import Store = LockRefinement

  function Duration(a: Step): nat {
    match a
    case Count(_, _, _, _, d) => d
    case Take(_, d) => d
    case PutLock(_, _, _, d) => d
    case DeleteLock(_, _) => 0
    case Tick(d) => d
  }

  function Elapsed(run: seq<Step>): nat {
    if run == [] then 0 else Elapsed(run[..|run| - 1]) + Duration(run[|run| - 1])
  }

  /** What a worker was last asked to lock, and for how long. */
  function Asked(run: seq<Step>, w: nat): Option<(string, int)> {
    if run == [] then None
    else
      var last := run[|run| - 1];
      if last.Count? && last.w == w then Some((last.path, last.ttlSeconds)) else Asked(run[..|run| - 1], w)
  }

  /** The calls a run has made to the store: an acquire of what the worker was
      asked for, a renewal, a release, each at its time. */
  function StoreCalls(run: seq<Step>): seq<Store.Call> {
    if run == [] then []
    else
      var before, last := run[..|run| - 1], run[|run| - 1];
      StoreCalls(before) +
      match last
      case Take(w, _) =>
        var asked := Asked(before, w);
        if asked.None? then []
        else [Store.Call(Store.AcquireOp(asked.value.0, asked.value.1), Elapsed(before), Elapsed(run))]
      case PutLock(path, id, ttl, _) => [Store.Call(Store.RenewOp(path, id, ttl), Elapsed(before), Elapsed(run))]
      case DeleteLock(path, id) => [Store.Call(Store.ReleaseOp(path, id), Elapsed(before), Elapsed(run))]
      case _ => []
  }

  /** The same store, at the same time, and each worker past its check is about
      to lock what it was asked for. */
  predicate Follows(run: seq<Step>, s: Server) {
    && s.now == Elapsed(run)
    && s.table == Store.RunLazy(LockTable(map[], 1), StoreCalls(run)).0
    && Store.ClockRuns(0, StoreCalls(run))
    && (forall c :: c in StoreCalls(run) ==> c.later <= Elapsed(run))
    && (forall w: nat :: w < |s.workers| && s.workers[w].Passed? ==>
          Asked(run, w) == Some((s.workers[w].path, s.workers[w].ttlSeconds)))
  }

  lemma {:induction false} OneMoreCall(s: LockTable, calls: seq<Store.Call>, c: Store.Call)
    ensures Store.RunLazy(s, calls + [c]).0 == Store.Lazy(Store.RunLazy(s, calls).0, c).0
    decreases |calls|
  {
    hide Store.Lazy;
    if calls == [] {
      assert [c][1..] == [];
    } else {
      OneMoreCall(Store.Lazy(s, calls[0]).0, calls[1..], c);
      assert (calls + [c])[1..] == calls[1..] + [c];
    }
  }

  lemma {:induction false} ClockRunsOn(from: int, calls: seq<Store.Call>, c: Store.Call)
    requires Store.ClockRuns(from, calls) && Store.ReadsInOrder(c) && from <= c.now
    requires forall b :: b in calls ==> b.later <= c.now
    ensures Store.ClockRuns(from, calls + [c])
    decreases |calls|
  {
    if calls == [] {
      assert [c][1..] == [];
    } else {
      ClockRunsOn(calls[0].later, calls[1..], c);
      assert (calls + [c])[1..] == calls[1..] + [c];
    }
  }

  lemma StepFollows(run: seq<Step>, s: Server, a: Step)
    requires Follows(run, s) && Enabled(s, a)
    ensures Follows(run + [a], Apply(s, a))
  {
    hide Held, Acquire, Renew, Release, Store.RunLazy, Store.ClockRuns;
    var longer := run + [a];
    assert longer[..|run|] == run;
    var before, after := StoreCalls(run), StoreCalls(longer);
    if after != before {
      var c := after[|after| - 1];
      assert after == before + [c];
      OneMoreCall(LockTable(map[], 1), before, c);
      ClockRunsOn(0, before, c);
    }
  }

  /** The table the workers come to is the store's after exactly the calls of
      their requests, one after another; each worker past its check is about to
      lock what it was asked for; and the time is that of the steps. */
  lemma {:induction false} WorkersShareOneStore(n: nat, run: seq<Step>)
    requires CanRun(Fresh(n), run)
    ensures Follows(run, After(Fresh(n), run))
    decreases |run|
  {
    hide Follows, Enabled, Apply;
    if run == [] {
      StartFollows(n);
    } else {
      WorkersShareOneStore(n, run[..|run| - 1]);
      assert run == run[..|run| - 1] + [run[|run| - 1]];
      StepFollows(run[..|run| - 1], After(Fresh(n), run[..|run| - 1]), run[|run| - 1]);
    }
  }

  lemma StartFollows(n: nat)
    ensures Follows([], Fresh(n))
  {
  }

  /** So the workers' calls are answered as by the store that deletes each lock
      the moment it expires. */
  lemma WorkersAreAnsweredEagerly(n: nat, run: seq<Step>)
    requires CanRun(Fresh(n), run)
    ensures Store.RunLazy(LockTable(map[], 1), StoreCalls(run)).1
         == Store.RunEager(LockTable(map[], 1), StoreCalls(run)).1
  {
    WorkersShareOneStore(n, run);
    Store.LazyRefinesEager(LockTable(map[], 1), LockTable(map[], 1), 0, StoreCalls(run));
  }

  /** A worker can always take what it was let through for, and a free one can
      always count for a request that asks for a positive time; renewals and
      releases are never held up. */
  lemma RequestsAreServed(s: Server, w: nat, path: string, id: string, ttl: int, d: nat)
    requires w < |s.workers|
    ensures s.workers[w].Passed? ==> Enabled(s, Take(w, d))
    ensures s.workers[w] == Free ==> (Enabled(s, Count(w, path, ttl, |Held(s.table, s.now)|, 0)) <==> ttl > 0)
    ensures Enabled(s, PutLock(path, id, ttl, d)) && Enabled(s, DeleteLock(path, id)) && Enabled(s, Tick(d))
  {
    hide Held;
  }
}
