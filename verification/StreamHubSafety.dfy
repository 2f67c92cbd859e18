/** What every interleaving of the stream hub's threads keeps, and what each
    subscriber is delivered. */
module StreamHubSafety {
  import opened Numerals
  import opened StreamHub

  // --- Ownership ---

  /** The live handles on a poller. */
  function Owners(s: Hub, p: PollerId): set<HandleId> {
    set h | h in s.handles && s.handles[h].Live? && s.handles[h].poller == p
  }

  /** A poller runs exactly while the table lists it under its key, and every
      table entry is a running poller. */
  predicate TableListsRunning(s: Hub) {
    && (forall k :: k in s.table ==> s.table[k] in s.pollers && s.pollers[s.table[k]].key == k)
    && (forall p :: p in s.pollers ==>
          p < s.next && (!s.pollers[p].stop <==> s.pollers[p].key in s.table && s.table[s.pollers[p].key] == p))
  }

  /** A live handle's key leads to its own poller; a handle that is joining
      waits for a stopped one. */
  predicate HandlesPointRight(s: Hub) {
    && (forall h :: h in s.handles && s.handles[h].Live? ==>
          s.handles[h].key in s.table && s.table[s.handles[h].key] == s.handles[h].poller)
    && (forall h :: h in s.handles && s.handles[h].Joining? ==>
          s.handles[h].poller in s.pollers && s.pollers[s.handles[h].poller].stop)
  }

  /** The count of a poller is the number of its live handles, and a poller
      is stopped exactly when it has none. */
  predicate CountsOwners(s: Hub) {
    forall p :: p in s.pollers ==>
      s.pollers[p].count == |Owners(s, p)| && (s.pollers[p].stop <==> s.pollers[p].count == 0)
  }

  predicate Owned(s: Hub) {
    TableListsRunning(s) && HandlesPointRight(s) && CountsOwners(s)
  }

  /** Releasing a live handle finds its key in the table, and under it the
      handle's own poller - never a missing entry or another generation. */
  lemma ReleaseHitsItsOwnPoller(s: Hub, h: HandleId)
    requires Owned(s) && h in s.handles && s.handles[h].Live?
    ensures var p := s.handles[h].poller;
      && s.handles[h].key in s.table && s.table[s.handles[h].key] == p
      && p in s.pollers && !s.pollers[p].stop && s.pollers[p].count > 0
      && (IsLast(s, s.handles[h].key) <==> Owners(s, p) == {h})
  {
    var p := s.handles[h].poller;
    assert h in Owners(s, p);
    if |Owners(s, p)| == 1 {
      OnlyMember(Owners(s, p), h);
    }
  }

  lemma OnlyMember(xs: set<HandleId>, x: HandleId)
    requires |xs| == 1 && x in xs
    ensures xs == {x}
  {
    assert xs == {x} + (xs - {x});
  }

  /** Two running pollers never share a key. */
  lemma OneRunningPollerPerKey(s: Hub, p: PollerId, q: PollerId)
    requires Owned(s) && p in s.pollers && q in s.pollers
    requires !s.pollers[p].stop && !s.pollers[q].stop && s.pollers[p].key == s.pollers[q].key
    ensures p == q
  {
  }

  /** Who owns a poller after one handle has changed. */
  lemma OwnersAfterChange(s: Hub, t: Hub, h: HandleId, p: PollerId)
    requires h in t.handles && t.handles == s.handles[h := t.handles[h]]
    ensures Owners(t, p)
         == if t.handles[h].Live? && t.handles[h].poller == p then Owners(s, p) + {h} else Owners(s, p) - {h}
  {
  }

  lemma SubscribeKeepsOwned(s: Hub, h: HandleId, key: string)
    requires Owned(s) && h !in s.handles
    ensures Owned(AfterSubscribe(s, h, key))
  {
    SubscribeKeepsTable(s, h, key);
    SubscribeKeepsHandles(s, h, key);
    SubscribeKeepsCounts(s, h, key);
  }

  lemma SubscribeKeepsTable(s: Hub, h: HandleId, key: string)
    requires Owned(s) && h !in s.handles
    ensures TableListsRunning(AfterSubscribe(s, h, key))
  {
    hide CountsOwners, HandlesPointRight;
  }

  lemma SubscribeKeepsHandles(s: Hub, h: HandleId, key: string)
    requires Owned(s) && h !in s.handles
    ensures HandlesPointRight(AfterSubscribe(s, h, key))
  {
    hide CountsOwners;
  }

  lemma SubscribeKeepsCounts(s: Hub, h: HandleId, key: string)
    requires Owned(s) && h !in s.handles
    ensures CountsOwners(AfterSubscribe(s, h, key))
  {
    var t := AfterSubscribe(s, h, key);
    forall q | q in t.pollers
      ensures t.pollers[q].count == |Owners(t, q)| && (t.pollers[q].stop <==> t.pollers[q].count == 0)
    {
      hide Owners, HandlesPointRight;
      OwnersAfterChange(s, t, h, q);
      NoOwnerYet(s, h, q);
    }
  }

  lemma NoOwnerYet(s: Hub, h: HandleId, q: PollerId)
    requires Owned(s)
    ensures h !in s.handles ==> h !in Owners(s, q)
    ensures q !in s.pollers ==> Owners(s, q) == {}
  {
  }

  /** What a release leaves of its handle: nothing, or a wait for the poller
      it was the last owner of. */
  predicate Released(s: Hub, h: HandleId, now: Handle)
    requires h in s.handles && s.handles[h].Live?
  {
    !now.Live? && (now.Joining? ==> IsLast(s, s.handles[h].key) && now.poller == s.table[s.handles[h].key])
  }

  lemma ReleaseKeepsOwned(s: Hub, h: HandleId, now: Handle)
    requires Owned(s) && h in s.handles && s.handles[h].Live? && Released(s, h, now)
    ensures var r := AfterRelease(s, s.handles[h].key); Owned(r.(handles := r.handles[h := now]))
  {
    ReleaseHitsItsOwnPoller(s, h);
    ReleaseKeepsTable(s, s.handles[h].key);
    ReleaseKeepsHandles(s, h, now);
    ReleaseKeepsCounts(s, h, now);
  }

  lemma ReleaseKeepsTable(s: Hub, key: string)
    requires Owned(s) && key in s.table
    ensures TableListsRunning(AfterRelease(s, key))
  {
    hide CountsOwners, HandlesPointRight;
  }

  lemma ReleaseKeepsHandles(s: Hub, h: HandleId, now: Handle)
    requires Owned(s) && h in s.handles && s.handles[h].Live? && Released(s, h, now)
    ensures var r := AfterRelease(s, s.handles[h].key); HandlesPointRight(r.(handles := r.handles[h := now]))
  {
    ReleaseHitsItsOwnPoller(s, h);
    hide CountsOwners;
    var p := s.handles[h].poller;
    var r := AfterRelease(s, s.handles[h].key);
    var t := r.(handles := r.handles[h := now]);
    forall g | g in t.handles && t.handles[g].Live?
      ensures t.handles[g].key in t.table && t.table[t.handles[g].key] == t.handles[g].poller
    {
      if t.handles[g].poller == p {
        assert g in Owners(s, p);
      }
    }
  }

  lemma ReleaseKeepsCounts(s: Hub, h: HandleId, now: Handle)
    requires Owned(s) && h in s.handles && s.handles[h].Live? && Released(s, h, now)
    ensures var r := AfterRelease(s, s.handles[h].key); CountsOwners(r.(handles := r.handles[h := now]))
  {
    ReleaseHitsItsOwnPoller(s, h);
    var p := s.handles[h].poller;
    var r := AfterRelease(s, s.handles[h].key);
    var t := r.(handles := r.handles[h := now]);
    forall q | q in t.pollers
      ensures t.pollers[q].count == |Owners(t, q)| && (t.pollers[q].stop <==> t.pollers[q].count == 0)
    {
      OwnersAfterChange(s, t, h, q);
      OwnedBy(s, h, q);
      hide Owners, HandlesPointRight, TableListsRunning;
    }
  }

  lemma OwnedBy(s: Hub, h: HandleId, q: PollerId)
    requires h in s.handles && s.handles[h].Live?
    ensures h in Owners(s, q) <==> s.handles[h].poller == q
  {
  }

  /** Taking over a handle moves its ownership and nothing else. */
  lemma TransferKeepsOwned(s: Hub, h: HandleId, from: HandleId)
    requires Owned(s) && from in s.handles && h != from
    requires h in s.handles ==> !s.handles[h].Live?
    ensures Owned(Transfer(s, h, from))
  {
    hide Owners;
    TransferKeepsCounts(s, h, from);
    assert HandlesPointRight(Transfer(s, h, from)) by {
      hide CountsOwners, TableListsRunning;
    }
    assert TableListsRunning(Transfer(s, h, from)) by {
      hide CountsOwners, HandlesPointRight;
    }
  }

  lemma TransferKeepsCounts(s: Hub, h: HandleId, from: HandleId)
    requires CountsOwners(s) && from in s.handles && h != from
    requires h in s.handles ==> !s.handles[h].Live?
    ensures CountsOwners(Transfer(s, h, from))
  {
    var u := s.(handles := s.handles[h := s.handles[from]]);
    var t := Transfer(s, h, from);
    forall q | q in t.pollers
      ensures |Owners(t, q)| == |Owners(s, q)|
    {
      OwnersAfterChange(s, u, h, q);
      OwnersAfterChange(u, t, from, q);
      assert h !in Owners(s, q);
      assert from in Owners(s, q) <==> s.handles[from].Live? && s.handles[from].poller == q;
      hide Owners, CountsOwners;
      if from in Owners(s, q) {
        assert Owners(t, q) == Owners(s, q) + {h} - {from};
      } else {
        assert Owners(t, q) == Owners(s, q);
      }
    }
  }

  lemma DropKeepsOwned(s: Hub, h: HandleId)
    requires Owned(s) && h in s.handles && !s.handles[h].Live?
    ensures Owned(Drop(s, h))
  {
    forall q | q in s.pollers
      ensures Owners(Drop(s, h), q) == Owners(s, q)
    {
    }
  }

  /** Steps that leave keys, counts, stop flags and the handles' targets alone. */
  predicate SameOwnership(s: Hub, t: Hub) {
    && t.table == s.table && t.next == s.next
    && t.pollers.Keys == s.pollers.Keys && t.handles.Keys == s.handles.Keys
    && (forall p :: p in s.pollers ==>
          t.pollers[p].key == s.pollers[p].key && t.pollers[p].count == s.pollers[p].count
          && t.pollers[p].stop == s.pollers[p].stop)
    && (forall h :: h in s.handles ==>
          t.handles[h] == s.handles[h]
          || (t.handles[h].Live? && s.handles[h].Live?
              && t.handles[h].key == s.handles[h].key && t.handles[h].poller == s.handles[h].poller))
  }

  lemma SameOwnershipKeepsOwned(s: Hub, t: Hub)
    requires Owned(s) && SameOwnership(s, t)
    ensures Owned(t)
  {
    forall q | q in t.pollers
      ensures Owners(t, q) == Owners(s, q)
    {
      OwnersUnchanged(s, t, q);
    }
    hide Owners;
  }

  lemma OwnersUnchanged(s: Hub, t: Hub, q: PollerId)
    requires SameOwnership(s, t)
    ensures Owners(t, q) == Owners(s, q)
  {
  }

  /** Every step of every thread keeps the ownership invariant. */
  lemma StepKeepsOwned(s: Hub, a: Action)
    requires Owned(s) && Enabled(s, a)
    ensures Owned(Apply(s, a))
  {
    hide Owned, AfterRelease, AfterSubscribe, AfterPoll, AfterWait, Transfer, Drop;
    match a
    case Subscribe(h, key) => SubscribeKeepsOwned(s, h, key);
    case MoveConstruct(h, from) => TransferKeepsOwned(s, h, from);
    case MoveAssign(h, from) =>
      if h != from {
        if s.handles[h].Live? {
          MoveAssignKeepsOwned(s, h, from);
        } else {
          TransferKeepsOwned(s, h, from);
        }
      }
    case Destroy(h) =>
      if s.handles[h].Live? {
        DestroyKeepsOwned(s, h);
      } else {
        DropKeepsOwned(s, h);
      }
    case FinishJoin(h) =>
      if s.handles[h].takes {
        TransferKeepsOwned(s, h, s.handles[h].takeFrom);
      } else {
        DropKeepsOwned(s, h);
      }
    case WaitNext(h) => WaitKeepsOwned(s, h);
    case Poll(p, value) => PollKeepsOwned(s, p, value);
  }

  lemma MoveAssignKeepsOwned(s: Hub, h: HandleId, from: HandleId)
    requires Owned(s) && Enabled(s, MoveAssign(h, from)) && h != from && s.handles[h].Live?
    ensures Owned(Apply(s, MoveAssign(h, from)))
  {
    hide Owned, AfterRelease;
    var key := s.handles[h].key;
    var r := AfterRelease(s, key);
    SameHandles(s, key);
    if IsLast(s, key) {
      ReleaseKeepsOwned(s, h, Joining(s.table[key], from, true));
    } else {
      ReleaseKeepsOwned(s, h, Empty);
      var u := r.(handles := r.handles[h := Empty]);
      TransferKeepsOwned(u, h, from);
      assert Transfer(u, h, from) == Transfer(r, h, from);
    }
  }

  lemma DestroyKeepsOwned(s: Hub, h: HandleId)
    requires Owned(s) && Enabled(s, Destroy(h)) && s.handles[h].Live?
    ensures Owned(Apply(s, Destroy(h)))
  {
    hide Owned, AfterRelease;
    var key := s.handles[h].key;
    var r := AfterRelease(s, key);
    SameHandles(s, key);
    if IsLast(s, key) {
      ReleaseKeepsOwned(s, h, Joining(s.table[key], h, false));
    } else {
      ReleaseKeepsOwned(s, h, Empty);
      var u := r.(handles := r.handles[h := Empty]);
      DropKeepsOwned(u, h);
      assert Drop(u, h) == Drop(r, h);
    }
  }

  lemma SameHandles(s: Hub, key: string)
    ensures AfterRelease(s, key).handles == s.handles
  {
  }

  lemma WaitKeepsOwned(s: Hub, h: HandleId)
    requires Owned(s)
    ensures Owned(AfterWait(s, h))
  {
    hide Owned;
    SameOwnershipKeepsOwned(s, AfterWait(s, h));
  }

  lemma PollKeepsOwned(s: Hub, p: PollerId, value: string)
    requires Owned(s) && p in s.pollers
    ensures Owned(s.(pollers := s.pollers[p := AfterPoll(s.pollers[p], value)]))
  {
    hide Owned;
    SameOwnershipKeepsOwned(s, s.(pollers := s.pollers[p := AfterPoll(s.pollers[p], value)]));
  }

  // --- Delivery ---

  /** What a handle has been given: versions that only go up, none newer than
      the last one seen, each with the value published at that version. */
  predicate GotFrom(got: seq<(nat, string)>, seen: nat, log: seq<string>) {
    && seen <= |log|
    && (forall i :: 0 <= i < |got| ==> 1 <= got[i].0 <= seen && got[i].1 == log[got[i].0 - 1])
    && (forall i, j :: 0 <= i < j < |got| ==> got[i].0 < got[j].0)
  }

  predicate GoodLog(p: Poller) {
    p.version == |p.log| && (p.version > 0 ==> p.latest == p.log[p.version - 1])
  }

  predicate Delivered(s: Hub) {
    && (forall p :: p in s.pollers ==> GoodLog(s.pollers[p]))
    && (forall h :: h in s.handles && s.handles[h].Live? ==>
          && s.handles[h].poller in s.pollers
          && GotFrom(s.handles[h].got, s.handles[h].seen, s.pollers[s.handles[h].poller].log))
  }

  /** At most one read is begun after the stop, and only a stopped thread has
      exited. */
  predicate QuietAfterStop(p: Poller) {
    && p.lateReadCount <= 1
    && (p.lateReadCount == 1 ==> p.stop && (p.point.Reading? || p.point.HasValue? || p.point.Exited?))
    && (p.point.Exited? ==> p.stop)
  }

  predicate Quiet(s: Hub) {
    forall p :: p in s.pollers ==> QuietAfterStop(s.pollers[p])
  }

  predicate Orderly(s: Hub) {
    Delivered(s) && Quiet(s)
  }

  lemma SubscribeKeepsOrderly(s: Hub, h: HandleId, key: string)
    requires TableListsRunning(s) && Orderly(s) && h !in s.handles
    ensures Orderly(AfterSubscribe(s, h, key))
  {
  }

  lemma ReleaseKeepsOrderly(s: Hub, h: HandleId, key: string, now: Handle)
    requires Orderly(s) && h in s.handles && !now.Live?
    ensures var r := AfterRelease(s, key); Orderly(r.(handles := r.handles[h := now]))
  {
  }

  lemma TransferKeepsOrderly(s: Hub, h: HandleId, from: HandleId)
    requires Orderly(s) && from in s.handles
    ensures Orderly(Transfer(s, h, from))
  {
  }

  lemma WaitKeepsOrderly(s: Hub, h: HandleId)
    requires Orderly(s)
    ensures Orderly(AfterWait(s, h))
  {
    if HasNews(s, h) {
      var now := AfterWait(s, h).handles[h];
      var log := s.pollers[now.poller].log;
      assert GotFrom(s.handles[h].got, s.handles[h].seen, log);
      assert GotFrom(now.got, now.seen, log);
    }
  }

  lemma PollKeepsOrderly(s: Hub, p: PollerId, value: string)
    requires Orderly(s) && p in s.pollers
    ensures Orderly(s.(pollers := s.pollers[p := AfterPoll(s.pollers[p], value)]))
  {
  }

  /** Every step of every thread keeps delivery in order and the poller quiet
      after its stop. */
  lemma StepKeepsOrderly(s: Hub, a: Action)
    requires Owned(s) && Orderly(s) && Enabled(s, a)
    ensures Orderly(Apply(s, a))
  {
    hide Orderly, AfterRelease, AfterSubscribe, AfterPoll, AfterWait, Transfer, Drop, CountsOwners;
    match a
    case Subscribe(h, key) => SubscribeKeepsOrderly(s, h, key);
    case MoveConstruct(h, from) => TransferKeepsOrderly(s, h, from);
    case MoveAssign(h, from) =>
      if h != from {
        if s.handles[h].Live? {
          ReleasedMoveKeepsOrderly(s, h, from);
        } else {
          TransferKeepsOrderly(s, h, from);
        }
      }
    case Destroy(h) => DestroyKeepsOrderly(s, h);
    case FinishJoin(h) =>
      if s.handles[h].takes {
        TransferKeepsOrderly(s, h, s.handles[h].takeFrom);
      } else {
        DropKeepsOrderly(s, h);
      }
    case WaitNext(h) => WaitKeepsOrderly(s, h);
    case Poll(p, value) => PollKeepsOrderly(s, p, value);
  }

  lemma ReleasedMoveKeepsOrderly(s: Hub, h: HandleId, from: HandleId)
    requires Orderly(s) && Enabled(s, MoveAssign(h, from)) && h != from && s.handles[h].Live?
    ensures Orderly(Apply(s, MoveAssign(h, from)))
  {
    hide Orderly, AfterRelease;
    var key := s.handles[h].key;
    var r := AfterRelease(s, key);
    SameHandles(s, key);
    if IsLast(s, key) {
      ReleaseKeepsOrderly(s, h, key, Joining(s.table[key], from, true));
    } else {
      ReleaseKeepsOrderly(s, h, key, Empty);
      var u := r.(handles := r.handles[h := Empty]);
      TransferKeepsOrderly(u, h, from);
      assert Transfer(u, h, from) == Transfer(r, h, from);
    }
  }

  lemma DestroyKeepsOrderly(s: Hub, h: HandleId)
    requires Orderly(s) && Enabled(s, Destroy(h))
    ensures Orderly(Apply(s, Destroy(h)))
  {
    hide Orderly, AfterRelease;
    if s.handles[h].Live? {
      var key := s.handles[h].key;
      var r := AfterRelease(s, key);
      SameHandles(s, key);
      if IsLast(s, key) {
        ReleaseKeepsOrderly(s, h, key, Joining(s.table[key], h, false));
      } else {
        ReleaseKeepsOrderly(s, h, key, Empty);
        var u := r.(handles := r.handles[h := Empty]);
        DropKeepsOrderly(u, h);
        assert Drop(u, h) == Drop(r, h);
      }
    } else {
      DropKeepsOrderly(s, h);
    }
  }

  lemma DropKeepsOrderly(s: Hub, h: HandleId)
    requires Orderly(s)
    ensures Orderly(Drop(s, h))
  {
  }

  // --- Whole runs ---

  /** In every state any interleaving can reach: counts equal live handles, a
      poller runs exactly while it has one, every handle leads to its own
      poller, deliveries are in order and stopped pollers are quiet. */
  lemma {:induction false} HubIsAlwaysSafe(s: Hub, run: seq<Action>)
    requires Owned(s) && Orderly(s) && CanRun(s, run)
    ensures Owned(After(s, run)) && Orderly(After(s, run))
    decreases |run|
  {
    hide Owned, Orderly, Enabled, Apply;
    if run != [] {
      StepKeepsOwned(s, run[0]);
      StepKeepsOrderly(s, run[0]);
      HubIsAlwaysSafe(Apply(s, run[0]), run[1..]);
    }
  }

  lemma InitialIsSafe()
    ensures Owned(INITIAL) && Orderly(INITIAL)
  {
  }

  /** So in every state reachable from the start. */
  lemma EveryReachableHubIsSafe(run: seq<Action>)
    requires CanRun(INITIAL, run)
    ensures Owned(After(INITIAL, run)) && Orderly(After(INITIAL, run))
  {
    hide Owned, Orderly, Enabled, Apply;
    InitialIsSafe();
    HubIsAlwaysSafe(INITIAL, run);
  }

  /** Only its own thread still touches a poller that has been stopped. */
  lemma OnlyItsThreadTouchesAStoppedPoller(s: Hub, a: Action, p: PollerId)
    requires Owned(s) && Enabled(s, a) && p in s.pollers && s.pollers[p].stop
    ensures p in Apply(s, a).pollers
    ensures Apply(s, a).pollers[p]
         == if a.Poll? && a.p == p then AfterPoll(s.pollers[p], a.value) else s.pollers[p]
  {
    hide CountsOwners, AfterPoll;
  }

  /** How many steps a stopped poller's thread can still take. */
  function StepsLeft(point: Point): nat {
    match point
    case Checked => 3
    case Reading => 2
    case HasValue(_) => 1
    case Published => 2
    case Top => 1
    case Waiting => 1
    case Exited => 0
  }

  function StepsOf(run: seq<Action>, p: PollerId): nat {
    if run == [] then 0 else (if run[0].Poll? && run[0].p == p then 1 else 0) + StepsOf(run[1..], p)
  }

  /** After the stop, over any further run: nothing more is published, at most
      one read is begun - and none unless the thread had just seen the flag
      clear - and each step of the thread brings its exit nearer, so that it
      has exited after at most three. */
  lemma {:induction false} StoppedPollerWindsDown(s: Hub, run: seq<Action>, p: PollerId)
    requires Owned(s) && Orderly(s) && CanRun(s, run) && p in s.pollers && s.pollers[p].stop
    ensures p in After(s, run).pollers
    ensures var before, after := s.pollers[p], After(s, run).pollers[p];
      && after.stop && after.log == before.log && after.version == before.version && after.latest == before.latest
      && after.readCount <= before.readCount + (if before.point.Checked? then 1 else 0)
      && StepsLeft(after.point) + StepsOf(run, p) <= StepsLeft(before.point)
    decreases |run|
  {
    hide Owned, Orderly, Enabled, Apply;
    if run != [] {
      OnlyItsThreadTouchesAStoppedPoller(s, run[0], p);
      StepKeepsOwned(s, run[0]);
      StepKeepsOrderly(s, run[0]);
      PollIsEnabledUntilExit(s, run[0]);
      StoppedPollerWindsDown(Apply(s, run[0]), run[1..], p);
    }
  }

  /** A poller thread can take a step exactly until it has exited. */
  lemma PollIsEnabledUntilExit(s: Hub, a: Action)
    ensures a.Poll? && a.p in s.pollers ==> (Enabled(s, a) <==> !s.pollers[a.p].point.Exited?)
  {
  }

  /** Once a release that waited for a poller has returned, no run changes
      that poller any more: it reads nothing and publishes nothing. */
  lemma {:induction false} NothingAfterTheLastRelease(s: Hub, h: HandleId, run: seq<Action>)
    requires Owned(s) && Orderly(s) && h in s.handles && s.handles[h].Joining?
    requires Enabled(s, FinishJoin(h)) && CanRun(Apply(s, FinishJoin(h)), run)
    ensures var p := s.handles[h].poller;
      var end := After(Apply(s, FinishJoin(h)), run);
      && p in s.pollers && p in end.pollers
      && end.pollers[p].readCount == s.pollers[p].readCount && end.pollers[p].log == s.pollers[p].log
      && StepsOf(run, p) == 0
  {
    hide CountsOwners, Orderly, AfterPoll;
    var t := Apply(s, FinishJoin(h));
    StepKeepsOwned(s, FinishJoin(h));
    StepKeepsOrderly(s, FinishJoin(h));
    StoppedPollerWindsDown(t, run, s.handles[h].poller);
    ReadCountsOnlyGrow(t, run, s.handles[h].poller);
  }

  lemma {:induction false} ReadCountsOnlyGrow(s: Hub, run: seq<Action>, p: PollerId)
    requires Owned(s) && CanRun(s, run) && p in s.pollers && s.pollers[p].stop
    ensures p in After(s, run).pollers && After(s, run).pollers[p].readCount >= s.pollers[p].readCount
    decreases |run|
  {
    hide Owned, Enabled, Apply;
    if run != [] {
      OnlyItsThreadTouchesAStoppedPoller(s, run[0], p);
      StepKeepsOwned(s, run[0]);
      ReadCountsOnlyGrow(Apply(s, run[0]), run[1..], p);
    }
  }

  // --- Sharing ---

  predicate HasNoSeparator(text: string) {
    SEPARATOR !in text
  }

  /** Where the first separator stands. */
  function IndexOfSeparator(s: string): nat {
    if s == "" || s[0] == SEPARATOR then 0 else 1 + IndexOfSeparator(s[1..])
  }

  lemma {:induction false} FirstSeparator(a: string, x: string)
    requires HasNoSeparator(a)
    ensures IndexOfSeparator(a + [SEPARATOR] + x) == |a|
  {
    if a != "" {
      FirstSeparator(a[1..], x);
      assert (a + [SEPARATOR] + x)[1..] == a[1..] + [SEPARATOR] + x;
    }
  }

  lemma SplitAtSeparator(a: string, b: string, x: string, y: string)
    requires HasNoSeparator(a) && HasNoSeparator(b)
    requires a + [SEPARATOR] + x == b + [SEPARATOR] + y
    ensures a == b && x == y
  {
    FirstSeparator(a, x);
    FirstSeparator(b, y);
    var s := a + [SEPARATOR] + x;
    assert a == s[..|a|] && b == s[..|b|];
    assert x == s[|a| + 1..] && y == s[|b| + 1..];
  }

  lemma IntTextInjective(m: int, n: int)
    ensures IntText(m) == IntText(n) <==> m == n
  {
    hide Decimal;
    if m >= 0 && n >= 0 {
      DecimalInjective(m, n);
    } else if m < 0 && n < 0 {
      DecimalInjective(-m, -n);
      assert IntText(m)[1..] == Decimal(-m) && IntText(n)[1..] == Decimal(-n);
    } else {
      assert IntText(m)[0] == '-' <==> m < 0;
      assert IntText(n)[0] == '-' <==> n < 0;
    }
  }

  /** Where the last separator stands, counted from the end. */
  function TailAfterSeparator(s: string): nat {
    if s == "" || s[|s| - 1] == SEPARATOR then 0 else 1 + TailAfterSeparator(s[..|s| - 1])
  }

  lemma {:induction false} LastSeparator(a: string, x: string)
    requires HasNoSeparator(x)
    ensures TailAfterSeparator(a + [SEPARATOR] + x) == |x|
  {
    var s := a + [SEPARATOR] + x;
    if x != "" {
      LastSeparator(a, x[..|x| - 1]);
      assert s[..|s| - 1] == a + [SEPARATOR] + x[..|x| - 1];
    }
  }

  lemma IntTextHasNoSeparator(n: int)
    ensures HasNoSeparator(IntText(n))
  {
  }

  /** Two subscribers share a key exactly when they ask at the same cadence and
      path, separator and id run together to the same text. */
  lemma KeysAreSharedIff(path: string, id: string, interval: int, path': string, id': string, interval': int)
    ensures Key(path, id, interval) == Key(path', id', interval')
       <==> path + [SEPARATOR] + id == path' + [SEPARATOR] + id' && interval == interval'
  {
    hide HasNoSeparator, IntText;
    var a, b := path + [SEPARATOR] + id, path' + [SEPARATOR] + id';
    var x, y := IntText(interval), IntText(interval');
    if Key(path, id, interval) == Key(path', id', interval') {
      IntTextHasNoSeparator(interval);
      IntTextHasNoSeparator(interval');
      LastSeparator(a, x);
      LastSeparator(b, y);
      var s := a + [SEPARATOR] + x;
      assert s == b + [SEPARATOR] + y;
      assert a == s[..|s| - 1 - |x|] && b == s[..|s| - 1 - |y|];
      assert x == s[|s| - |x|..] && y == s[|s| - |y|..];
      IntTextInjective(interval, interval');
    }
  }

  /** So subscribers of one item at one cadence always share a poller, and
      without separators in paths and ids nobody else joins them. */
  lemma KeysAreShared(path: string, id: string, interval: int, path': string, id': string, interval': int)
    ensures path == path' && id == id' && interval == interval' ==>
      Key(path, id, interval) == Key(path', id', interval')
    ensures HasNoSeparator(path) && HasNoSeparator(path') && Key(path, id, interval) == Key(path', id', interval') ==>
      path == path' && id == id' && interval == interval'
  {
    hide Key, HasNoSeparator, IntText;
    KeysAreSharedIff(path, id, interval, path', id', interval');
    if HasNoSeparator(path) && HasNoSeparator(path') && Key(path, id, interval) == Key(path', id', interval') {
      SplitAtSeparator(path, path', id, id');
    }
  }

  /** With a separator in a path, two different items share a poller. */
  lemma KeysMayCollide(a: string, b: string, c: string, interval: int)
    ensures Key(a, b + [SEPARATOR] + c, interval) == Key(a + [SEPARATOR] + b, c, interval)
    ensures a != a + [SEPARATOR] + b
  {
    assert a + [SEPARATOR] + (b + [SEPARATOR] + c) == a + [SEPARATOR] + b + [SEPARATOR] + c;
    assert |a + [SEPARATOR] + b| > |a|;
  }
}
