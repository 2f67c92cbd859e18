/** What is read is delivered: a running poller publishes every value its read
    returns, in order, and a subscriber that waits is given the newest one. */
module StreamHubDelivery {
  import opened StreamHub
  import opened StreamHubSafety

  // --- What a poller publishes ---

  /** The values of a thread's steps in a run. Only the step that ends a read
      looks at its value: the value that the read returned. */
  function ValuesOf(run: seq<Action>, p: PollerId): seq<string> {
    if run == [] then []
    else (if run[0].Poll? && run[0].p == p then [run[0].value] else []) + ValuesOf(run[1..], p)
  }

  /** A round is six steps - look at the flag, begin to read, end the read,
      publish, notify, wait - so that every third step of six ends a read, and
      the one after publishes what it returned. */
  function PublishedInRounds(values: seq<string>): (published: seq<string>)
    ensures |published| == (|values| + 2) / 6
    ensures forall i :: 0 <= i < |published| ==> published[i] == values[6 * i + 2]
  {
    seq((|values| + 2) / 6, i requires 0 <= i < (|values| + 2) / 6 => values[6 * i + 2])
  }

  /** The same, for a thread that is anywhere in its round. */
  function PublishedFrom(point: Point, values: seq<string>): seq<string>
    decreases |values|
  {
    if values == [] then []
    else
      match point
      case Top => PublishedFrom(Checked, values[1..])
      case Checked => PublishedFrom(Reading, values[1..])
      case Reading => PublishedFrom(HasValue(values[0]), values[1..])
      case HasValue(v) => [v] + PublishedFrom(Published, values[1..])
      case Published => PublishedFrom(Waiting, values[1..])
      case Waiting => PublishedFrom(Top, values[1..])
      case Exited => []
  }

  lemma {:induction false} PublishedFromTop(values: seq<string>)
    ensures PublishedFrom(Top, values) == PublishedInRounds(values)
    decreases |values|
  {
    if |values| >= 6 {
      PublishedFromTop(values[6..]);
      OneRound(values);
      var head, rest := values[2], PublishedInRounds(values[6..]);
      assert forall i | 0 <= i < |rest| :: values[6..][6 * i + 2] == values[6 * (i + 1) + 2];
      assert PublishedInRounds(values) == [head] + rest;
    } else {
      PartOfARound(values);
    }
  }

  lemma OneRound(values: seq<string>)
    requires |values| >= 6
    ensures PublishedFrom(Top, values) == [values[2]] + PublishedFrom(Top, values[6..])
  {
    var v := values[2];
    assert values[1..][1..] == values[2..] && values[2..][1..] == values[3..] && values[3..][1..] == values[4..];
    assert values[4..][1..] == values[5..] && values[5..][1..] == values[6..];
    assert PublishedFrom(Top, values) == PublishedFrom(Checked, values[1..]) == PublishedFrom(Reading, values[2..]);
    assert PublishedFrom(Reading, values[2..]) == PublishedFrom(HasValue(v), values[3..]);
    assert PublishedFrom(HasValue(v), values[3..]) == [v] + PublishedFrom(Published, values[4..]);
    assert PublishedFrom(Published, values[4..]) == PublishedFrom(Waiting, values[5..])
        == PublishedFrom(Top, values[6..]);
  }

  lemma PartOfARound(values: seq<string>)
    requires |values| < 6
    ensures PublishedFrom(Top, values) == PublishedInRounds(values)
  {
    if |values| >= 3 {
      var v := values[2];
      assert values[1..][1..] == values[2..] && values[2..][1..] == values[3..];
      assert PublishedFrom(Top, values) == PublishedFrom(Checked, values[1..]) == PublishedFrom(Reading, values[2..]);
      assert PublishedFrom(Reading, values[2..]) == PublishedFrom(HasValue(v), values[3..]);
      if |values| >= 4 {
        assert PublishedFrom(HasValue(v), values[3..]) == [v] + PublishedFrom(Published, values[3..][1..]);
        NothingMore(Published, values[3..][1..]);
        assert PublishedInRounds(values) == [v];
      }
    } else if |values| == 2 {
      assert values[1..][1..] == [];
      assert PublishedFrom(Top, values) == PublishedFrom(Checked, values[1..]) == PublishedFrom(Reading, []) == [];
    }
  }

  /** Two steps after publishing publish nothing. */
  lemma NothingMore(point: Point, values: seq<string>)
    requires point == Published && |values| <= 2
    ensures PublishedFrom(point, values) == []
  {
    if |values| == 2 {
      assert values[1..][1..] == [];
      assert PublishedFrom(Published, values) == PublishedFrom(Waiting, values[1..]) == PublishedFrom(Top, []) == [];
    }
  }

  lemma StopStays(s: Hub, a: Action, p: PollerId)
    requires Owned(s) && Enabled(s, a) && p in s.pollers
    ensures p in Apply(s, a).pollers
    ensures s.pollers[p].stop ==> Apply(s, a).pollers[p].stop
    ensures a.Poll? && a.p == p ==> Apply(s, a).pollers[p] == AfterPoll(s.pollers[p], a.value)
    ensures !(a.Poll? && a.p == p) ==>
      && Apply(s, a).pollers[p].log == s.pollers[p].log
      && Apply(s, a).pollers[p].point == s.pollers[p].point
  {
    hide CountsOwners, AfterPoll;
    if a.Poll? {
      PollKeepsStop(s.pollers[a.p], a.value);
    }
  }

  lemma PollKeepsStop(p: Poller, value: string)
    ensures AfterPoll(p, value).stop == p.stop
  {
  }

  lemma PollPublishes(p: Poller, value: string, values: seq<string>)
    requires !p.stop && p.point != Exited
    ensures var q := AfterPoll(p, value);
      p.log + PublishedFrom(p.point, [value] + values) == q.log + PublishedFrom(q.point, values)
  {
    assert ([value] + values)[1..] == values;
    if p.point.HasValue? {
      var v := p.point.value;
      var rest := PublishedFrom(Published, values);
      assert p.log + ([v] + rest) == p.log + [v] + rest;
    }
  }

  lemma {:induction false} StoppedStaysStopped(s: Hub, run: seq<Action>, p: PollerId)
    requires Owned(s) && CanRun(s, run) && p in s.pollers && s.pollers[p].stop
    ensures p in After(s, run).pollers && After(s, run).pollers[p].stop
    decreases |run|
  {
    hide Owned, Enabled, Apply;
    if run != [] {
      StopStays(s, run[0], p);
      StepKeepsOwned(s, run[0]);
      StoppedStaysStopped(Apply(s, run[0]), run[1..], p);
    }
  }

  lemma {:induction false} RunPublishes(s: Hub, run: seq<Action>, p: PollerId)
    requires Owned(s) && Orderly(s) && CanRun(s, run) && p in s.pollers
    requires p in After(s, run).pollers && !After(s, run).pollers[p].stop
    ensures After(s, run).pollers[p].log == s.pollers[p].log + PublishedFrom(s.pollers[p].point, ValuesOf(run, p))
    decreases |run|
  {
    hide Owned, Orderly, Enabled, Apply, AfterPoll, PublishedFrom;
    if run == [] {
      Nothing(s.pollers[p].point);
    } else {
      var a := run[0];
      var t := Apply(s, a);
      StopStays(s, a, p);
      StepKeepsOwned(s, a);
      StepKeepsOrderly(s, a);
      if s.pollers[p].stop {
        StoppedStaysStopped(t, run[1..], p);
        assert false;
      } else {
        RunPublishes(t, run[1..], p);
        if a.Poll? && a.p == p {
          PollIsEnabledUntilExit(s, a);
          PollPublishes(s.pollers[p], a.value, ValuesOf(run[1..], p));
        } else {
          assert [] + ValuesOf(run[1..], p) == ValuesOf(run[1..], p);
        }
      }
    }
  }

  lemma Nothing(point: Point)
    ensures PublishedFrom(point, []) == []
  {
  }

  /** Over any run after which a poller still runs, whatever the other threads
      do: it publishes exactly the values its reads returned, in order, one a
      round. The version counts them and the newest is at hand. */
  lemma EveryReadIsPublished(s: Hub, run: seq<Action>, p: PollerId)
    requires Owned(s) && Orderly(s) && CanRun(s, run) && p in s.pollers && s.pollers[p].point == Top
    requires p in After(s, run).pollers && !After(s, run).pollers[p].stop
    ensures var q := After(s, run).pollers[p];
      && q.log == s.pollers[p].log + PublishedInRounds(ValuesOf(run, p))
      && q.version == |q.log|
      && (q.version > 0 ==> q.latest == q.log[q.version - 1])
  {
    RunPublishes(s, run, p);
    PublishedFromTop(ValuesOf(run, p));
    HubIsAlwaysSafe(s, run);
  }

  /** In particular: the value a read returns is, after the thread's two steps
      that end the read, the newest, and the version is one more. */
  lemma ReadIsPublished(s: Hub, run: seq<Action>, p: PollerId, value: string, any: string)
    requires Owned(s) && Orderly(s) && CanRun(s, run) && p in s.pollers && s.pollers[p].point == Reading
    requires p in After(s, run).pollers && !After(s, run).pollers[p].stop
    requires ValuesOf(run, p) == [value, any]
    ensures var before, q := s.pollers[p], After(s, run).pollers[p];
      q.log == before.log + [value] && q.latest == value && q.version == before.version + 1
  {
    RunPublishes(s, run, p);
    assert [value, any][1..] == [any] && [any][1..] == [];
    assert PublishedFrom(Reading, [value, any]) == PublishedFrom(HasValue(value), [any]) == [value] + [];
    HubIsAlwaysSafe(s, run);
  }

  // --- What the counters count ---

  /** In such a step the thread goes into its read function. */
  predicate BeginsToRead(s: Hub, a: Action, p: PollerId)
    requires Enabled(s, a)
  {
    var t := Apply(s, a);
    p in s.pollers && p in t.pollers && !s.pollers[p].point.Reading? && t.pollers[p].point.Reading?
  }

  /** How often it does in a run, or only after the stop. */
  function ReadsBegun(s: Hub, run: seq<Action>, p: PollerId, afterStop: bool): nat
    requires CanRun(s, run)
    decreases |run|
  {
    if run == [] then 0
    else
      (if BeginsToRead(s, run[0], p) && (!afterStop || s.pollers[p].stop) then 1 else 0)
      + ReadsBegun(Apply(s, run[0]), run[1..], p, afterStop)
  }

  lemma StepCounts(s: Hub, a: Action, p: PollerId)
    requires Owned(s) && Enabled(s, a) && p in s.pollers
    ensures p in Apply(s, a).pollers
    ensures var before, after := s.pollers[p], Apply(s, a).pollers[p];
      && after.readCount == before.readCount + (if BeginsToRead(s, a, p) then 1 else 0)
      && after.lateReadCount == before.lateReadCount + (if BeginsToRead(s, a, p) && before.stop then 1 else 0)
  {
    hide CountsOwners;
  }

  lemma NewPollerCounts(s: Hub, a: Action, p: PollerId)
    requires Enabled(s, a) && p !in s.pollers && p in Apply(s, a).pollers
    ensures Apply(s, a).pollers[p].readCount == 0 && Apply(s, a).pollers[p].lateReadCount == 0
  {
  }

  /** The counters of reads that the laws on a stopped poller speak of count
      exactly the reads begun, in any run and from a poller's first step. */
  lemma {:induction false} CountersCountReads(s: Hub, run: seq<Action>, p: PollerId)
    requires Owned(s) && CanRun(s, run) && p in After(s, run).pollers
    ensures var q := After(s, run).pollers[p];
      && q.readCount == (if p in s.pollers then s.pollers[p].readCount else 0) + ReadsBegun(s, run, p, false)
      && q.lateReadCount == (if p in s.pollers then s.pollers[p].lateReadCount else 0) + ReadsBegun(s, run, p, true)
    decreases |run|
  {
    hide Owned, Enabled, Apply;
    if run != [] {
      var a := run[0];
      StepKeepsOwned(s, a);
      CountersCountReads(Apply(s, a), run[1..], p);
      if p in s.pollers {
        StepCounts(s, a, p);
      } else if p in Apply(s, a).pollers {
        NewPollerCounts(s, a, p);
      }
    }
  }

  // --- What a subscriber is given ---

  /** A wait on a live handle gives the newest value and its version exactly if
      that is newer than the last one seen; otherwise nothing changes. */
  lemma WaitDeliversIff(s: Hub, h: HandleId)
    requires Owned(s) && Orderly(s) && h in s.handles && s.handles[h].Live?
    ensures var before, after := s.handles[h], Apply(s, WaitNext(h)).handles[h];
      var p := s.pollers[before.poller];
      && after.Live? && after.poller == before.poller && after.key == before.key
      && (p.version > before.seen ==>
            after.seen == p.version && after.got == before.got + [(p.version, p.log[p.version - 1])])
      && (p.version == before.seen ==> after == before)
      && p.version >= before.seen
  {
    ReleaseHitsItsOwnPoller(s, h);
  }

  /** Whoever subscribes to a poller that has published is given the newest
      value at the first wait. */
  lemma NewSubscriberIsGivenTheNewest(s: Hub, h: HandleId, key: string)
    requires Owned(s) && Orderly(s) && h !in s.handles && key in s.table && s.pollers[s.table[key]].version > 0
    ensures var t := Apply(s, Subscribe(h, key));
      var p := s.pollers[s.table[key]];
      && Enabled(t, WaitNext(h))
      && Apply(t, WaitNext(h)).handles[h].Live?
      && Apply(t, WaitNext(h)).handles[h].got == [(p.version, p.log[p.version - 1])]
  {
    var t := Apply(s, Subscribe(h, key));
    StepKeepsOwned(s, Subscribe(h, key));
    StepKeepsOrderly(s, Subscribe(h, key));
    WaitDeliversIff(t, h);
    FreshHandle(s, h, key);
  }

  lemma FreshHandle(s: Hub, h: HandleId, key: string)
    requires Owned(s) && h !in s.handles && key in s.table
    ensures var t := AfterSubscribe(s, h, key);
      && h in t.handles && t.handles[h].Live? && t.handles[h].got == [] && t.handles[h].seen == 0
      && t.handles[h].poller == s.table[key] && t.handles[h].key == key
      && t.pollers[s.table[key]].version == s.pollers[s.table[key]].version
      && t.pollers[s.table[key]].log == s.pollers[s.table[key]].log
  {
  }

  // --- Moves, and the ends of joins ---

  /** The handles that an action is about. */
  predicate Concerns(s: Hub, a: Action, h: HandleId) {
    match a
    case Subscribe(g, _) => h == g
    case MoveConstruct(g, from) => h == g || h == from
    case MoveAssign(g, from) => h == g || h == from
    case Destroy(g) => h == g
    case FinishJoin(g) => h == g || (g in s.handles && s.handles[g].Joining? && h == s.handles[g].takeFrom)
    case WaitNext(g) => h == g
    case Poll(_, _) => false
  }

  /** No action reaches a handle that it is not about. */
  lemma OtherHandlesStay(s: Hub, a: Action, h: HandleId)
    requires Enabled(s, a) && !Concerns(s, a, h)
    ensures h in Apply(s, a).handles <==> h in s.handles
    ensures h in s.handles ==> Apply(s, a).handles[h] == s.handles[h]
  {
    hide AfterPoll;
  }

  /** A subscription that is moved goes on where it was: the handle it is moved
      into has its poller, its last version seen and all it was given, and the
      other one has nothing. If the handle it is moved into was the last of
      another poller, that is so once the join is over, and before that it has
      not moved. A handle moved into itself is as it was. */
  lemma MovedSubscriptionGoesOn(s: Hub, h: HandleId, from: HandleId)
    requires IsIdle(s, h) && IsIdle(s, from) && h != from
    ensures var t := Apply(s, MoveAssign(h, from));
      if s.handles[h].Live? && IsLast(s, s.handles[h].key)
      then t.handles[from] == s.handles[from] && t.handles[h] == Joining(s.table[s.handles[h].key], from, true)
      else t.handles[h] == s.handles[from] && t.handles[from] == Empty
    ensures Apply(s, MoveAssign(h, h)) == s
  {
  }

  lemma ConstructedSubscriptionGoesOn(s: Hub, h: HandleId, from: HandleId)
    requires h !in s.handles && IsIdle(s, from)
    ensures var t := Apply(s, MoveConstruct(h, from));
      && t.handles[h] == s.handles[from] && t.handles[from] == Empty
      && t.pollers == s.pollers && t.table == s.table
  {
  }

  /** So does a subscription that had to wait for a join. */
  lemma JoinedMoveGoesOn(s: Hub, h: HandleId)
    requires Enabled(s, FinishJoin(h))
    ensures var t := Apply(s, FinishJoin(h));
      && (s.handles[h].takes ==>
            && t.handles[h] == s.handles[s.handles[h].takeFrom]
            && t.handles[s.handles[h].takeFrom] == Empty)
      && (!s.handles[h].takes ==> h !in t.handles)
      && t.pollers == s.pollers && t.table == s.table
  {
  }

  /** Steps of one thread, each with the same result of a read. */
  function Polls(p: PollerId, n: nat): seq<Action> {
    if n == 0 then [] else [Poll(p, "")] + Polls(p, n - 1)
  }

  lemma StoppedStepIsNearer(p: Poller)
    requires p.stop && !p.point.Exited?
    ensures StepsLeft(AfterPoll(p, "").point) < StepsLeft(p.point)
  {
  }

  /** A join is never stuck: at most three steps of the thread that is waited
      for, which nothing can hold up, and the release can return. */
  lemma {:induction false} JoinReturns(s: Hub, h: HandleId) returns (n: nat)
    requires Owned(s) && h in s.handles && s.handles[h].Joining?
    requires s.handles[h].takes ==> s.handles[h].takeFrom != h && IsIdle(s, s.handles[h].takeFrom)
    ensures n <= StepsLeft(s.pollers[s.handles[h].poller].point) <= 3 && CanRun(s, Polls(s.handles[h].poller, n))
    ensures Enabled(After(s, Polls(s.handles[h].poller, n)), FinishJoin(h))
    decreases StepsLeft(s.pollers[s.handles[h].poller].point)
  {
    hide CountsOwners, AfterPoll;
    var p := s.handles[h].poller;
    if s.pollers[p].point.Exited? {
      n := 0;
    } else {
      var t := Apply(s, Poll(p, ""));
      StepKeepsOwned(s, Poll(p, ""));
      StoppedStepIsNearer(s.pollers[p]);
      var m := JoinReturns(t, h);
      n := m + 1;
    }
  }
}
