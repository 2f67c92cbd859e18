/** The idle fallback is not only safe but certain: an escalated session that
    is left alone does fall back, on every run that goes on. */
module SessionLiveness {
  import opened SessionManager
  import opened SessionSafety
  import opened Wrappers

  predicate FellBack(s: State) {
    s.session == DEFAULT_SESSION && s.level == 0
  }

  /** An escalated session between two foreground calls, as any run leaves it. */
  predicate Escalated(c: Config, s: State) {
    Safe(s) && OnTime(c, s) && s.foreground == Idle && s.session != DEFAULT_SESSION
  }

  /** What any run from the start leaves, whenever no call is being made. */
  lemma RunsEscalate(c: Config, now: int, run: seq<Action>)
    requires CanRun(c, Start(now), run)
    ensures var s := After(c, Start(now), run);
      s.foreground == Idle && s.session != DEFAULT_SESSION ==> Escalated(c, s)
  {
    hide Safe, OnTime;
    StartIsSafe(now);
    assert OnTime(c, Start(now)) by { StartIsOnTime(c, now); }
    SessionIsAlwaysOnTime(c, Start(now), run);
  }

  lemma StartIsOnTime(c: Config, now: int)
    ensures OnTime(c, Start(now))
  {
  }

  /** Where the heartbeat of an escalated session stands. */
  function Point(c: Config, s: State): (point: HeartbeatPoint)
    requires Escalated(c, s)
    ensures point != Gone && HeartbeatOnTime(c, s, point)
  {
    s.threads[s.joinable.value]
  }

  /** A round of the heartbeat takes time. */
  predicate TakesTime(c: Config) {
    c.interval + c.maxSend >= 1
  }

  /** A round takes time, or there is none left to wait for. */
  predicate CanFall(c: Config, s: State) {
    TakesTime(c) || IdleFor(s) >= c.idleTimeout
  }

  /** Heartbeat steps until time has to pass: in the sleep if that takes time,
      or else in the send. */
  function StepsAtOnce(c: Config, now: int, point: HeartbeatPoint): nat {
    var fromSleep := if c.interval >= 1 then 6 else 4;
    match point
    case Sleeping(until) => if now < until then 0 else fromSleep
    case Awake => fromSleep - 1
    case WantsMutex => fromSleep - 2
    case HoldsMutex => fromSleep - 3
    case Sending(deadline) => if c.interval >= 1 then 2 else if now < deadline then 0 else 6
    case LoopHead => if c.interval >= 1 then 1 else 5
    case Gone => 0
  }

  /** What happens next: the heartbeat steps, or time passes to the end of its
      sleep or its send. */
  function NextAction(c: Config, s: State): (a: Action)
    requires Escalated(c, s)
    ensures a.HeartbeatStep? || a.Tick?
  {
    var point := Point(c, s);
    if point.Sleeping? && s.now < point.until then Tick(point.until - s.now)
    else if point.Sending? && c.interval == 0 && s.now < point.deadline then Tick(point.deadline - s.now)
    else HeartbeatStep(s.joinable.value)
  }

  /** It can happen, and either the session falls back or the deadline, or the
      next wait, is nearer. */
  lemma NextActionProgresses(c: Config, s: State)
    requires Escalated(c, s) && CanFall(c, s)
    ensures Enabled(s, NextAction(c, s))
    ensures var t := Apply(c, s, NextAction(c, s));
      && t.now <= Deadline(c, s) == Deadline(c, t)
      && (FellBack(t)
          || (Escalated(c, t) && CanFall(c, t)
              && (s.now < t.now
                  || (s.now == t.now
                      && StepsAtOnce(c, t.now, Point(c, t)) < StepsAtOnce(c, s.now, Point(c, s))))))
  {
    hide Safe;
    NextActionIsEnabled(c, s);
    StepKeepsSafe(c, s, NextAction(c, s));
    StepKeepsOnTime(c, s, NextAction(c, s));
  }

  lemma NextActionIsEnabled(c: Config, s: State)
    requires Escalated(c, s)
    ensures Enabled(s, NextAction(c, s))
  {
  }

  /** Idle fallback, reached: from any escalated session the heartbeat and the
      clock alone lead to the default session with security level 0, no later
      than the deadline. */
  lemma {:induction false} FallbackIsReached(c: Config, s: State) returns (run: seq<Action>)
    requires Escalated(c, s) && CanFall(c, s)
    ensures CanRun(c, s, run) && Untouched(run)
    ensures var t := After(c, s, run); FellBack(t) && t.now <= Deadline(c, s)
    decreases Deadline(c, s) - s.now, StepsAtOnce(c, s.now, Point(c, s))
  {
    hide Escalated, CanFall, StepsAtOnce, Enabled, Apply;
    var a := NextAction(c, s);
    NextActionProgresses(c, s);
    var t := Apply(c, s, a);
    var rest := [];
    if !FellBack(t) {
      rest := FallbackIsReached(c, t);
    }
    run := [a] + rest;
    assert run[1..] == rest;
  }

  // --- No run can put it off ---

  /** Time, six times over, plus the share of an interval that the heartbeat's
      steps since its last wake-up have used up: each step adds an interval. */
  function Pace(c: Config, now: int, point: HeartbeatPoint): int {
    var interval := c.interval * MILLISECOND;
    match point
    case Sleeping(until) => 6 * until
    case Awake => 6 * now + interval
    case WantsMutex => 6 * now + 2 * interval
    case HoldsMutex => 6 * now + 3 * interval
    case Sending(_) => 6 * now + 4 * interval
    case LoopHead => 6 * now + 5 * interval
    case Gone => 6 * now + 6 * interval
  }

  function HeartbeatSteps(run: seq<Action>): nat {
    if run == [] then 0 else (if run[0].HeartbeatStep? then 1 else 0) + HeartbeatSteps(run[1..])
  }

  lemma StepKeepsPace(c: Config, s: State, a: Action)
    requires Escalated(c, s) && Enabled(s, a) && (a.HeartbeatStep? || a.Tick?)
    ensures var t := Apply(c, s, a);
      && Deadline(c, t) == Deadline(c, s) && t.lastTouch == s.lastTouch && t.foreground == Idle
      && (t.session != DEFAULT_SESSION ==>
            && Escalated(c, t)
            && Pace(c, t.now, Point(c, t))
               >= Pace(c, s.now, Point(c, s)) + (if a.HeartbeatStep? then c.interval * MILLISECOND else 0))
  {
    hide Safe;
    StepKeepsSafe(c, s, a);
    StepKeepsOnTime(c, s, a);
    StepIsOfTheLiveHeartbeat(s, a);
  }

  lemma StepIsOfTheLiveHeartbeat(s: State, a: Action)
    requires Safe(s) && Enabled(s, a)
    ensures a.HeartbeatStep? ==> s.joinable == Some(a.thread)
    ensures a.Tick? && s.joinable.Some? ==>
      s.joinable.value in s.threads && Waits(s.threads[s.joinable.value], s.now + a.d)
  {
  }

  lemma DefaultStaysDefault(c: Config, s: State, a: Action)
    requires Enabled(s, a) && (a.HeartbeatStep? || a.Tick?) && s.session == DEFAULT_SESSION
    ensures Apply(c, s, a).session == DEFAULT_SESSION
  {
  }

  /** A run after which the session still stands has kept the pace. */
  lemma {:induction false} RunKeepsPace(c: Config, s: State, run: seq<Action>)
    requires Escalated(c, s) && CanRun(c, s, run) && Untouched(run)
    requires After(c, s, run).session != DEFAULT_SESSION
    ensures var t := After(c, s, run);
      && Escalated(c, t) && Deadline(c, t) == Deadline(c, s)
      && Pace(c, t.now, Point(c, t)) >= Pace(c, s.now, Point(c, s)) + HeartbeatSteps(run) * (c.interval * MILLISECOND)
    decreases |run|
  {
    hide Escalated, Enabled, Apply, Pace;
    if run != [] {
      StepKeepsPace(c, s, run[0]);
      if Apply(c, s, run[0]).session == DEFAULT_SESSION {
        StaysDefault(c, Apply(c, s, run[0]), run[1..]);
      } else {
        RunKeepsPace(c, Apply(c, s, run[0]), run[1..]);
        Distribute(HeartbeatSteps(run[1..]), if run[0].HeartbeatStep? then 1 else 0, c.interval * MILLISECOND);
      }
    }
  }

  lemma Distribute(m: int, n: int, x: int)
    ensures (n + m) * x == n * x + m * x
  {
  }

  lemma {:induction false} StaysDefault(c: Config, s: State, run: seq<Action>)
    requires s.session == DEFAULT_SESSION && CanRun(c, s, run) && Untouched(run)
    ensures After(c, s, run).session == DEFAULT_SESSION
    decreases |run|
  {
    hide Enabled, Apply;
    if run != [] {
      DefaultStaysDefault(c, s, run[0]);
      StaysDefault(c, Apply(c, s, run[0]), run[1..]);
    }
  }

  lemma PaceBounds(c: Config, s: State)
    requires Escalated(c, s)
    ensures 6 * s.now <= Pace(c, s.now, Point(c, s)) <= 6 * (Deadline(c, s) + c.interval * MILLISECOND)
  {
  }

  /** No run puts the fallback off. One that has not come to it yet is before
      the deadline, its heartbeat has taken no more than six steps for every
      interval up to there, and there is an action with which it can go on. So
      with an interval of at least a millisecond, a run in which the heartbeat
      steps and the clock moves whenever they can has to come to it. */
  lemma FallbackIsInevitable(c: Config, s: State, run: seq<Action>)
    requires Escalated(c, s) && CanRun(c, s, run) && Untouched(run)
    ensures var t := After(c, s, run);
      FellBack(t)
      || (&& Escalated(c, t) && Deadline(c, t) == Deadline(c, s) && t.now <= Deadline(c, s)
          && HeartbeatSteps(run) * (c.interval * MILLISECOND) <= 6 * (Deadline(c, s) - s.now + c.interval * MILLISECOND)
          && Enabled(t, NextAction(c, t)))
  {
    hide Escalated, Pace, Enabled;
    EscalatedMeans(c, s);
    UntouchedSessionFallsBack(c, s, run);
    var t := After(c, s, run);
    if t.session != DEFAULT_SESSION {
      RunKeepsPace(c, s, run);
      PaceBounds(c, s);
      PaceBounds(c, t);
      NextActionIsEnabled(c, t);
      assert HeartbeatOnTime(c, t, Point(c, t)) && Point(c, t) != Gone;
    }
  }

  lemma EscalatedMeans(c: Config, s: State)
    ensures Escalated(c, s) <==> Safe(s) && OnTime(c, s) && s.foreground == Idle && s.session != DEFAULT_SESSION
  {
  }

  // --- A round that takes no time ---

  /** The heartbeat is not waiting for a later time. */
  predicate AtWork(now: int, point: HeartbeatPoint) {
    match point
    case Sleeping(until) => until <= now
    case Sending(deadline) => deadline <= now
    case _ => true
  }

  predicate SpinsFrom(c: Config, s: State, t: State) {
    && Escalated(c, t) && AtWork(t.now, Point(c, t))
    && t.now == s.now && t.lastTouch == s.lastTouch
  }

  lemma SpinStep(c: Config, s: State, t: State, a: Action)
    requires !TakesTime(c) && IdleFor(s) < c.idleTimeout
    requires SpinsFrom(c, s, t) && Enabled(t, a) && (a.HeartbeatStep? || a.Tick?)
    ensures SpinsFrom(c, s, Apply(c, t, a))
  {
    hide Safe;
    StepKeepsSafe(c, t, a);
    StepKeepsOnTime(c, t, a);
    StepIsOfTheLiveHeartbeat(t, a);
    EscalatedIsRunning(c, t);
  }

  lemma EscalatedIsRunning(c: Config, s: State)
    requires Escalated(c, s)
    ensures s.running && s.joinable.Some? && s.joinable.value in s.threads
  {
  }

  lemma {:induction false} SpinsForever(c: Config, s: State, t: State, run: seq<Action>)
    requires !TakesTime(c) && IdleFor(s) < c.idleTimeout
    requires SpinsFrom(c, s, t) && CanRun(c, t, run) && Untouched(run)
    ensures SpinsFrom(c, s, After(c, t, run))
    decreases |run|
  {
    hide SpinsFrom, Enabled, Apply;
    if run != [] {
      SpinStep(c, s, t, run[0]);
      SpinsForever(c, s, Apply(c, t, run[0]), run[1..]);
    }
  }

  /** The model lets steps take no time at all, so that the fallback of a
      heartbeat at work can be reached exactly if a round takes time - an
      interval or a send of at least a millisecond - or the timeout is over. */
  lemma FallbackIsReachedIff(c: Config, s: State)
    requires Escalated(c, s) && AtWork(s.now, Point(c, s))
    ensures (exists run :: CanRun(c, s, run) && Untouched(run) && FellBack(After(c, s, run))) <==> CanFall(c, s)
  {
    hide Escalated, AtWork;
    if CanFall(c, s) {
      var run := FallbackIsReached(c, s);
    } else {
      forall run | CanRun(c, s, run) && Untouched(run)
        ensures !FellBack(After(c, s, run))
      {
        SpinsForever(c, s, s, run);
        EscalatedMeans(c, After(c, s, run));
      }
    }
  }
}
