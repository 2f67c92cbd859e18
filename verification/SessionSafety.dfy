/** The heartbeat is safe under every interleaving, and an unused escalated
    session falls back in bounded time. */
module SessionSafety {
  import opened SessionManager
  import opened Wrappers

  function Max(a: int, b: int): int {
    if a < b then b else a
  }

  predicate ForegroundHolds(p: ForegroundPoint) {
    p.EnsureHolds? || p.EnsureCommits? || p.RevertHolds? || p.RevertCommits? || p.SecurityHolds? || p.SecurityCommits?
  }

  /** The mutex has the one holder its threads' points say. */
  predicate MutexAgrees(s: State) {
    && (s.mutex == Foreground <==> ForegroundHolds(s.foreground))
    && (forall id :: id in s.threads ==> (s.threads[id] == HoldsMutex <==> s.mutex == Heartbeat(id)))
    && (s.mutex.Heartbeat? ==> s.mutex.thread in s.threads)
  }

  /** At most one heartbeat is alive, and it is the one the thread object
      stands for. */
  predicate OneHeartbeat(s: State) {
    && (forall id :: id in s.threads ==> id < |s.threads|)
    && (forall id :: id in s.threads && s.threads[id] != Gone ==> s.joinable == Some(id))
    && (s.joinable.Some? ==> s.joinable.value in s.threads)
  }

  /** The old heartbeat has been joined and no new one started. */
  predicate BetweenHeartbeats(p: ForegroundPoint) {
    p.EnsureRelocks? || p.EnsureCommits? || p.RevertRelocks? || p.RevertCommits? || p.Destroyed?
  }

  predicate Stopping(p: ForegroundPoint) {
    p.Joins? || BetweenHeartbeats(p)
  }

  /** A set flag means a live heartbeat; outside a stop an escalated session
      means a set flag; and between two heartbeats there is none. */
  predicate FlagAgrees(s: State) {
    && (s.running ==> s.joinable.Some? && s.joinable.value in s.threads && s.threads[s.joinable.value] != Gone)
    && (s.session != DEFAULT_SESSION ==> s.running || Stopping(s.foreground))
    && (Stopping(s.foreground) ==> !s.running)
    && (BetweenHeartbeats(s.foreground) ==> s.joinable.None?)
    && ((s.foreground == StopsFlag(ForReturn) || s.foreground == Joins(ForReturn)) ==> s.session == DEFAULT_SESSION)
    && !s.foreground.Terminated?
  }

  predicate Safe(s: State) {
    MutexAgrees(s) && OneHeartbeat(s) && FlagAgrees(s)
  }

  lemma StartIsSafe(now: int)
    ensures Safe(Start(now))
  {
  }

  lemma CommitKeepsSafe(s: State, ok: bool)
    requires Safe(s) && s.foreground.EnsureCommits?
    ensures Safe(AfterForeground(s, ok))
  {
  }

  lemma JoinKeepsSafe(s: State, ok: bool)
    requires Safe(s) && s.foreground.Joins? && ForegroundCanStep(s)
    ensures Safe(AfterForeground(s, ok))
  {
  }

  lemma ForegroundKeepsSafe(s: State, ok: bool)
    requires Safe(s) && ForegroundCanStep(s)
    ensures Safe(AfterForeground(s, ok))
  {
    if s.foreground.EnsureCommits? {
      CommitKeepsSafe(s, ok);
    } else if s.foreground.Joins? {
      JoinKeepsSafe(s, ok);
    } else {
      var t := AfterForeground(s, ok);
      assert t.threads == s.threads && t.joinable == s.joinable;
      MutexStaysAgreed(s, ok);
    }
  }

  lemma MutexStaysAgreed(s: State, ok: bool)
    requires MutexAgrees(s) && ForegroundCanStep(s) && !s.foreground.EnsureCommits?
    ensures MutexAgrees(AfterForeground(s, ok))
  {
  }

  lemma HeartbeatKeepsSafe(c: Config, s: State, id: ThreadId)
    requires Safe(s) && HeartbeatCanStep(s, id)
    ensures Safe(AfterHeartbeat(c, s, id))
  {
  }

  lemma StepKeepsSafe(c: Config, s: State, a: Action)
    requires Safe(s) && Enabled(s, a)
    ensures Safe(Apply(c, s, a))
  {
    match a
    case Begin(_) =>
    case ForegroundStep(ok) => ForegroundKeepsSafe(s, ok);
    case HeartbeatStep(id) => HeartbeatKeepsSafe(c, s, id);
    case Tick(_) =>
  }

  /** Every state of every run is safe. */
  lemma {:induction false} SessionIsAlwaysSafe(c: Config, s: State, run: seq<Action>)
    requires Safe(s) && CanRun(c, s, run)
    ensures Safe(After(c, s, run))
    decreases |run|
  {
    hide Safe, Enabled, Apply;
    if run != [] {
      StepKeepsSafe(c, s, run[0]);
      SessionIsAlwaysSafe(c, Apply(c, s, run[0]), run[1..]);
    }
  }

  /** What that means: no two live heartbeats, never a joinable thread object
      overwritten, never a join while holding the mutex, no old heartbeat left
      when the session changes, and whenever the foreground is idle in an
      escalated session a heartbeat is running for it. */
  lemma SafeMeans(s: State, i: ThreadId, j: ThreadId)
    requires Safe(s)
    ensures i in s.threads && j in s.threads && s.threads[i] != Gone && s.threads[j] != Gone ==> i == j
    ensures s.foreground != Terminated
    ensures s.foreground.Joins? ==> s.mutex != Foreground
    ensures (s.foreground.EnsureCommits? || s.foreground.RevertCommits?) && i in s.threads ==> s.threads[i] == Gone
    ensures s.foreground == Idle && s.session != DEFAULT_SESSION ==>
      s.running && s.joinable.Some? && s.joinable.value in s.threads && s.threads[s.joinable.value] != Gone
  {
  }

  // --- A join always completes ---

  /** How many more steps a heartbeat takes once the flag is down. */
  function StepsToExit(point: HeartbeatPoint): nat {
    match point
    case LoopHead => 1
    case Sleeping(_) => 2
    case Awake => 1
    case WantsMutex => 2
    case HoldsMutex => 1
    case Sending(_) => 2
    case Gone => 0
  }

  /** A foreground that waits in a join is never deadlocked: the heartbeat it
      waits for can take a step, or is asleep until a later time that the
      clock may reach; and each step brings its exit nearer. */
  lemma JoinCompletes(c: Config, s: State)
    requires Safe(s) && s.foreground.Joins? && s.joinable.Some?
    ensures s.joinable.value in s.threads
    ensures var id := s.joinable.value;
      s.threads[id] != Gone ==>
        && (HeartbeatCanStep(s, id) ==> StepsToExit(AfterHeartbeat(c, s, id).threads[id]) < StepsToExit(s.threads[id]))
        && (!HeartbeatCanStep(s, id) ==>
              s.threads[id].Sleeping? && s.now < s.threads[id].until && TimeMayPass(s, s.threads[id].until - s.now))
  {
  }

  /** No state is stuck: a thread can take a step or time can pass. */
  lemma NeverStuck(s: State)
    requires Safe(s)
    ensures ForegroundCanStep(s) || (exists id :: HeartbeatCanStep(s, id)) || TimeMayPass(s, 1)
  {
    if s.mutex.Heartbeat? {
      assert HeartbeatCanStep(s, s.mutex.thread);
    } else if s.mutex == Nobody && !TimeMayPass(s, 1) {
      var id :| id in s.threads && !Waits(s.threads[id], s.now + 1);
      assert HeartbeatCanStep(s, id);
    }
  }

  // --- The idle fallback, in time ---

  /** The latest an escalated session that is not used again can still stand. */
  function Deadline(c: Config, s: State): int {
    Max(s.lastTouch + c.idleTimeout * MILLISECOND, s.started) + (c.interval + c.maxSend) * MILLISECOND
  }

  predicate HeartbeatOnTime(c: Config, s: State, point: HeartbeatPoint) {
    match point
    case LoopHead => s.now <= Deadline(c, s) - c.interval * MILLISECOND
    case Sleeping(until) => s.now <= until <= Deadline(c, s)
    case Sending(deadline) => s.now <= deadline <= Deadline(c, s) - c.interval * MILLISECOND
    case Gone => true
    case _ => s.now <= Deadline(c, s)
  }

  predicate OnTime(c: Config, s: State) {
    && s.lastTouch <= s.now && s.started <= s.now
    && (s.running ==> s.joinable.Some? && s.joinable.value in s.threads
                      && HeartbeatOnTime(c, s, s.threads[s.joinable.value]))
  }

  lemma ForegroundKeepsOnTime(c: Config, s: State, ok: bool)
    requires Safe(s) && OnTime(c, s) && ForegroundCanStep(s)
    ensures OnTime(c, AfterForeground(s, ok))
  {
    hide MutexAgrees, OneHeartbeat;
  }

  lemma HeartbeatKeepsOnTime(c: Config, s: State, id: ThreadId)
    requires Safe(s) && OnTime(c, s) && HeartbeatCanStep(s, id)
    ensures OnTime(c, AfterHeartbeat(c, s, id))
  {
  }

  lemma StepKeepsOnTime(c: Config, s: State, a: Action)
    requires Safe(s) && OnTime(c, s) && Enabled(s, a)
    ensures OnTime(c, Apply(c, s, a))
  {
    match a
    case Begin(_) =>
    case ForegroundStep(ok) => ForegroundKeepsOnTime(c, s, ok);
    case HeartbeatStep(id) => HeartbeatKeepsOnTime(c, s, id);
    case Tick(d) =>
      if s.running {
        assert Waits(s.threads[s.joinable.value], s.now + d);
      }
  }

  lemma {:induction false} SessionIsAlwaysOnTime(c: Config, s: State, run: seq<Action>)
    requires Safe(s) && OnTime(c, s) && CanRun(c, s, run)
    ensures Safe(After(c, s, run)) && OnTime(c, After(c, s, run))
    decreases |run|
  {
    hide Safe, OnTime, Enabled, Apply;
    if run != [] {
      StepKeepsSafe(c, s, run[0]);
      StepKeepsOnTime(c, s, run[0]);
      SessionIsAlwaysOnTime(c, Apply(c, s, run[0]), run[1..]);
    }
  }

  /** In every reachable state: an escalated session outside a stop has not
      outlived its deadline - interval plus one send after the later of the
      idle timeout and the heartbeat's start. */
  lemma EscalatedWithinDeadline(c: Config, now: int, run: seq<Action>)
    requires CanRun(c, Start(now), run)
    ensures var s := After(c, Start(now), run);
      s.session != DEFAULT_SESSION && !Stopping(s.foreground) ==> s.now <= Deadline(c, s)
  {
    StartIsSafe(now);
    SessionIsAlwaysOnTime(c, Start(now), run);
  }

  predicate Untouched(run: seq<Action>) {
    forall i :: 0 <= i < |run| ==> run[i].HeartbeatStep? || run[i].Tick?
  }

  /** The escalated session is as it was, or has fallen back with its security
      level, no earlier than the idle timeout. */
  predicate StandsOrFell(c: Config, s: State, t: State) {
    && t.foreground == Idle && t.lastTouch == s.lastTouch && t.started == s.started && t.now >= s.now
    && ((t.session == s.session && t.level == s.level)
        || (t.session == DEFAULT_SESSION && t.level == 0 && t.now >= s.lastTouch + c.idleTimeout * MILLISECOND))
  }

  lemma UntouchedStep(c: Config, s: State, t: State, a: Action)
    requires Enabled(t, a) && (a.HeartbeatStep? || a.Tick?) && StandsOrFell(c, s, t)
    ensures StandsOrFell(c, s, Apply(c, t, a))
  {
  }

  /** Idle fallback: left alone, an escalated session stands until the idle
      timeout at least, and by its deadline it has fallen back to the default
      session with security level 0. */
  lemma {:induction false} UntouchedSessionFallsBack(c: Config, s: State, run: seq<Action>)
    requires Safe(s) && OnTime(c, s) && s.foreground == Idle && s.session != DEFAULT_SESSION
    requires CanRun(c, s, run) && Untouched(run)
    ensures var t := After(c, s, run);
      && StandsOrFell(c, s, t)
      && (t.now > Deadline(c, s) ==> t.session == DEFAULT_SESSION && t.level == 0)
  {
    SessionIsAlwaysOnTime(c, s, run);
    UntouchedRun(c, s, s, run);
  }

  lemma {:induction false} UntouchedRun(c: Config, s: State, t: State, run: seq<Action>)
    requires StandsOrFell(c, s, t) && CanRun(c, t, run) && Untouched(run)
    ensures StandsOrFell(c, s, After(c, t, run))
    decreases |run|
  {
    hide StandsOrFell, Enabled, Apply;
    if run != [] {
      UntouchedStep(c, s, t, run[0]);
      UntouchedRun(c, s, Apply(c, t, run[0]), run[1..]);
    }
  }

  // --- What a revert leaves ---

  predicate NoNewCall(run: seq<Action>) {
    forall i :: 0 <= i < |run| ==> !run[i].Begin?
  }

  /** On the way from the session check of a revert to its return. */
  predicate Reverting(s: State, t: State) {
    if s.session != DEFAULT_SESSION then
      || (t.foreground == RevertHolds && t.session != DEFAULT_SESSION && t.mutex == Foreground)
      || t.foreground in {RevertSends, StopsFlag(ForRevert), Joins(ForRevert), RevertRelocks, RevertCommits}
      || (t.foreground == Idle && t.session == DEFAULT_SESSION && t.level == 0 && !t.running)
    else
      && t.foreground in {RevertHolds, StopsFlag(ForReturn), Joins(ForReturn), Idle}
      && t.session == DEFAULT_SESSION && t.level in {s.level, 0}
      && (!s.running ==> !t.running && t.level == s.level)
  }

  lemma RevertingStep(c: Config, s: State, t: State, a: Action)
    requires Safe(t) && Reverting(s, t) && Enabled(t, a) && !a.Begin?
    ensures Reverting(s, Apply(c, t, a))
  {
  }

  /** A revert that has returned leaves the default session. It leaves security
      level 0 if it found an escalated session or level 0. Found in the default
      session it does not touch the level: that is then 0 exactly if it was,
      unless a heartbeat was still running, which may reset it on its way out. */
  lemma {:induction false} RevertLeavesLevelZeroIff(c: Config, s: State, run: seq<Action>)
    requires Safe(s) && s.foreground == RevertHolds
    requires CanRun(c, s, run) && NoNewCall(run)
    ensures var t := After(c, s, run);
      t.foreground == Idle ==>
        && t.session == DEFAULT_SESSION
        && (s.session != DEFAULT_SESSION ==> t.level == 0)
        && (s.session == DEFAULT_SESSION ==> t.level in {s.level, 0})
        && (s.session != DEFAULT_SESSION || !s.running ==>
              (t.level == 0 <==> s.session != DEFAULT_SESSION || s.level == 0))
  {
    RevertingRun(c, s, s, run);
  }

  lemma {:induction false} RevertingRun(c: Config, s: State, t: State, run: seq<Action>)
    requires Safe(t) && Reverting(s, t) && CanRun(c, t, run) && NoNewCall(run)
    ensures Reverting(s, After(c, t, run))
    decreases |run|
  {
    hide Safe, Reverting, Enabled, Apply;
    if run != [] {
      StepKeepsSafe(c, t, run[0]);
      RevertingStep(c, s, t, run[0]);
      RevertingRun(c, s, Apply(c, t, run[0]), run[1..]);
    }
  }
}
