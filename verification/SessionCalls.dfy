/** What a call has done by the time it returns, whatever the heartbeat did
    meanwhile: the session has been touched, and it, or the security level, is
    what was asked for exactly as far as the ECU confirmed it. */
module SessionCalls {
  import opened SessionManager
  import opened SessionSafety

  predicate UsesSession(p: ForegroundPoint) {
    p.EnsureEntry? || p.SecurityEntry?
  }

  /** The call has not got as far as touching the session. */
  predicate Untouching(p: ForegroundPoint) {
    p.EnsureEntry? || p.EnsureHolds? || p.SecurityEntry? || p.SecurityHolds?
  }

  predicate Touches(begun: int, t: State) {
    begun <= t.now && (Untouching(t.foreground) || begun <= t.lastTouch)
  }

  lemma TouchesStep(c: Config, begun: int, t: State, a: Action)
    requires Touches(begun, t) && Enabled(t, a) && !a.Begin?
    ensures Touches(begun, Apply(c, t, a))
  {
  }

  lemma {:induction false} TouchesRun(c: Config, begun: int, t: State, run: seq<Action>)
    requires Touches(begun, t) && CanRun(c, t, run) && NoNewCall(run)
    ensures Touches(begun, After(c, t, run))
    decreases |run|
  {
    hide Touches, Enabled, Apply;
    if run != [] {
      TouchesStep(c, begun, t, run[0]);
      TouchesRun(c, begun, Apply(c, t, run[0]), run[1..]);
    }
  }

  /** Using a session touches it: when EnsureSession or EnsureSecurityLevel
      returns, the last touch is no earlier than the call. */
  lemma UseTouches(c: Config, s: State, run: seq<Action>)
    requires UsesSession(s.foreground) && CanRun(c, s, run) && NoNewCall(run)
    ensures After(c, s, run).foreground == Idle ==> After(c, s, run).lastTouch >= s.now
  {
    TouchesRun(c, s.now, s, run);
  }

  /** So a session that is used stands, if no other call is made, until the
      idle timeout has passed since that use began. */
  lemma UsedSessionStands(c: Config, s: State, call: seq<Action>, idle: seq<Action>)
    requires Safe(s) && OnTime(c, s) && UsesSession(s.foreground)
    requires CanRun(c, s, call) && NoNewCall(call)
    requires After(c, s, call).foreground == Idle && After(c, s, call).session != DEFAULT_SESSION
    requires CanRun(c, After(c, s, call), idle) && Untouched(idle)
    ensures var returned := After(c, s, call);
      var t := After(c, returned, idle);
      t.now < s.now + c.idleTimeout * 1_000_000 ==> t.session == returned.session && t.level == returned.level
  {
    hide Safe, OnTime;
    SessionIsAlwaysOnTime(c, s, call);
    UseTouches(c, s, call);
    UntouchedSessionFallsBack(c, After(c, s, call), idle);
  }

  // --- What the answers of the ECU decide ---

  /** Every send of the run comes back as expected, or none does. */
  predicate AllAnswered(run: seq<Action>, ok: bool) {
    forall i :: 0 <= i < |run| && run[i].ForegroundStep? ==> run[i].ok == ok
  }

  /** Fallen back, and not before the idle timeout. */
  predicate FellSince(c: Config, begun: int, t: State) {
    t.session == DEFAULT_SESSION && t.level == 0 && t.now >= begun + c.idleTimeout * MILLISECOND
  }

  predicate Ensuring(c: Config, begun: int, session: int, t: State) {
    && Touches(begun, t)
    && (t.foreground in {EnsureEntry(session), EnsureHolds(session), EnsureSends(session),
                         StopsFlag(ForSession(session)), Joins(ForSession(session)),
                         EnsureRelocks(session), EnsureCommits(session)}
        || (t.foreground == Idle && (t.session == session || FellSince(c, begun, t))))
  }

  lemma EnsuringStep(c: Config, begun: int, session: int, t: State, a: Action)
    requires Safe(t) && Ensuring(c, begun, session, t) && Enabled(t, a) && !a.Begin?
    requires a.ForegroundStep? ==> a.ok
    ensures Ensuring(c, begun, session, Apply(c, t, a))
  {
    TouchesStep(c, begun, t, a);
  }

  lemma {:induction false} EnsuringRun(c: Config, begun: int, session: int, t: State, run: seq<Action>)
    requires Safe(t) && Ensuring(c, begun, session, t) && CanRun(c, t, run) && NoNewCall(run) && AllAnswered(run, true)
    ensures Ensuring(c, begun, session, After(c, t, run))
    decreases |run|
  {
    hide Safe, Ensuring, Enabled, Apply;
    if run != [] {
      StepKeepsSafe(c, t, run[0]);
      EnsuringStep(c, begun, session, t, run[0]);
      EnsuringRun(c, begun, session, Apply(c, t, run[0]), run[1..]);
    }
  }

  /** An EnsureSession whose requests are confirmed returns in the session asked
      for, unless the idle timeout has run out since it was called. */
  lemma ConfirmedSessionIsIn(c: Config, s: State, session: int, run: seq<Action>)
    requires Safe(s) && s.foreground == EnsureEntry(session)
    requires CanRun(c, s, run) && NoNewCall(run) && AllAnswered(run, true)
    ensures var t := After(c, s, run);
      t.foreground == Idle ==> t.session == session || FellSince(c, s.now, t)
  {
    EnsuringRun(c, s.now, session, s, run);
  }

  predicate Unlocking(c: Config, begun: int, level: nat, t: State) {
    && Touches(begun, t)
    && (t.foreground in {SecurityEntry(level), SecurityHolds(level), SecuritySends(level),
                         SecurityRelocks(level), SecurityCommits(level)}
        || (t.foreground == Idle && (t.level >= level || FellSince(c, begun, t))))
  }

  lemma UnlockingStep(c: Config, begun: int, level: nat, t: State, a: Action)
    requires Unlocking(c, begun, level, t) && Enabled(t, a) && !a.Begin?
    requires a.ForegroundStep? ==> a.ok
    ensures Unlocking(c, begun, level, Apply(c, t, a))
  {
    TouchesStep(c, begun, t, a);
  }

  lemma {:induction false} UnlockingRun(c: Config, begun: int, level: nat, t: State, run: seq<Action>)
    requires Unlocking(c, begun, level, t) && CanRun(c, t, run) && NoNewCall(run) && AllAnswered(run, true)
    ensures Unlocking(c, begun, level, After(c, t, run))
    decreases |run|
  {
    hide Unlocking, Enabled, Apply;
    if run != [] {
      UnlockingStep(c, begun, level, t, run[0]);
      UnlockingRun(c, begun, level, Apply(c, t, run[0]), run[1..]);
    }
  }

  /** An EnsureSecurityLevel whose requests are confirmed returns with at least
      the level asked for, unless the idle timeout has run out since. */
  lemma ConfirmedLevelIsUnlocked(c: Config, s: State, level: nat, run: seq<Action>)
    requires s.foreground == SecurityEntry(level)
    requires CanRun(c, s, run) && NoNewCall(run) && AllAnswered(run, true)
    ensures var t := After(c, s, run);
      t.foreground == Idle ==> t.level >= level || FellSince(c, s.now, t)
  {
    UnlockingRun(c, s.now, level, s, run);
  }

  /** As it was, or fallen back; on the way through a call that gets nothing
      confirmed. */
  predicate Refused(s: State, t: State) {
    && (t.foreground.EnsureEntry? || t.foreground.EnsureHolds? || t.foreground.EnsureSends?
        || t.foreground.SecurityEntry? || t.foreground.SecurityHolds? || t.foreground.SecuritySends?
        || t.foreground == Idle)
    && ((t.session == s.session && t.level == s.level) || (t.session == DEFAULT_SESSION && t.level == 0))
  }

  lemma RefusedStep(c: Config, s: State, t: State, a: Action)
    requires Refused(s, t) && Enabled(t, a) && !a.Begin?
    requires a.ForegroundStep? ==> !a.ok
    ensures Refused(s, Apply(c, t, a))
  {
  }

  lemma {:induction false} RefusedRun(c: Config, s: State, t: State, run: seq<Action>)
    requires Refused(s, t) && CanRun(c, t, run) && NoNewCall(run) && AllAnswered(run, false)
    ensures Refused(s, After(c, t, run))
    decreases |run|
  {
    hide Refused, Enabled, Apply;
    if run != [] {
      RefusedStep(c, s, t, run[0]);
      RefusedRun(c, s, Apply(c, t, run[0]), run[1..]);
    }
  }

  /** A call whose requests the ECU refuses changes neither session nor level;
      only the idle fallback may. */
  lemma RefusedCallChangesNothing(c: Config, s: State, run: seq<Action>)
    requires UsesSession(s.foreground) && CanRun(c, s, run) && NoNewCall(run) && AllAnswered(run, false)
    ensures var t := After(c, s, run);
      (t.session == s.session && t.level == s.level) || (t.session == DEFAULT_SESSION && t.level == 0)
  {
    RefusedRun(c, s, s, run);
  }

  /** A session already in force is not asked for again, nor a level already
      held: the call returns from where it touches the session, and the
      heartbeat goes on as it was. Otherwise it goes on to send. */
  lemma WhatIsInForceIsKept(s: State, ok: bool)
    requires s.foreground.EnsureHolds? || s.foreground.SecurityHolds?
    ensures var t := AfterForeground(s, ok);
      && t.session == s.session && t.level == s.level && t.running == s.running
      && t.threads == s.threads && t.joinable == s.joinable && t.mutex == Nobody
      && (s.foreground.EnsureHolds? ==>
            (t.foreground == Idle <==> s.session == s.foreground.session)
            && (t.foreground != Idle ==> t.foreground == EnsureSends(s.foreground.session)))
      && (s.foreground.SecurityHolds? ==>
            (t.foreground == Idle <==> s.level >= s.foreground.level)
            && (t.foreground != Idle ==> t.foreground == SecuritySends(s.foreground.level)))
  {
  }

  // --- How long a call takes ---

  /** How many steps of its own a call has still ahead of it at most. */
  function StepsToReturn(p: ForegroundPoint): nat {
    match p
    case EnsureEntry(_) | RevertEntry => 7
    case EnsureHolds(_) | RevertHolds => 6
    case EnsureSends(_) | RevertSends | SecurityEntry(_) => 5
    case StopsFlag(_) | SecurityHolds(_) => 4
    case Joins(_) | SecuritySends(_) => 3
    case EnsureRelocks(_) | RevertRelocks | SecurityRelocks(_) => 2
    case EnsureCommits(_) | RevertCommits | SecurityCommits(_) => 1
    case Idle | Destroyed | Terminated => 0
  }

  function ForegroundSteps(run: seq<Action>): nat {
    if run == [] then 0 else (if run[0].ForegroundStep? then 1 else 0) + ForegroundSteps(run[1..])
  }

  lemma StepIsNearer(c: Config, s: State, a: Action)
    requires Enabled(s, a) && !a.Begin?
    ensures StepsToReturn(Apply(c, s, a).foreground) + (if a.ForegroundStep? then 1 else 0)
         <= StepsToReturn(s.foreground)
  {
  }

  /** A call never goes round: whatever the heartbeat does, and whatever the
      ECU answers, it takes at most seven steps of its own. */
  lemma {:induction false} CallsAreShort(c: Config, s: State, run: seq<Action>)
    requires CanRun(c, s, run) && NoNewCall(run)
    ensures ForegroundSteps(run) + StepsToReturn(After(c, s, run).foreground) <= StepsToReturn(s.foreground) <= 7
    decreases |run|
  {
    hide Enabled, Apply;
    if run != [] {
      StepIsNearer(c, s, run[0]);
      CallsAreShort(c, Apply(c, s, run[0]), run[1..]);
    }
  }
}
