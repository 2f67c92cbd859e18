/** A revert found in the default session with a heartbeat still running: what
    it leaves of the security level is a race, and a run from the start leads
    into it. */
module SessionRace {
  import opened SessionManager
  import opened SessionSafety
  import opened Wrappers

  /** With a heartbeat running in the default session both are possible: one
      run of the same revert keeps the level, another loses it. */
  lemma RevertMayRace(c: Config, s: State, id: ThreadId) returns (keeps: seq<Action>, loses: seq<Action>)
    requires Safe(s) && s.foreground == RevertHolds && s.session == DEFAULT_SESSION && s.running
    requires s.joinable == Some(id) && s.threads[id] == WantsMutex && IdleFor(s) >= c.idleTimeout
    ensures CanRun(c, s, keeps) && NoNewCall(keeps) && CanRun(c, s, loses) && NoNewCall(loses)
    ensures After(c, s, keeps).foreground == Idle && After(c, s, keeps).level == s.level
    ensures After(c, s, loses).foreground == Idle && After(c, s, loses).level == 0
  {
    hide CanRun, After;
    var f, h := ForegroundStep(true), HeartbeatStep(id);
    keeps, loses := [f, f, h, h, f], [f, h, h, f, f];
    RunFive(c, s, f, f, h, h, f);
    RunFive(c, s, f, h, h, f, f);
  }

  lemma RunFive(c: Config, s: State, a1: Action, a2: Action, a3: Action, a4: Action, a5: Action)
    requires Enabled(s, a1) && Enabled(Apply(c, s, a1), a2)
    requires var s2 := Apply(c, Apply(c, s, a1), a2); Enabled(s2, a3) && Enabled(Apply(c, s2, a3), a4)
    requires Enabled(Apply(c, Apply(c, Apply(c, Apply(c, s, a1), a2), a3), a4), a5)
    ensures CanRun(c, s, [a1, a2, a3, a4, a5])
    ensures After(c, s, [a1, a2, a3, a4, a5])
         == Apply(c, Apply(c, Apply(c, Apply(c, Apply(c, s, a1), a2), a3), a4), a5)
  {
    hide Enabled, Apply, CanRun, After;
    var s1 := Apply(c, s, a1);
    var s2 := Apply(c, s1, a2);
    var s3 := Apply(c, s2, a3);
    var s4 := Apply(c, s3, a4);
    EmptyRun(c, Apply(c, s4, a5));
    assert [a5] + [] == [a5] && [a4] + [a5] == [a4, a5] && [a3] + [a4, a5] == [a3, a4, a5];
    assert [a2] + [a3, a4, a5] == [a2, a3, a4, a5] && [a1] + [a2, a3, a4, a5] == [a1, a2, a3, a4, a5];
    StepThenRun(c, s4, a5, []);
    StepThenRun(c, s3, a4, [a5]);
    StepThenRun(c, s2, a3, [a4, a5]);
    StepThenRun(c, s1, a2, [a3, a4, a5]);
    StepThenRun(c, s, a1, [a2, a3, a4, a5]);
  }

  lemma EmptyRun(c: Config, s: State)
    ensures CanRun(c, s, []) && After(c, s, []) == s
  {
  }

  lemma StepThenRun(c: Config, s: State, a: Action, rest: seq<Action>)
    requires Enabled(s, a) && CanRun(c, Apply(c, s, a), rest)
    ensures CanRun(c, s, [a] + rest) && After(c, s, [a] + rest) == After(c, Apply(c, s, a), rest)
  {
    assert ([a] + rest)[1..] == rest;
  }

  // --- The race is real ---

  ghost predicate Reachable(c: Config, s: State) {
    exists run :: CanRun(c, Start(0), run) && After(c, Start(0), run) == s
  }

  lemma {:induction false} RunThenStep(c: Config, s: State, run: seq<Action>, a: Action)
    requires CanRun(c, s, run) && Enabled(After(c, s, run), a)
    ensures CanRun(c, s, run + [a]) && After(c, s, run + [a]) == Apply(c, After(c, s, run), a)
    decreases |run|
  {
    hide Enabled, Apply;
    if run == [] {
      assert run + [a] == [a] && [a][1..] == [];
    } else {
      assert (run + [a])[1..] == run[1..] + [a];
      RunThenStep(c, Apply(c, s, run[0]), run[1..], a);
    }
  }

  lemma Go(c: Config, s: State, a: Action)
    requires Reachable(c, s) && Enabled(s, a)
    ensures Reachable(c, Apply(c, s, a))
  {
    hide Enabled, Apply;
    var run :| CanRun(c, Start(0), run) && After(c, Start(0), run) == s;
    RunThenStep(c, Start(0), run, a);
  }

  lemma GoForeground(c: Config, s: State)
    requires Reachable(c, s) && ForegroundCanStep(s)
    ensures Reachable(c, AfterForeground(s, true))
  {
    hide Reachable, AfterForeground, ForegroundCanStep;
    Go(c, s, ForegroundStep(true));
  }

  /** In session 3, level 1 unlocked, the first heartbeat about to start. */
  function Unlocked3(): State {
    State(0, 3, 1, 0, true, Nobody, map[0 := LoopHead], Some(0), 0, Idle)
  }

  lemma EscalatedIsReachable(c: Config)
    ensures Reachable(c, Unlocked3().(level := 0))
  {
    var s := Start(0);
    assert CanRun(c, s, []) && After(c, s, []) == s;
    hide Reachable, CanRun, After;
    Go(c, s, Begin(EnsureSession(3)));
    s := s.(foreground := EnsureEntry(3));
    GoForeground(c, s);
    s := AfterForeground(s, true);
    GoForeground(c, s);
    s := AfterForeground(s, true);
    GoForeground(c, s);
    s := AfterForeground(s, true);
    GoForeground(c, s);
    s := AfterForeground(s, true);
    GoForeground(c, s);
    s := AfterForeground(s, true);
    GoForeground(c, s);
    s := AfterForeground(s, true);
    GoForeground(c, s);
    s := AfterForeground(s, true);
    assert s == Unlocked3().(level := 0);
  }

  lemma Unlocked3IsReachable(c: Config)
    ensures Reachable(c, Unlocked3())
  {
    hide Reachable, CanRun, After;
    EscalatedIsReachable(c);
    var s := Unlocked3().(level := 0);
    Go(c, s, Begin(EnsureSecurityLevel(1)));
    s := s.(foreground := SecurityEntry(1));
    GoForeground(c, s);
    s := AfterForeground(s, true);
    GoForeground(c, s);
    s := AfterForeground(s, true);
    GoForeground(c, s);
    s := AfterForeground(s, true);
    GoForeground(c, s);
    s := AfterForeground(s, true);
    GoForeground(c, s);
  }

  /** Back in session 1 through EnsureSession, the level kept, and a second
      heartbeat about to start. */
  function Unlocked1(): State {
    State(0, 1, 1, 0, true, Nobody, map[0 := Gone, 1 := LoopHead], Some(1), 0, Idle)
  }

  lemma Unlocked1IsReachable(c: Config)
    ensures Reachable(c, Unlocked1())
  {
    hide Reachable, CanRun, After;
    Unlocked3IsReachable(c);
    var s := Unlocked3();
    Go(c, s, Begin(EnsureSession(1)));
    s := s.(foreground := EnsureEntry(1));
    GoForeground(c, s);
    s := AfterForeground(s, true);
    GoForeground(c, s);
    s := AfterForeground(s, true);
    GoForeground(c, s);
    s := AfterForeground(s, true);
    GoForeground(c, s);
    s := AfterForeground(s, true);
    Go(c, s, HeartbeatStep(0));
    s := AfterHeartbeat(c, s, 0);
    GoForeground(c, s);
    s := AfterForeground(s, true);
    GoForeground(c, s);
    s := AfterForeground(s, true);
    GoForeground(c, s);
    s := AfterForeground(s, true);
    assert s.threads == map[0 := Gone, 1 := LoopHead];
  }

  /** A run from the start leads into the race: EnsureSession(3), a level
      unlocked, EnsureSession(1), one interval of idling, then a revert. */
  lemma RaceIsReachable(c: Config) returns (s: State)
    requires c.idleTimeout <= c.interval
    ensures Reachable(c, s) && Safe(s) && s.foreground == RevertHolds
    ensures s.session == DEFAULT_SESSION && s.running && s.level == 1
    ensures s.joinable == Some(1) && 1 in s.threads && s.threads[1] == WantsMutex && IdleFor(s) >= c.idleTimeout
  {
    Unlocked1IsReachable(c);
    s := Unlocked1();
    hide Reachable, CanRun, After, Safe;
    Go(c, s, HeartbeatStep(1));
    s := AfterHeartbeat(c, s, 1);
    Go(c, s, Tick(c.interval * MILLISECOND));
    s := s.(now := c.interval * MILLISECOND);
    Go(c, s, HeartbeatStep(1));
    s := AfterHeartbeat(c, s, 1);
    Go(c, s, HeartbeatStep(1));
    s := AfterHeartbeat(c, s, 1);
    Go(c, s, Begin(RevertToDefault));
    s := s.(foreground := RevertEntry);
    GoForeground(c, s);
    s := AfterForeground(s, true);
    ReachableIsSafe(c, s);
  }

  lemma ReachableIsSafe(c: Config, s: State)
    requires Reachable(c, s)
    ensures Safe(s)
  {
    hide Safe, CanRun, After;
    var run :| CanRun(c, Start(0), run) && After(c, Start(0), run) == s;
    StartIsSafe(0);
    SessionIsAlwaysSafe(c, Start(0), run);
  }
}
