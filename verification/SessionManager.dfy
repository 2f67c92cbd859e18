/** The session manager: a foreground caller and heartbeat threads that share a
    mutex, an atomic running flag and one joinable thread object, over time.

    A step is what a thread does between two points where another may get in.
    Time passes only while no thread has something to do at once, so that a
    sleep ends when it is over and a heartbeat send takes no longer than the
    configured bound. */
module SessionManager {
  import opened Wrappers

  const MILLISECOND := 1_000_000
  const DEFAULT_SESSION := 1

  /** In milliseconds; maxSend bounds how long a heartbeat send takes. */
  datatype Config = Config(interval: nat, idleTimeout: nat, maxSend: nat)

  type ThreadId = nat

  datatype HeartbeatPoint =
    | LoopHead
    | Sleeping(until: int)
    | Awake                  // about to look at the flag
    | WantsMutex
    | HoldsMutex             // about to look again, then at the clock
    | Sending(deadline: int)
    | Gone

  /** What is done once the old heartbeat has been stopped. */
  datatype Purpose = ForSession(session: int) | ForRevert | ForReturn | ForDestruction

  datatype ForegroundPoint =
    | Idle
    | EnsureEntry(session: int)
    | EnsureHolds(session: int)
    | EnsureSends(session: int)
    | EnsureRelocks(session: int)
    | EnsureCommits(session: int)
    | RevertEntry
    | RevertHolds
    | RevertSends
    | RevertRelocks
    | RevertCommits
    | SecurityEntry(level: nat)
    | SecurityHolds(level: nat)
    | SecuritySends(level: nat)
    | SecurityRelocks(level: nat)
    | SecurityCommits(level: nat)
    | StopsFlag(purpose: Purpose)
    | Joins(purpose: Purpose)
    | Destroyed
    | Terminated             // a joinable thread object was assigned to

  datatype Holder = Nobody | Foreground | Heartbeat(thread: ThreadId)

  datatype State = State(
    now: int,
    session: int,
    level: nat,
    lastTouch: int,
    running: bool,
    mutex: Holder,
    threads: map<ThreadId, HeartbeatPoint>,
    joinable: Option<ThreadId>,
    started: int,            // when the latest heartbeat thread was started
    foreground: ForegroundPoint)

  datatype Call = EnsureSession(session: int) | RevertToDefault | EnsureSecurityLevel(level: nat) | Destruct

  datatype Action =
    | Begin(call: Call)
    | ForegroundStep(ok: bool)   // ok: a send came back as expected
    | HeartbeatStep(thread: ThreadId)
    | Tick(d: nat)

  function Start(now: int): State {
    State(now, DEFAULT_SESSION, 0, now, false, Nobody, map[], None, now, Idle)
  }

  // --- The foreground ---

  function Entry(call: Call): ForegroundPoint {
    match call
    case EnsureSession(t) => EnsureEntry(t)
    case RevertToDefault => RevertEntry
    case EnsureSecurityLevel(l) => SecurityEntry(l)
    case Destruct => StopsFlag(ForDestruction)
  }

  function AfterStop(purpose: Purpose): ForegroundPoint {
    match purpose
    case ForSession(t) => EnsureRelocks(t)
    case ForRevert => RevertRelocks
    case ForReturn => Idle
    case ForDestruction => Destroyed
  }

  predicate ForegroundCanStep(s: State) {
    match s.foreground
    case Idle | Destroyed | Terminated => false
    case EnsureEntry(_) | EnsureRelocks(_) | RevertEntry | RevertRelocks | SecurityEntry(_) | SecurityRelocks(_) =>
      s.mutex == Nobody
    case Joins(_) =>
      s.joinable.Some? ==> s.joinable.value in s.threads && s.threads[s.joinable.value] == Gone
    case _ => true
  }

  function Locked(s: State, next: ForegroundPoint): State {
    s.(mutex := Foreground, foreground := next)
  }

  function Unlocked(s: State, next: ForegroundPoint): State {
    s.(mutex := Nobody, foreground := next)
  }

  /** A thread id no thread has had. */
  function FreshThread(s: State): ThreadId {
    |s.threads|
  }

  function AfterForeground(s: State, ok: bool): State {
    match s.foreground
    case EnsureEntry(t) => Locked(s, EnsureHolds(t))
    case EnsureHolds(t) =>
      Unlocked(s.(lastTouch := s.now), if s.session == t then Idle else EnsureSends(t))
    case EnsureSends(t) => s.(foreground := if ok then StopsFlag(ForSession(t)) else Idle)
    case EnsureRelocks(t) => Locked(s, EnsureCommits(t))
    case EnsureCommits(t) =>
      var u := s.(session := t, running := true);
      if s.joinable.Some? then u.(foreground := Terminated)
      else
        var id := FreshThread(s);
        Unlocked(u.(threads := s.threads[id := LoopHead], joinable := Some(id), started := s.now), Idle)
    case RevertEntry => Locked(s, RevertHolds)
    case RevertHolds => Unlocked(s, if s.session == DEFAULT_SESSION then StopsFlag(ForReturn) else RevertSends)
    case RevertSends => s.(foreground := StopsFlag(ForRevert))
    case RevertRelocks => Locked(s, RevertCommits)
    case RevertCommits => Unlocked(s.(session := DEFAULT_SESSION, level := 0), Idle)
    case SecurityEntry(l) => Locked(s, SecurityHolds(l))
    case SecurityHolds(l) => Unlocked(s.(lastTouch := s.now), if s.level >= l then Idle else SecuritySends(l))
    case SecuritySends(l) => s.(foreground := if ok then SecurityRelocks(l) else Idle)
    case SecurityRelocks(l) => Locked(s, SecurityCommits(l))
    case SecurityCommits(l) => Unlocked(s.(level := l), Idle)
    case StopsFlag(purpose) => s.(running := false, foreground := Joins(purpose))
    case Joins(purpose) => s.(joinable := None, foreground := AfterStop(purpose))
    case _ => s
  }

  // --- The heartbeat ---

  predicate HeartbeatCanStep(s: State, id: ThreadId) {
    && id in s.threads
    && match s.threads[id]
       case Sleeping(until) => s.now >= until
       case WantsMutex => s.mutex == Nobody
       case Gone => false
       case _ => true
  }

  function At(s: State, id: ThreadId, point: HeartbeatPoint): State {
    s.(threads := s.threads[id := point])
  }

  /** Whole milliseconds since the session was last used. */
  function IdleFor(s: State): int {
    (s.now - s.lastTouch) / MILLISECOND
  }

  function AfterHeartbeat(c: Config, s: State, id: ThreadId): State
    requires id in s.threads
  {
    match s.threads[id]
    case LoopHead => At(s, id, if s.running then Sleeping(s.now + c.interval * MILLISECOND) else Gone)
    case Sleeping(_) => At(s, id, Awake)
    case Awake => At(s, id, if s.running then WantsMutex else Gone)
    case WantsMutex => At(s.(mutex := Heartbeat(id)), id, HoldsMutex)
    case HoldsMutex =>
      var u := s.(mutex := Nobody);
      if !s.running then At(u, id, Gone)
      else if IdleFor(s) >= c.idleTimeout then
        At(u.(session := DEFAULT_SESSION, level := 0, running := false), id, Gone)
      else At(u, id, Sending(s.now + c.maxSend * MILLISECOND))
    case Sending(_) => At(s, id, LoopHead)
    case Gone => s
  }

  // --- Time ---

  /** A thread lets time pass up to its wake-up time or send deadline. */
  predicate Waits(point: HeartbeatPoint, until: int) {
    match point
    case Sleeping(t) => until <= t
    case Sending(t) => until <= t
    case Gone => true
    case _ => false
  }

  predicate TimeMayPass(s: State, d: nat) {
    s.mutex == Nobody && forall id :: id in s.threads ==> Waits(s.threads[id], s.now + d)
  }

  // --- Runs ---

  predicate Enabled(s: State, a: Action) {
    match a
    case Begin(_) => s.foreground == Idle
    case ForegroundStep(_) => ForegroundCanStep(s)
    case HeartbeatStep(id) => HeartbeatCanStep(s, id)
    case Tick(d) => TimeMayPass(s, d)
  }

  function Apply(c: Config, s: State, a: Action): State
    requires Enabled(s, a)
  {
    match a
    case Begin(call) => s.(foreground := Entry(call))
    case ForegroundStep(ok) => AfterForeground(s, ok)
    case HeartbeatStep(id) => AfterHeartbeat(c, s, id)
    case Tick(d) => s.(now := s.now + d)
  }

  predicate CanRun(c: Config, s: State, run: seq<Action>)
    decreases |run|
  {
    run == [] || (Enabled(s, run[0]) && CanRun(c, Apply(c, s, run[0]), run[1..]))
  }

  function After(c: Config, s: State, run: seq<Action>): State
    requires CanRun(c, s, run)
    decreases |run|
  {
    if run == [] then s else After(c, Apply(c, s, run[0]), run[1..])
  }
}
