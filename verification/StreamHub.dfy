/** The shared poller behind every data stream: handles that are moved about
    and dropped, one poller thread per key, and new generations of pollers
    under a key whose last subscriber has left.

    A state is the heap all threads share; a step is one critical section or
    one stretch of code between two of them. */
module StreamHub {
  import opened Numerals

  type PollerId = nat
  type HandleId = nat

  /** Where a poller thread stands in its loop. */
  datatype Point =
    | Top                       // about to look at the stop flag
    | Checked                   // seen it clear, about to read
    | Reading                   // inside the read function
    | HasValue(value: string)   // about to publish
    | Published                 // about to notify
    | Waiting                   // interruptible wait for the interval
    | Exited

  /** log holds the value published at version i + 1 at index i; readCount counts
      the reads begun, lateReadCount those begun after the stop flag was set. */
  datatype Poller = Poller(
    key: string,
    count: int,
    stop: bool,
    version: nat,
    latest: string,
    log: seq<string>,
    point: Point,
    readCount: nat,
    lateReadCount: nat)

  /** A subscription object. Joining: inside release, waiting for the thread of
      the poller it stopped; then it takes over from another handle, or not. */
  datatype Handle =
    | Empty
    | Live(key: string, poller: PollerId, seen: nat, got: seq<(nat, string)>)
    | Joining(poller: PollerId, takeFrom: HandleId, takes: bool)

  datatype Hub = Hub(
    pollers: map<PollerId, Poller>,
    table: map<string, PollerId>,
    handles: map<HandleId, Handle>,
    next: PollerId)

  datatype Action =
    | Subscribe(h: HandleId, key: string)
    | MoveConstruct(h: HandleId, from: HandleId)
    | MoveAssign(h: HandleId, from: HandleId)
    | Destroy(h: HandleId)
    | FinishJoin(h: HandleId)
    | WaitNext(h: HandleId)
    | Poll(p: PollerId, value: string)

  const SEPARATOR := '\U{1f}'

  function IntText(n: int): string {
    if n < 0 then "-" + Decimal(-n) else Decimal(n)
  }

  function Key(path: string, id: string, intervalMs: int): string {
    path + [SEPARATOR] + id + [SEPARATOR] + IntText(intervalMs)
  }

  // --- The steps ---

  function NewPoller(key: string): Poller {
    Poller(key, 1, false, 0, "", [], Top, 0, 0)
  }

  function AfterSubscribe(s: Hub, h: HandleId, key: string): Hub {
    if key in s.table && s.table[key] in s.pollers then
      var p := s.table[key];
      s.(pollers := s.pollers[p := s.pollers[p].(count := s.pollers[p].count + 1)],
         handles := s.handles[h := Live(key, p, 0, [])])
    else
      s.(pollers := s.pollers[s.next := NewPoller(key)],
         table := s.table[key := s.next],
         handles := s.handles[h := Live(key, s.next, 0, [])],
         next := s.next + 1)
  }

  /** The critical section of release, by key. */
  function AfterRelease(s: Hub, key: string): Hub {
    if key !in s.table || s.table[key] !in s.pollers then s
    else
      var p := s.table[key];
      var count := s.pollers[p].count - 1;
      if count <= 0 then
        s.(pollers := s.pollers[p := s.pollers[p].(count := count, stop := true)], table := s.table - {key})
      else s.(pollers := s.pollers[p := s.pollers[p].(count := count)])
  }

  /** The poller a release of this key stops and has to wait for. */
  predicate IsLast(s: Hub, key: string) {
    key in s.table && s.table[key] in s.pollers && s.pollers[s.table[key]].count <= 1
  }

  /** Handle h takes over whatever handle from holds. */
  function Transfer(s: Hub, h: HandleId, from: HandleId): Hub
    requires from in s.handles
  {
    s.(handles := s.handles[h := s.handles[from]][from := Empty])
  }

  function Drop(s: Hub, h: HandleId): Hub {
    s.(handles := s.handles - {h})
  }

  /** One step of a poller thread; a read returns the given value. */
  function AfterPoll(p: Poller, value: string): Poller {
    match p.point
    case Top => p.(point := if p.stop then Exited else Checked)
    case Checked =>
      p.(point := Reading, readCount := p.readCount + 1, lateReadCount := p.lateReadCount + if p.stop then 1 else 0)
    case Reading => p.(point := HasValue(value))
    case HasValue(v) =>
      if p.stop then p.(point := Exited)
      else p.(latest := v, version := p.version + 1, log := p.log + [v], point := Published)
    case Published => p.(point := Waiting)
    case Waiting => p.(point := if p.stop then Exited else Top)
    case Exited => p
  }

  /** wait_next returns a value exactly if there is a newer one and no stop. */
  predicate HasNews(s: Hub, h: HandleId) {
    && h in s.handles && s.handles[h].Live? && s.handles[h].poller in s.pollers
    && s.pollers[s.handles[h].poller].version != s.handles[h].seen
    && !s.pollers[s.handles[h].poller].stop
  }

  function AfterWait(s: Hub, h: HandleId): Hub {
    if !HasNews(s, h) then s
    else
      var p := s.pollers[s.handles[h].poller];
      s.(handles := s.handles[h := s.handles[h].(seen := p.version, got := s.handles[h].got + [(p.version, p.latest)])])
  }

  predicate IsIdle(s: Hub, h: HandleId) {
    h in s.handles && !s.handles[h].Joining?
  }

  predicate Enabled(s: Hub, a: Action) {
    match a
    case Subscribe(h, _) => h !in s.handles
    case MoveConstruct(h, from) => h !in s.handles && IsIdle(s, from)
    case MoveAssign(h, from) => IsIdle(s, h) && IsIdle(s, from)
    case Destroy(h) => IsIdle(s, h)
    case FinishJoin(h) =>
      && h in s.handles && s.handles[h].Joining?
      && s.handles[h].poller in s.pollers && s.pollers[s.handles[h].poller].point == Exited
      && (s.handles[h].takes ==> s.handles[h].takeFrom != h && IsIdle(s, s.handles[h].takeFrom))
    case WaitNext(h) => h in s.handles && s.handles[h].Live?
    case Poll(p, _) => p in s.pollers && s.pollers[p].point != Exited
  }

  function Apply(s: Hub, a: Action): Hub
    requires Enabled(s, a)
  {
    match a
    case Subscribe(h, key) => AfterSubscribe(s, h, key)
    case MoveConstruct(h, from) => Transfer(s, h, from)
    case MoveAssign(h, from) =>
      if h == from then s
      else if s.handles[h].Live? then
        var r := AfterRelease(s, s.handles[h].key);
        if IsLast(s, s.handles[h].key) then
          r.(handles := r.handles[h := Joining(s.table[s.handles[h].key], from, true)])
        else Transfer(r, h, from)
      else Transfer(s, h, from)
    case Destroy(h) =>
      if s.handles[h].Live? then
        var r := AfterRelease(s, s.handles[h].key);
        if IsLast(s, s.handles[h].key) then r.(handles := r.handles[h := Joining(s.table[s.handles[h].key], h, false)])
        else Drop(r, h)
      else Drop(s, h)
    case FinishJoin(h) =>
      if s.handles[h].takes then Transfer(s, h, s.handles[h].takeFrom) else Drop(s, h)
    case WaitNext(h) => AfterWait(s, h)
    case Poll(p, value) => s.(pollers := s.pollers[p := AfterPoll(s.pollers[p], value)])
  }

  const INITIAL := Hub(map[], map[], map[], 0)

  predicate CanRun(s: Hub, run: seq<Action>)
    decreases |run|
  {
    run == [] || (Enabled(s, run[0]) && CanRun(Apply(s, run[0]), run[1..]))
  }

  function After(s: Hub, run: seq<Action>): Hub
    requires CanRun(s, run)
    decreases |run|
  {
    if run == [] then s else After(Apply(s, run[0]), run[1..])
  }
}
