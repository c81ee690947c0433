/**
 The aggregator as a protocol: event sources, the timer worker and the closer interleave at the
 granularity of the mutex-held sections, with deliveries running outside the lock.
 The state carries the history needed to say what is delivered for what was accepted.
 */
module Protocol {
  import opened Events
  import opened Sorting
  import opened Wrappers

  // ---- States ----

  /** A timer that fires at `at`; `lag` is the time between computing its delay and arming it. */
  datatype Alarm = Alarm(at: Time, lag: Time)

  /** Where the worker goroutine stands. */
  datatype Worker =
    | Unborn
    | LoopTop                                   // about to test the closed flag
    | Reading                                   // about to read the earliest deadline
    | Deciding(next: Time)                      // about to compute the delay
    | Arming(next: Time, readAt: Time)          // about to arm the timer with delay next - readAt
    | Waiting(alarm: Option<Alarm>)             // blocked on timer, wake token and shutdown
    | Due(now: Time)                            // about to lock for the pop phase
    | Flushing(ready: seq<Item>)                // between the takes of the second phase
    | Delivering(ready: seq<Item>, id: nat)     // sending what it just took
    | Exited

  /** Where the one caller that runs the close sequence stands. */
  datatype Closer =
    | Open
    | Joining                                   // closed flag set, waiting for the worker
    | Draining(paths: seq<Path>)                // force-flushing the collected paths
    | Sending(paths: seq<Path>, id: nat)
    | Awaiting                                  // waiting for the remaining deliveries
    | Returned

  datatype Outcome = Processed | Dropped | Lost

  /** What is buffered, and how many receivers are blocked on the empty buffer. */
  datatype Channel = Channel(buffer: seq<WatchEvent>, receivers: nat)

  datatype Channels = Channels(events: Channel, dropped: Channel)

  const NO_EVENTS: Channel := Channel([], 0)

  datatype Setup = Setup(agg: Config, eventsCap: nat, droppedCap: nat)

  /** One take: the block of raw events it ends and the event it hands to delivery. */
  datatype Taken = Taken(path: Path, block: seq<Accepted>, event: WatchEvent)

  datatype State = State(
    agg: Agg,
    closed: bool,
    wake: bool,
    worker: Worker,
    closer: Closer,
    clock: Time,
    channels: Channels,
    channelsClosed: bool,
    raw: nat,                             // raw events seen and not refused by shutdown
    filtered: nat,
    coalesced: nat,
    processed: nat,
    dropped: nat,
    lost: nat,
    accepted: seq<Accepted>,              // history: every accepted raw event
    blocks: map<Path, seq<Accepted>>,     // history: raw events merged into each pending entry
    taken: seq<Taken>,                    // history: every take, in order
    inflight: set<nat>,                   // takes whose delivery is not finished
    sent: map<nat, Outcome>)              // takes whose delivery is finished

  ghost predicate Init(s: State) {
    && s.agg == Agg(map[], 0) && !s.closed && !s.wake && s.worker == Unborn && s.closer == Open
    && s.channels == Channels(NO_EVENTS, NO_EVENTS) && !s.channelsClosed
    && s.raw == s.filtered == s.coalesced == s.processed == s.dropped == s.lost == 0
    && s.accepted == [] && s.blocks == map[] && s.taken == [] && s.inflight == {} && s.sent == map[]
  }

  // ---- Steps ----

  /** Removes a pending path under the lock; its rendering `w` is now in flight. */
  function TakeAt(s: State, path: Path, w: WatchEvent): State
    requires path in s.blocks
  {
    s.(agg := Take(s.agg, path), blocks := s.blocks - {path},
       taken := s.taken + [Taken(path, s.blocks[path], w)], inflight := s.inflight + {|s.taken|})
  }

  ghost predicate CanTakeAt(s: State, path: Path, w: WatchEvent) {
    path in s.agg.entries && path in s.blocks && Renders(w, path, s.agg.entries[path])
  }

  ghost predicate Tick(s: State, t: State) {
    t == s.(clock := t.clock) && s.clock <= t.clock
  }

  /** A raw event that a filter excludes. */
  ghost predicate Filter(s: State, t: State) {
    t == s.(raw := s.raw + 1, filtered := s.filtered + 1)
  }

  /** A raw event that arrives after the closed flag is set leaves no trace. */
  ghost predicate Refuse(s: State, t: State) {
    s.closed && t == s
  }

  /** The raw events merged into the pending entry of `p`. */
  function BlockOf(s: State, p: Path): seq<Accepted> {
    if p in s.blocks then s.blocks[p] else []
  }

  function Store(c: Setup, s: State, event: WatchEvent): State {
    var known := event.path in s.agg.entries;
    s.(agg := Admit(c.agg, s.agg, event, s.clock),
       wake := true,
       raw := s.raw + 1,
       worker := if s.worker == Unborn then LoopTop else s.worker,
       coalesced := if known then s.coalesced + 1 else s.coalesced,
       accepted := s.accepted + [Accepted(event, s.clock)],
       blocks := s.blocks[event.path := BlockOf(s, event.path) + [Accepted(event, s.clock)]])
  }

  /** The critical section of an accepted event, eviction included. */
  ghost predicate Add(c: Setup, s: State, t: State, event: WatchEvent, victim: Option<Path>, w: WatchEvent) {
    && !s.closed
    && VictimOk(c.agg, s.agg, event.path, victim)
    && (victim.Some? ==> CanTakeAt(s, victim.value, w))
    && t == Store(c, if victim.Some? then TakeAt(s, victim.value, w) else s, event)
  }

  /** The sections of the worker loop up to a flush. */
  ghost predicate WorkerLoop(s: State, t: State) {
    match s.worker
    case LoopTop => t == s.(worker := if s.closed then Exited else Reading)
    case Reading =>
      if exists p :: Queued(s.agg, p)
      then exists p :: Earliest(s.agg, p) && t == s.(worker := Deciding(s.agg.entries[p].deadline))
      else t == s.(worker := Waiting(None))
    case Deciding(next) => t == s.(worker := if next - s.clock <= 0 then Due(s.clock) else Arming(next, s.clock))
    case Arming(next, readAt) =>
      t == s.(worker := Waiting(Some(Alarm(s.clock + (next - readAt), s.clock - readAt))))
    case Waiting(alarm) =>
      || (s.wake && t == s.(wake := false, worker := LoopTop))
      || (s.closed && t == s.(worker := Exited))
      || (alarm.Some? && alarm.value.at <= s.clock && t == s.(worker := Due(s.clock)))
    case _ => false
  }

  /** The pop phase of a flush. */
  ghost predicate WorkerPop(s: State, t: State) {
    && s.worker.Due?
    && if s.closed then t == s.(worker := LoopTop)
       else exists ready :: ReadyList(s.agg, s.worker.now, ready)
                            && t == s.(agg := PopDue(s.agg, s.worker.now), worker := Flushing(ready))
  }

  /** The second phase: one listed path at a time. */
  ghost predicate WorkerFlush(s: State, t: State, w: WatchEvent) {
    && s.worker.Flushing?
    && var ready := s.worker.ready;
       if ready == [] then t == s.(worker := LoopTop)
       else if !s.closed && CanTake(s.agg, ready[0].path, ready[0].version, false)
       then CanTakeAt(s, ready[0].path, w)
            && t == TakeAt(s, ready[0].path, w).(worker := Delivering(ready[1..], |s.taken|))
       else t == s.(worker := Flushing(ready[1..]))
  }

  ghost predicate WorkerDelivered(s: State, t: State) {
    s.worker.Delivering? && s.worker.id !in s.inflight && t == s.(worker := Flushing(s.worker.ready))
  }

  /** The close sequence: set the flag, join the worker, collect the paths, flush them, await deliveries. */
  ghost predicate Close(s: State, t: State, w: WatchEvent) {
    match s.closer
    case Open => t == s.(closed := true, closer := Joining)
    case Joining =>
      && (s.worker.Unborn? || s.worker.Exited?)
      && exists paths: seq<Path> :: Elements(paths) == s.agg.entries.Keys && t == s.(closer := Draining(paths))
    case Draining(paths) =>
      if paths == [] then t == s.(closer := Awaiting)
      else if paths[0] in s.agg.entries
      then CanTakeAt(s, paths[0], w) && t == TakeAt(s, paths[0], w).(closer := Sending(paths[1..], |s.taken|))
      else t == s.(closer := Draining(paths[1..]))
    case Sending(paths, id) => id !in s.inflight && t == s.(closer := Draining(paths))
    case Awaiting => s.inflight == {} && t == s.(closer := Returned)
    case Returned => !s.channelsClosed && t == s.(channelsClosed := true)
  }

  /** A send without blocking: to a blocked receiver, else into the buffer, else not at all. */
  function Offer(capacity: nat, channel: Channel, w: WatchEvent): Option<Channel> {
    if channel.receivers > 0 then Some(channel.(receivers := channel.receivers - 1))
    else if |channel.buffer| < capacity then Some(channel.(buffer := channel.buffer + [w]))
    else None
  }

  /** The event channel first, then the dropped channel, else the event is lost. */
  function Send(c: Setup, channels: Channels, w: WatchEvent): (Channels, Outcome) {
    var first, second := Offer(c.eventsCap, channels.events, w), Offer(c.droppedCap, channels.dropped, w);
    if first.Some? then (channels.(events := first.value), Processed)
    else if second.Some? then (channels.(dropped := second.value), Dropped)
    else (channels, Lost)
  }

  /** The delivery of one taken event, outside the lock. */
  ghost predicate Deliver(c: Setup, s: State, t: State, id: nat) {
    && id in s.inflight && id < |s.taken|
    && var (channels, outcome) := Send(c, s.channels, s.taken[id].event);
       t == s.(channels := channels, inflight := s.inflight - {id}, sent := s.sent[id := outcome],
               processed := s.processed + (if outcome == Processed then 1 else 0),
               dropped := s.dropped + (if outcome == Dropped then 1 else 0),
               lost := s.lost + (if outcome == Lost then 1 else 0))
  }

  /** A consumer takes what is buffered, blocks on an empty buffer, or stops waiting. */
  ghost predicate Receives(before: Channel, after: Channel) {
    || (before.buffer != [] && after == before.(buffer := before.buffer[1..]))
    || (before.buffer == [] && after == before.(receivers := before.receivers + 1))
    || (before.receivers > 0 && after == before.(receivers := before.receivers - 1))
  }

  /** A consumer acts on either channel. */
  ghost predicate Receive(s: State, t: State) {
    || (t == s.(channels := s.channels.(events := t.channels.events)) && Receives(s.channels.events, t.channels.events))
    || (t == s.(channels := s.channels.(dropped := t.channels.dropped))
        && Receives(s.channels.dropped, t.channels.dropped))
  }

  ghost predicate Next(c: Setup, s: State, t: State) {
    || Tick(s, t) || Filter(s, t) || Refuse(s, t) || Receive(s, t)
    || (exists event, victim, w :: Add(c, s, t, event, victim, w))
    || WorkerLoop(s, t) || WorkerPop(s, t) || WorkerDelivered(s, t)
    || (exists w :: WorkerFlush(s, t, w))
    || (exists w :: Close(s, t, w))
    || (exists id :: Deliver(c, s, t, id))
  }

  ghost predicate StepAt(c: Setup, r: seq<State>, i: nat) {
    i + 1 < |r| ==> Next(c, r[i], r[i + 1])
  }

  ghost predicate Run(c: Setup, r: seq<State>) {
    && r != [] && Init(r[0])
    && forall i: nat :: StepAt(c, r, i)
  }
}
