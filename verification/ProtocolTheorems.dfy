/** The properties of the aggregator over all runs, read off the invariant of `ProtocolSafety`. */
module ProtocolTheorems {
  import opened Events
  import opened Protocol
  import opened ProtocolSafety
  import opened Sorting
  import opened Wrappers

  /** Before close every pending path is in the heap or on the worker's list under its current version. */
  lemma NoPendingEventIsOrphaned(c: Setup, r: seq<State>, i: nat, p: Path)
    requires Run(c, r) && i < |r| && !r[i].closed && p in r[i].agg.entries
    ensures r[i].agg.entries[p].queued || Item(p, r[i].agg.entries[p].version) in Ready(r[i].worker)
  {
    RunInv(c, r, i);
  }

  /** An unforced take removes an entry that is out of the heap and due: a listed version that is still
      current was not merged into, evicted or recreated since it was popped. */
  lemma StaleVersionsTakeNothing(c: Setup, r: seq<State>, i: nat, item: Item)
    requires Run(c, r) && i < |r| && item in Ready(r[i].worker)
    ensures CanTake(r[i].agg, item.path, item.version, false) ==>
              !r[i].agg.entries[item.path].queued && r[i].agg.entries[item.path].deadline <= r[i].clock
  {
    RunInv(c, r, i);
    var k :| 0 <= k < |Ready(r[i].worker)| && Ready(r[i].worker)[k] == item;
  }

  /** For each path, what was accepted is the blocks of its takes, in order, followed by what is pending;
      and every delivered event is the merge of its block. */
  lemma AcceptedEventsSplitIntoBlocks(c: Setup, r: seq<State>, i: nat, p: Path)
    requires Run(c, r) && i < |r|
    ensures Project(r[i].accepted, p) == TakenOf(r[i].taken, p) + BlockOf(r[i], p)
    ensures p in r[i].agg.entries <==> BlockOf(r[i], p) != []
    ensures forall k :: 0 <= k < |r[i].taken| ==>
      MergesBlock(r[i].taken[k].event, r[i].taken[k].path, r[i].taken[k].block)
  {
    RunInv(c, r, i);
  }

  lemma PendingBlock(c: Setup, r: seq<State>, i: nat, p: Path)
    requires Run(c, r) && i < |r| && p in r[i].agg.entries
    ensures Summarizes(c.agg, r[i].agg.entries[p], BlockOf(r[i], p))
  {
    RunInv(c, r, i);
    assert BlockOk(c, p, r[i].agg.entries[p], r[i].blocks[p], r[i].clock);
  }

  /** A pending deadline is the cooldown after the last event, capped by the maximum wait after the first. */
  lemma PendingDeadlines(c: Setup, r: seq<State>, i: nat, p: Path)
    requires Run(c, r) && i < |r| && p in r[i].agg.entries
    ensures BlockOf(r[i], p) != []
    ensures var deadline, block := r[i].agg.entries[p].deadline, BlockOf(r[i], p);
      var cooled, limit := block[|block| - 1].at + c.agg.cooldown, block[0].at + c.agg.maxWait;
      deadline == if c.agg.maxWait > 0 && limit < cooled then limit else cooled
  {
    PendingBlock(c, r, i, p);
  }

  /** Blocked with no token, the worker has no timer exactly if nothing is queued; else its timer fires at the least
      queued deadline, late by just the time between computing the delay and arming the timer. */
  lemma BlockedWorkerHasTimer(c: Setup, r: seq<State>, i: nat)
    requires Run(c, r) && i < |r| && r[i].worker.Waiting? && !r[i].wake
    ensures r[i].worker.alarm.None? <==> forall p :: !Queued(r[i].agg, p)
    ensures r[i].worker.alarm.Some? ==>
      var alarm := r[i].worker.alarm.value; alarm.lag >= 0 && IsNext(r[i], alarm.at - alarm.lag)
  {
    RunInv(c, r, i);
  }

  /** The timer is set at or before the least queued deadline exactly if no time passed before it was armed. */
  lemma TimerInTimeIff(c: Setup, r: seq<State>, i: nat)
    requires Run(c, r) && i < |r| && r[i].worker.Waiting? && !r[i].wake && r[i].worker.alarm.Some?
    ensures (forall p :: Queued(r[i].agg, p) ==> r[i].worker.alarm.value.at <= r[i].agg.entries[p].deadline) <==>
              r[i].worker.alarm.value.lag == 0
  {
    BlockedWorkerHasTimer(c, r, i);
    var alarm := r[i].worker.alarm.value;
    var p :| Earliest(r[i].agg, p) && r[i].agg.entries[p].deadline == alarm.at - alarm.lag;
  }

  lemma Extended(c: Setup, r: seq<State>, t: State)
    requires Run(c, r) && Next(c, r[|r| - 1], t)
    ensures Run(c, r + [t])
  {
    forall i: nat ensures StepAt(c, r + [t], i) {
      assert StepAt(c, r, i);
    }
  }

  /** The worker goes on while nothing else happens. */
  lemma WorkerMoved(c: Setup, r: seq<State>, t: State)
    requires Run(c, r) && WorkerLoop(r[|r| - 1], t)
    ensures Run(c, r + [t])
  {
    Extended(c, r, t);
  }

  /** From the top of its loop the worker reads the least deadline and computes the delay. */
  lemma ToArming(c: Setup, r: seq<State>, s: State, next: Time, p: Path) returns (longer: seq<State>)
    requires Run(c, r) && r[|r| - 1] == s && s.worker.LoopTop? && !s.closed && s.clock < next
    requires Earliest(s.agg, p) && s.agg.entries[p].deadline == next
    ensures Run(c, longer) && longer[|longer| - 1] == s.(worker := Arming(next, s.clock))
  {
    var reading, deciding := s.(worker := Reading), s.(worker := Deciding(next));
    WorkerMoved(c, r, reading);
    WorkerMoved(c, r + [reading], deciding);
    WorkerMoved(c, r + [reading] + [deciding], s.(worker := Arming(next, s.clock)));
    longer := r + [reading] + [deciding] + [s.(worker := Arming(next, s.clock))];
  }

  /** A run in which the timer is late, by any lag and for any first event: time passes between computing the delay
      and arming the timer. */
  lemma LateTimer(c: Setup, event: WatchEvent, lag: int) returns (r: seq<State>)
    requires lag > 0 && FreshDeadline(c.agg, 0) > 0
    ensures Run(c, r)
    ensures var s := r[|r| - 1];
      && s.worker.Waiting? && !s.wake && s.worker.alarm.Some? && Queued(s.agg, event.path)
      && s.worker.alarm.value.at == s.agg.entries[event.path].deadline + lag
  {
    var next := FreshDeadline(c.agg, 0);
    var empty := State(Agg(map[], 0), false, false, Unborn, Open, 0, Channels(NO_EVENTS, NO_EVENTS), false,
                       0, 0, 0, 0, 0, 0, [], map[], [], {}, map[]);
    var s := Store(c, empty, event);
    r := [empty];
    assert Add(c, empty, s, event, None, event);
    Extended(c, r, s);
    r := r + [s];
    assert Earliest(s.agg, event.path);
    r := ToArming(c, r, s, next, event.path);
    var waiting := s.(worker := Waiting(Some(Alarm(next, 0))));
    WorkerMoved(c, r, waiting);
    r := r + [waiting];
    var again := s.(wake := false, worker := LoopTop);
    WorkerMoved(c, r, again);
    r := ToArming(c, r + [again], again, next, event.path);
    var later := again.(worker := Arming(next, 0), clock := lag);
    assert Tick(r[|r| - 1], later);
    Extended(c, r, later);
    r := r + [later];
    var late := later.(worker := Waiting(Some(Alarm(lag + next, lag))));
    WorkerMoved(c, r, late);
    r := r + [late];
  }

  /** In every run accepting an event evicts exactly if it finds a new path and a full map, and then an earliest queued
      path, if any is queued; no other pending entry is touched. */
  lemma AddEvictsIff(c: Setup, r: seq<State>, i: nat, event: WatchEvent, victim: Option<Path>, w: WatchEvent)
    requires Run(c, r) && i + 1 < |r| && Add(c, r[i], r[i + 1], event, victim, w)
    ensures victim.Some? <==>
      event.path !in r[i].agg.entries && c.agg.maxPending > 0 && |r[i].agg.entries| >= c.agg.maxPending
    ensures victim.Some? ==> forall q :: q in r[i].agg.entries && r[i].agg.entries[q].queued ==>
      var v := r[i].agg.entries[victim.value]; v.queued && v.deadline <= r[i].agg.entries[q].deadline
    ensures forall p :: p != event.path && Some(p) != victim ==>
      && (p in r[i + 1].agg.entries <==> p in r[i].agg.entries)
      && (p in r[i].agg.entries ==> r[i + 1].agg.entries[p] == r[i].agg.entries[p])
    ensures |r[i + 1].taken| == |r[i].taken| + (if victim.Some? then 1 else 0)
  {
    RunInv(c, r, i);
    AddsEvicts(c.agg, r[i].agg, event, r[i].clock, victim, r[i + 1].agg);
  }

  /** A delivered event is processed exactly if the event channel had a receiver or room, dropped exactly if not and
      the other one had, else lost. It goes to the end of the buffer or to a receiver of that channel alone. */
  lemma DeliverDecides(c: Setup, s: State, t: State, id: nat)
    requires Deliver(c, s, t, id)
    ensures id in t.sent
    ensures var a, b, event := s.channels.events, s.channels.dropped, s.taken[id].event;
      if a.receivers > 0 || |a.buffer| < c.eventsCap then
        && t.sent[id] == Processed && t.channels.dropped == b
        && t.channels.events == (if a.receivers > 0 then Channel(a.buffer, a.receivers - 1)
                                 else Channel(a.buffer + [event], 0))
      else if b.receivers > 0 || |b.buffer| < c.droppedCap then
        && t.sent[id] == Dropped && t.channels.events == a
        && t.channels.dropped == (if b.receivers > 0 then Channel(b.buffer, b.receivers - 1)
                                  else Channel(b.buffer + [event], 0))
      else t.sent[id] == Lost && t.channels == s.channels
  {
  }

  /** Raw events that were not refused are filtered, merged away, delivered one way or another, pending or in flight. */
  lemma EventsAreConserved(c: Setup, r: seq<State>, i: nat)
    requires Run(c, r) && i < |r|
    ensures r[i].raw ==
              r[i].filtered + r[i].coalesced + r[i].processed + r[i].dropped + r[i].lost
              + |r[i].agg.entries| + |r[i].inflight|
  {
    RunInv(c, r, i);
  }

  lemma PendingPathsAreBounded(c: Setup, r: seq<State>, i: nat)
    requires Run(c, r) && i < |r|
    ensures c.agg.maxPending > 0 ==> |r[i].agg.entries| <= c.agg.maxPending
    ensures |r[i].channels.events.buffer| <= c.eventsCap && |r[i].channels.dropped.buffer| <= c.droppedCap
  {
    RunInv(c, r, i);
  }

  /** When close returns nothing is pending or in flight, every accepted event was taken in exactly one block,
      and every take was delivered exactly once. */
  lemma CloseFlushesEverything(c: Setup, r: seq<State>, i: nat)
    requires Run(c, r) && i < |r| && r[i].closer.Returned?
    ensures r[i].agg.entries == map[] && r[i].inflight == {} && WorkerDone(r[i])
    ensures forall p :: Project(r[i].accepted, p) == TakenOf(r[i].taken, p)
    ensures forall k :: k in r[i].sent <==> 0 <= k < |r[i].taken|
    ensures r[i].raw == r[i].filtered + r[i].coalesced + r[i].processed + r[i].dropped + r[i].lost
  {
    RunInv(c, r, i);
    forall p ensures Project(r[i].accepted, p) == TakenOf(r[i].taken, p) {
      assert Project(r[i].accepted, p) == TakenOf(r[i].taken, p) + BlockOf(r[i], p);
    }
  }

  function WorkerRank(w: Worker): nat {
    match w
    case Unborn => 0
    case Exited => 0
    case LoopTop => 1
    case Due(_) => 2
    case Waiting(_) => 3
    case Arming(_, _) => 4
    case Deciding(_) => 5
    case Reading => 6
    case Flushing(ready) => 2 + 2 * |ready|
    case Delivering(ready, _) => 3 + 2 * |ready|
  }

  /** A step of the worker. */
  ghost predicate WorkerStep(s: State, t: State) {
    WorkerLoop(s, t) || WorkerPop(s, t) || WorkerDelivered(s, t) || exists w :: WorkerFlush(s, t, w)
  }

  lemma ReadFrame(s: State, t: State)
    requires s.worker.Reading? && WorkerLoop(s, t)
    ensures t == s.(worker := t.worker) && (t.worker.Deciding? || t.worker.Waiting?)
  {
  }

  lemma LoopFrame(s: State, t: State)
    requires WorkerLoop(s, t) || WorkerDelivered(s, t)
    ensures t == s.(wake := t.wake, worker := t.worker)
  {
    match s.worker {
      case Reading => ReadFrame(s, t);
      case Waiting(alarm) =>
      case Delivering(ready, id) => assert t == s.(worker := Flushing(ready));
      case _ =>
    }
  }

  lemma LoopRank(s: State, t: State)
    requires s.closed && (WorkerLoop(s, t) || WorkerDelivered(s, t))
    ensures WorkerRank(t.worker) < WorkerRank(s.worker)
  {
    if s.worker.Reading? {
      ReadFrame(s, t);
    }
  }

  lemma PopFrame(s: State, t: State)
    requires WorkerPop(s, t)
    ensures t == s.(agg := t.agg, worker := t.worker)
    ensures s.closed ==> WorkerRank(t.worker) < WorkerRank(s.worker)
  {
  }

  lemma WorkerFrame(s: State, t: State)
    requires WorkerStep(s, t)
    ensures t.closed == s.closed && t.closer == s.closer && t.accepted == s.accepted && t.coalesced == s.coalesced
    ensures s.closed || s.agg.entries == map[] ==> t.taken == s.taken && t.sent == s.sent && t.inflight == s.inflight
    ensures s.closed ==> WorkerRank(t.worker) < WorkerRank(s.worker)
  {
    if WorkerLoop(s, t) || WorkerDelivered(s, t) {
      LoopFrame(s, t);
      if s.closed {
        LoopRank(s, t);
      }
    } else if WorkerPop(s, t) {
      PopFrame(s, t);
    } else {
      var w :| WorkerFlush(s, t, w);
    }
  }

  lemma CloseKeepsClosed(s: State, t: State, w: WatchEvent)
    requires Close(s, t, w) && s.closed
    ensures t.closed && t.accepted == s.accepted && t.coalesced == s.coalesced
  {
  }

  lemma StepKeepsClosed(c: Setup, s: State, t: State)
    requires Next(c, s, t) && s.closed
    ensures t.closed && t.accepted == s.accepted && t.coalesced == s.coalesced
  {
    if WorkerStep(s, t) {
      WorkerFrame(s, t);
    } else if w :| Close(s, t, w) {
      CloseKeepsClosed(s, t, w);
    } else if id :| Deliver(c, s, t, id) {
      assert t.closed == s.closed && t.accepted == s.accepted;
    } else {
      assert Tick(s, t) || Filter(s, t) || Refuse(s, t) || Receive(s, t);
    }
  }

  lemma RunStepKeepsClosed(c: Setup, r: seq<State>, k: nat)
    requires Run(c, r) && k + 1 < |r| && r[k].closed
    ensures r[k + 1].closed && r[k + 1].accepted == r[k].accepted && r[k + 1].coalesced == r[k].coalesced
  {
    assert StepAt(c, r, k);
    StepKeepsClosed(c, r[k], r[k + 1]);
  }

  /** Nothing is accepted after the closed flag is set. */
  lemma {:induction false} ClosedAcceptsNothing(c: Setup, r: seq<State>, i: nat, j: nat)
    requires Run(c, r) && i <= j < |r| && r[i].closed
    ensures r[j].closed && r[j].accepted == r[i].accepted && r[j].coalesced == r[i].coalesced
  {
    if i < j {
      ClosedAcceptsNothing(c, r, i, j - 1);
      RunStepKeepsClosed(c, r, j - 1);
    }
  }

  lemma NothingInFlight(c: Setup, r: seq<State>, j: nat)
    requires Run(c, r) && j < |r|
    ensures r[j].closer.Returned? ==> r[j].inflight == {}
  {
    RunInv(c, r, j);
  }

  lemma ReturnedIsFinal(c: Setup, s: State, t: State)
    requires ShutdownOk(s) && Next(c, s, t) && s.closer.Returned?
    ensures t.closer.Returned? && t.taken == s.taken && t.sent == s.sent
  {
    if WorkerStep(s, t) {
      WorkerFrame(s, t);
    }
  }

  lemma RunStepAfterReturn(c: Setup, r: seq<State>, k: nat)
    requires Run(c, r) && k + 1 < |r| && r[k].closer.Returned?
    ensures r[k + 1].closer.Returned? && r[k + 1].taken == r[k].taken && r[k + 1].sent == r[k].sent
  {
    RunInv(c, r, k);
    assert StepAt(c, r, k);
    ReturnedIsFinal(c, r[k], r[k + 1]);
  }

  /** After close has returned, no step ever takes or sends an event again: so closing the channels is safe. */
  lemma {:induction false} NothingMovesAfterClose(c: Setup, r: seq<State>, i: nat, j: nat)
    requires Run(c, r) && i <= j < |r| && r[i].closer.Returned?
    ensures r[j].closer.Returned? && r[j].taken == r[i].taken && r[j].sent == r[i].sent && r[j].inflight == {}
  {
    if i < j {
      NothingMovesAfterClose(c, r, i, j - 1);
      RunStepAfterReturn(c, r, j - 1);
    }
    NothingInFlight(c, r, j);
  }

  lemma NoSendOnClosedChannels(c: Setup, r: seq<State>, i: nat, t: State, id: nat)
    requires Run(c, r) && i < |r| && r[i].channelsClosed
    ensures !Deliver(c, r[i], t, id)
  {
    RunInv(c, r, i);
  }

  // ---- Close terminates ----

  /** A step of one of the parties close waits for, or of close itself. */
  ghost predicate Progress(c: Setup, s: State, t: State) {
    || WorkerStep(s, t)
    || (exists w :: Close(s, t, w))
    || (exists id :: Deliver(c, s, t, id))
  }

  function CloserRank(x: Closer): (nat, nat, nat) {
    match x
    case Open => (4, 0, 0)
    case Joining => (3, 0, 0)
    case Draining(paths) => (2, |paths|, 0)
    case Sending(paths, _) => (2, |paths|, 1)
    case Awaiting => (1, 0, 0)
    case Returned => (0, 0, 0)
  }

  /** Lexicographic order on where the closer stands. */
  predicate Later(x: Closer, y: Closer) {
    var (a, b, d) := CloserRank(y);
    var (k, m, n) := CloserRank(x);
    k < a || (k == a && (m < b || (m == b && n < d)))
  }

  /** Lexicographic order on the closer, the deliveries in flight and the worker. */
  ghost predicate RankBelow(t: State, s: State) {
    || Later(t.closer, s.closer)
    || (CloserRank(t.closer) == CloserRank(s.closer)
        && (|t.inflight| < |s.inflight|
            || (|t.inflight| == |s.inflight| && WorkerRank(t.worker) < WorkerRank(s.worker))))
  }

  lemma {:induction false} Listing<T(!new)>(s: set<T>) returns (q: seq<T>)
    ensures Elements(q) == s && Distinct(q)
    decreases s
  {
    q := [];
    if s != {} {
      var x :| x in s;
      var rest := Listing(s - {x});
      q := [x] + rest;
      assert Elements(q) == {x} + Elements(rest) && x !in Elements(rest);
    }
  }

  /** Every entry has a rendering. */
  lemma RenderingExists(p: Path, e: Entry) returns (w: WatchEvent)
    ensures Renders(w, p, e)
  {
    StringOrder();
    TypeOrder();
    var types := Listing(e.types);
    var flags := Listing(e.flags);
    SortDistinct(StringLess, flags);
    SortDistinct(TypeLess, types);
    w := WatchEvent(e.id, p, Sort(StringLess, flags), Sort(TypeLess, types), e.last);
  }

  function DeliverStep(c: Setup, s: State, id: nat): State
    requires id in s.inflight && id < |s.taken|
  {
    var (channels, outcome) := Send(c, s.channels, s.taken[id].event);
    s.(channels := channels, inflight := s.inflight - {id}, sent := s.sent[id := outcome],
       processed := s.processed + (if outcome == Processed then 1 else 0),
       dropped := s.dropped + (if outcome == Dropped then 1 else 0),
       lost := s.lost + (if outcome == Lost then 1 else 0))
  }

  /** Some queued path has the least deadline. */
  lemma EarliestExists(a: Agg) returns (p: Path)
    requires exists q :: Queued(a, q)
    ensures Earliest(a, p)
  {
    var rest := a.entries.Keys;
    p :| Queued(a, p);
    while rest != {}
      invariant Queued(a, p)
      invariant forall q :: Queued(a, q) && q !in rest ==> a.entries[p].deadline <= a.entries[q].deadline
      decreases rest
    {
      var q :| q in rest;
      if Queued(a, q) && a.entries[q].deadline < a.entries[p].deadline {
        p := q;
      }
      rest := rest - {q};
    }
  }

  /** Some list is what the pop phase hands over. */
  lemma ReadyListExists(a: Agg, now: Time) returns (ready: seq<Item>)
    ensures ReadyList(a, now, ready)
  {
    var paths := Listing(set p | p in a.entries && a.entries[p].queued && a.entries[p].deadline <= now);
    assert forall k :: 0 <= k < |paths| ==> paths[k] in Elements(paths);
    ready := seq(|paths|, k requires 0 <= k < |paths| => Item(paths[k], a.entries[paths[k]].version));
    forall p | IsDue(a, p, now) ensures Item(p, a.entries[p].version) in ready {
      assert p in Elements(paths);
      var k :| 0 <= k < |paths| && paths[k] == p;
      assert ready[k] == Item(p, a.entries[p].version);
    }
  }

  /** Blocked on the wake token, the shutdown signal and the timer, none of which has come. */
  ghost predicate Blocked(s: State) {
    s.worker.Waiting? && !s.wake && !s.closed && (s.worker.alarm.Some? ==> s.clock < s.worker.alarm.value.at)
  }

  /** The worker is not running, is blocked, or waits for its own delivery. */
  ghost predicate Idle(s: State) {
    WorkerDone(s) || Blocked(s) || (s.worker.Delivering? && s.worker.id in s.inflight)
  }

  /** A worker on its way to a flush can go on. */
  lemma LoopMove(s: State) returns (t: State)
    requires !Idle(s) && !s.worker.Due? && !s.worker.Flushing?
    ensures WorkerStep(s, t)
  {
    match s.worker {
      case LoopTop => t := s.(worker := if s.closed then Exited else Reading);
      case Reading =>
        if exists p :: Queued(s.agg, p) {
          var p := EarliestExists(s.agg);
          t := s.(worker := Deciding(s.agg.entries[p].deadline));
        } else {
          t := s.(worker := Waiting(None));
        }
      case Deciding(next) => t := s.(worker := if next - s.clock <= 0 then Due(s.clock) else Arming(next, s.clock));
      case Arming(next, readAt) => t := s.(worker := Waiting(Some(Alarm(s.clock + (next - readAt), s.clock - readAt))));
      case Waiting(_) =>
        t := if s.wake then s.(wake := false, worker := LoopTop)
             else s.(worker := if s.closed then Exited else Due(s.clock));
      case Delivering(ready, _) => t := s.(worker := Flushing(ready));
    }
  }

  /** A worker that is not idle can go on. */
  lemma WorkerMove(s: State) returns (t: State)
    requires !Idle(s) && s.blocks.Keys == s.agg.entries.Keys
    ensures WorkerStep(s, t)
  {
    match s.worker {
      case Due(now) =>
        var ready := ReadyListExists(s.agg, now);
        t := if s.closed then s.(worker := LoopTop) else s.(agg := PopDue(s.agg, now), worker := Flushing(ready));
        assert WorkerPop(s, t);
      case Flushing(ready) =>
        var w := RenderingExists("", Entry({}, {}, 0, 0, 0, 0, 0, false));
        if ready == [] {
          t := s.(worker := LoopTop);
        } else if !s.closed && CanTake(s.agg, ready[0].path, ready[0].version, false) {
          w := RenderingExists(ready[0].path, s.agg.entries[ready[0].path]);
          t := TakeAt(s, ready[0].path, w).(worker := Delivering(ready[1..], |s.taken|));
        } else {
          t := s.(worker := Flushing(ready[1..]));
        }
        assert WorkerFlush(s, t, w);
      case _ => t := LoopMove(s);
    }
  }

  lemma CloserMove(c: Setup, s: State) returns (t: State)
    requires Inv(c, s) && s.closed && s.inflight == {} && !s.closer.Returned?
    requires s.closer.Joining? ==> WorkerDone(s)
    ensures Progress(c, s, t)
  {
    var w := RenderingExists("", Entry({}, {}, 0, 0, 0, 0, 0, false));
    match s.closer {
      case Joining =>
        var paths := Listing(s.agg.entries.Keys);
        t := s.(closer := Draining(paths));
      case Draining(paths) =>
        if paths == [] {
          t := s.(closer := Awaiting);
        } else if paths[0] in s.agg.entries {
          w := RenderingExists(paths[0], s.agg.entries[paths[0]]);
          t := TakeAt(s, paths[0], w).(closer := Sending(paths[1..], |s.taken|));
        } else {
          t := s.(closer := Draining(paths[1..]));
        }
      case Sending(paths, _) => t := s.(closer := Draining(paths));
      case Awaiting => t := s.(closer := Returned);
    }
    assert Close(s, t, w);
  }

  lemma IdleDeliveriesProgress(c: Setup, s: State)
    requires Inv(c, s) && s.closed && !s.closer.Returned? && s.inflight == {}
    ensures exists t :: Progress(c, s, t)
  {
    if s.closer.Joining? && !WorkerDone(s) {
      var t := WorkerMove(s);
      assert Progress(c, s, t);
    } else {
      var t := CloserMove(c, s);
    }
  }

  /** While close is under way some awaited party can move. */
  lemma CloseIsNeverStuck(c: Setup, s: State)
    requires Inv(c, s) && s.closed && !s.closer.Returned?
    ensures exists t :: Progress(c, s, t)
  {
    if id :| id in s.inflight {
      var t := DeliverStep(c, s, id);
      assert Deliver(c, s, t, id);
      assert Progress(c, s, t);
    } else {
      IdleDeliveriesProgress(c, s);
    }
  }

  lemma CloserComesCloser(s: State, t: State, w: WatchEvent)
    requires s.closed && s.closer != Open && !s.closer.Returned? && Close(s, t, w)
    ensures Later(t.closer, s.closer)
  {
    if s.closer.Draining? && s.closer.paths != [] {
      assert t.closer.paths == s.closer.paths[1..];
    }
  }

  /** ... and every such move brings close nearer to its return, so it returns after finitely many of them. */
  lemma CloseTerminates(c: Setup, s: State, t: State)
    requires s.closed && s.closer != Open && !s.closer.Returned? && Progress(c, s, t)
    ensures RankBelow(t, s)
  {
    if id :| Deliver(c, s, t, id) {
      assert |t.inflight| == |s.inflight| - 1;
    } else if WorkerStep(s, t) {
      WorkerFrame(s, t);
    } else {
      var w :| Close(s, t, w);
      CloserComesCloser(s, t, w);
    }
  }

  /** The environment cannot undo that progress. */
  lemma EnvironmentKeepsRank(c: Setup, s: State, t: State)
    requires s.closed && Next(c, s, t) && !Progress(c, s, t)
    ensures CloserRank(t.closer) == CloserRank(s.closer) && t.inflight == s.inflight && t.worker == s.worker
  {
  }
}
