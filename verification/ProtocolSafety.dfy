/**
 What every run of the aggregator protocol keeps: no pending event is orphaned and no stale version flushes
 a newer one, deliveries are exactly the merges of consecutive blocks of what was accepted, the worker does
 not oversleep, events are conserved, and shutdown loses nothing and leaves nothing running.
 */
module ProtocolSafety {
  import opened Events
  import opened Protocol
  import opened Sorting
  import opened Wrappers

  // ---- Auxiliary views of a state ----

  /** The popped items the worker has still to handle. */
  function Ready(w: Worker): seq<Item> {
    match w
    case Flushing(ready) => ready
    case Delivering(ready, _) => ready
    case _ => []
  }

  /** The accepted raw events of one path, in order. */
  function Project(xs: seq<Accepted>, p: Path): seq<Accepted> {
    if xs == [] then []
    else Project(xs[..|xs| - 1], p) + (if xs[|xs| - 1].event.path == p then [xs[|xs| - 1]] else [])
  }

  /** The blocks that the takes of one path ended, in take order, put end to end. */
  function TakenOf(ts: seq<Taken>, p: Path): seq<Accepted> {
    if ts == [] then []
    else TakenOf(ts[..|ts| - 1], p) + (if ts[|ts| - 1].path == p then ts[|ts| - 1].block else [])
  }

  /** `w` is the merge of `block`: stated on the block alone. */
  ghost predicate MergesBlock(w: WatchEvent, path: Path, block: seq<Accepted>) {
    && block != []
    && (forall i :: 0 <= i < |block| ==> block[i].event.path == path)
    && w.path == path
    && Increasing(TypeLess, w.types) && (forall t: EventType :: t in w.types <==> TypeIn(block, t))
    && Increasing(StringLess, w.flags) && (forall f: string :: f in w.flags <==> FlagIn(block, f))
    && IsMaxId(block, w.id)
    && w.time == block[|block| - 1].at
  }

  /** A block has only one merge. */
  lemma MergeUnique(v: WatchEvent, w: WatchEvent, path: Path, block: seq<Accepted>)
    requires MergesBlock(v, path, block) && MergesBlock(w, path, block)
    ensures v == w
  {
    StringOrder();
    TypeOrder();
    assert Elements(v.types) == Elements(w.types) by {
      assert forall t: EventType :: t in v.types <==> t in w.types;
    }
    assert Elements(v.flags) == Elements(w.flags) by {
      assert forall f: string :: f in v.flags <==> f in w.flags;
    }
    IncreasingUnique(TypeLess, v.types, w.types);
    IncreasingUnique(StringLess, v.flags, w.flags);
  }

  // ---- The invariant, by concern ----

  /** An entry summarizes its block, which consists of past events of its path. */
  ghost predicate BlockOk(c: Setup, p: Path, e: Entry, block: seq<Accepted>, clock: Time) {
    && Summarizes(c.agg, e, block)
    && e.last <= clock
    && forall i :: 0 <= i < |block| ==> block[i].event.path == p
  }

  /** Pending entries summarize their blocks; takes rendered theirs. */
  ghost predicate DataOk(c: Setup, s: State) {
    && s.blocks.Keys == s.agg.entries.Keys
    && (forall p :: p in s.blocks ==> BlockOk(c, p, s.agg.entries[p], s.blocks[p], s.clock))
    && (forall i :: 0 <= i < |s.taken| ==> MergesBlock(s.taken[i].event, s.taken[i].path, s.taken[i].block))
  }

  /** The accepted events of every path are its taken blocks followed by its pending block. */
  ghost predicate HistoryOk(s: State) {
    forall p :: Project(s.accepted, p) == TakenOf(s.taken, p) + BlockOf(s, p)
  }

  /** An item whose version is still current is one that nothing touched since it was popped, when it was due. */
  ghost predicate VersionsOk(s: State) {
    && (forall p :: p in s.agg.entries ==> s.agg.entries[p].version <= s.agg.sequence)
    && (forall i :: 0 <= i < |Ready(s.worker)| ==>
         var item := Ready(s.worker)[i];
         && item.version <= s.agg.sequence
         && (item.path in s.agg.entries && s.agg.entries[item.path].version == item.version ==>
              !s.agg.entries[item.path].queued && s.agg.entries[item.path].deadline <= s.clock))
    && (s.worker.Due? ==> s.worker.now <= s.clock)
  }

  /** Before close, whatever left the heap is still on the worker's list under its current version. */
  ghost predicate NoOrphans(s: State) {
    !s.closed ==> forall p :: p in s.agg.entries && !s.agg.entries[p].queued ==>
      Item(p, s.agg.entries[p].version) in Ready(s.worker)
  }

  ghost predicate WorkerDone(s: State) {
    s.worker.Unborn? || s.worker.Exited?
  }

  ghost predicate ShutdownOk(s: State) {
    && (s.closed <==> s.closer != Open)
    && (s.worker.Unborn? && !s.closed ==> s.agg.entries == map[])
    && (s.worker.Exited? ==> s.closed)
    && (!s.closer.Open? && !s.closer.Joining? ==> WorkerDone(s))
    && (s.closer.Draining? ==> s.agg.entries.Keys <= Elements(s.closer.paths))
    && (s.closer.Sending? ==> s.agg.entries.Keys <= Elements(s.closer.paths))
    && (s.closer.Awaiting? ==> s.agg.entries == map[])
    && (s.closer.Returned? ==> s.agg.entries == map[] && s.inflight == {})
    && (s.channelsClosed ==> s.closer.Returned?)
  }

  /** `next` is the least deadline of the queued paths. */
  ghost predicate IsNext(s: State, next: Time) {
    exists p :: Earliest(s.agg, p) && s.agg.entries[p].deadline == next
  }

  /** With no token buffered, what the worker last read about the heap still holds. */
  ghost predicate SleepOk(s: State) {
    !s.wake ==>
      match s.worker
      case Deciding(next) => IsNext(s, next)
      case Arming(next, readAt) => IsNext(s, next) && readAt <= s.clock
      case Waiting(None) => forall p :: !Queued(s.agg, p)
      case Waiting(Some(alarm)) => IsNext(s, alarm.at - alarm.lag) && alarm.lag >= 0
      case _ => true
  }

  /** Every take is in flight or sent, never both. */
  ghost predicate DeliveryOk(s: State) {
    && s.inflight !! s.sent.Keys
    && (forall i :: i in s.inflight || i in s.sent <==> 0 <= i < |s.taken|)
    && s.processed + s.dropped + s.lost + |s.inflight| == |s.taken|
  }

  ghost predicate CountsOk(s: State) {
    && s.raw == s.filtered + |s.accepted|
    && |s.accepted| == s.coalesced + |s.taken| + |s.agg.entries|
  }

  /** A channel holds at most its capacity, and receivers block only on an empty buffer. */
  ghost predicate ChannelOk(capacity: nat, channel: Channel) {
    |channel.buffer| <= capacity && (channel.receivers > 0 ==> channel.buffer == [])
  }

  ghost predicate CapacityOk(c: Setup, s: State) {
    && (c.agg.maxPending > 0 ==> |s.agg.entries| <= c.agg.maxPending)
    && ChannelOk(c.eventsCap, s.channels.events) && ChannelOk(c.droppedCap, s.channels.dropped)
  }

  ghost predicate Inv(c: Setup, s: State) {
    && DataOk(c, s) && HistoryOk(s) && VersionsOk(s) && NoOrphans(s) && ShutdownOk(s)
    && SleepOk(s) && DeliveryOk(s) && CountsOk(s) && CapacityOk(c, s)
  }

  // ---- A take, whoever performs it ----

  lemma RenderingMerges(c: Setup, w: WatchEvent, p: Path, e: Entry, block: seq<Accepted>)
    requires Renders(w, p, e) && Summarizes(c.agg, e, block)
    requires forall i :: 0 <= i < |block| ==> block[i].event.path == p
    ensures MergesBlock(w, p, block)
  {
  }

  lemma TakeKeepsData(c: Setup, s: State, p: Path, w: WatchEvent)
    requires DataOk(c, s) && CanTakeAt(s, p, w)
    ensures DataOk(c, TakeAt(s, p, w))
  {
    RenderingMerges(c, w, p, s.agg.entries[p], s.blocks[p]);
  }

  lemma TakeKeepsHistory(s: State, p: Path, w: WatchEvent)
    requires HistoryOk(s) && p in s.blocks
    ensures HistoryOk(TakeAt(s, p, w))
  {
  }

  lemma TakeKeepsDelivery(s: State, p: Path, w: WatchEvent)
    requires DeliveryOk(s) && p in s.blocks
    ensures DeliveryOk(TakeAt(s, p, w))
  {
  }

  lemma TakeKeepsCounts(c: Setup, s: State, p: Path, w: WatchEvent)
    requires CountsOk(s) && CapacityOk(c, s) && p in s.agg.entries && p in s.blocks
    ensures CountsOk(TakeAt(s, p, w)) && CapacityOk(c, TakeAt(s, p, w))
    ensures |TakeAt(s, p, w).agg.entries| == |s.agg.entries| - 1
  {
  }

  // ---- Accepting an event ----

  lemma MergedBlockOk(c: Setup, e: Entry, block: seq<Accepted>, event: WatchEvent, clock: Time, version: nat)
    requires BlockOk(c, event.path, e, block, clock)
    ensures BlockOk(c, event.path, Merge(c.agg, e, event, clock, version), block + [Accepted(event, clock)], clock)
  {
    MergeSummarizes(c.agg, e, block, event, clock, version);
  }

  lemma FreshBlockOk(c: Setup, event: WatchEvent, clock: Time, version: nat)
    ensures BlockOk(c, event.path, Fresh(c.agg, event, clock, version), [] + [Accepted(event, clock)], clock)
  {
    FreshSummarizes(c.agg, event, clock, version);
    assert [] + [Accepted(event, clock)] == [Accepted(event, clock)];
  }

  /** What storing an event leaves at its path. */
  lemma StoredAt(c: Setup, s: State, event: WatchEvent)
    ensures var t := Store(c, s, event);
      && t.clock == s.clock && event.path in t.agg.entries && event.path in t.blocks
      && t.blocks[event.path] == BlockOf(s, event.path) + [Accepted(event, s.clock)]
      && t.agg.entries[event.path] ==
           if event.path in s.agg.entries
           then Merge(c.agg, s.agg.entries[event.path], event, s.clock, s.agg.sequence + 1)
           else Fresh(c.agg, event, s.clock, s.agg.sequence + 1)
  {
  }

  /** The entry of the accepted event summarizes its block and that event. */
  lemma StoredBlock(c: Setup, s: State, event: WatchEvent)
    requires s.blocks.Keys == s.agg.entries.Keys
    requires event.path in s.blocks ==>
      BlockOk(c, event.path, s.agg.entries[event.path], s.blocks[event.path], s.clock)
    ensures var t := Store(c, s, event);
      && event.path in t.agg.entries && event.path in t.blocks
      && BlockOk(c, event.path, t.agg.entries[event.path], t.blocks[event.path], t.clock)
  {
    StoredAt(c, s, event);
    if event.path in s.agg.entries {
      MergedBlockOk(c, s.agg.entries[event.path], s.blocks[event.path], event, s.clock, s.agg.sequence + 1);
    } else {
      FreshBlockOk(c, event, s.clock, s.agg.sequence + 1);
    }
  }

  lemma StoreKeepsData(c: Setup, s: State, event: WatchEvent)
    requires DataOk(c, s)
    ensures DataOk(c, Store(c, s, event))
  {
    var t := Store(c, s, event);
    StoredBlock(c, s, event);
    assert t.blocks.Keys == s.blocks.Keys + {event.path};
    assert t.agg.entries.Keys == s.agg.entries.Keys + {event.path};
    forall p | p in t.blocks && p != event.path
      ensures t.agg.entries[p] == s.agg.entries[p] && t.blocks[p] == s.blocks[p]
    {
    }
  }

  lemma StoreKeepsHistory(c: Setup, s: State, event: WatchEvent)
    requires HistoryOk(s)
    ensures HistoryOk(Store(c, s, event))
  {
    var t := Store(c, s, event);
    assert t.accepted[..|s.accepted|] == s.accepted;
    forall q ensures Project(t.accepted, q) == TakenOf(t.taken, q) + BlockOf(t, q) {
      assert Project(s.accepted, q) == TakenOf(s.taken, q) + BlockOf(s, q);
    }
  }

  lemma StoreKeepsCounts(c: Setup, s: State, event: WatchEvent)
    requires CountsOk(s) && CapacityOk(c, s)
    requires !MustEvict(c.agg, s.agg, event.path)
    ensures CountsOk(Store(c, s, event)) && CapacityOk(c, Store(c, s, event))
  {
  }

  /** The part of the invariant that speaks of versions, phases and sleep. */
  ghost predicate PhasesOk(s: State) {
    VersionsOk(s) && NoOrphans(s) && ShutdownOk(s)
  }

  lemma EvictKeepsPhases(s: State, p: Path, w: WatchEvent)
    requires PhasesOk(s) && !s.closed && CanTakeAt(s, p, w)
    ensures PhasesOk(TakeAt(s, p, w))
  {
  }

  lemma StoreKeepsPhases(c: Setup, s: State, event: WatchEvent)
    requires PhasesOk(s) && !s.closed
    ensures PhasesOk(Store(c, s, event)) && SleepOk(Store(c, s, event))
  {
  }

  /** The data, history and counting parts of the invariant. */
  ghost predicate LedgerOk(c: Setup, s: State) {
    DataOk(c, s) && HistoryOk(s) && DeliveryOk(s) && CountsOk(s) && CapacityOk(c, s)
  }

  lemma TakeKeepsLedger(c: Setup, s: State, p: Path, w: WatchEvent)
    requires LedgerOk(c, s) && CanTakeAt(s, p, w)
    ensures LedgerOk(c, TakeAt(s, p, w))
  {
    TakeKeepsData(c, s, p, w);
    TakeKeepsHistory(s, p, w);
    TakeKeepsDelivery(s, p, w);
    TakeKeepsCounts(c, s, p, w);
  }

  lemma AddKeepsInv(c: Setup, s: State, t: State, event: WatchEvent, victim: Option<Path>, w: WatchEvent)
    requires Inv(c, s) && Add(c, s, t, event, victim, w)
    ensures Inv(c, t)
  {
    var m := if victim.Some? then TakeAt(s, victim.value, w) else s;
    if victim.Some? {
      TakeKeepsCounts(c, s, victim.value, w);
      TakeKeepsLedger(c, s, victim.value, w);
      EvictKeepsPhases(s, victim.value, w);
    }
    assert !MustEvict(c.agg, m.agg, event.path);
    StoreKeepsData(c, m, event);
    StoreKeepsHistory(c, m, event);
    StoreKeepsCounts(c, m, event);
    StoreKeepsPhases(c, m, event);
    assert DeliveryOk(m) ==> DeliveryOk(t);
  }

  // ---- The worker ----

  lemma SameData(c: Setup, s: State, t: State)
    requires DataOk(c, s) && t.agg == s.agg && t.blocks == s.blocks && t.taken == s.taken && s.clock <= t.clock
    ensures DataOk(c, t)
  {
  }

  lemma SameHistory(s: State, t: State)
    requires HistoryOk(s) && t.accepted == s.accepted && t.taken == s.taken && t.blocks == s.blocks
    ensures HistoryOk(t)
  {
  }

  /** The ledger survives a step that moves only the clock, the worker, the closer or the wake token. */
  lemma SameLedger(c: Setup, s: State, t: State)
    requires LedgerOk(c, s)
    requires t == s.(clock := t.clock, worker := t.worker, closer := t.closer, closed := t.closed, wake := t.wake,
                     channelsClosed := t.channelsClosed, raw := t.raw, filtered := t.filtered)
    requires t.raw - s.raw == t.filtered - s.filtered
    requires s.clock <= t.clock
    ensures LedgerOk(c, t)
  {
    SameData(c, s, t);
    SameHistory(s, t);
  }

  lemma ReadingKeepsSleep(s: State, t: State)
    requires s.worker.Reading? && WorkerLoop(s, t)
    ensures SleepOk(t)
    ensures t == s.(worker := t.worker)
  {
  }

  lemma LoopKeepsSleep(s: State, t: State)
    requires SleepOk(s) && (WorkerLoop(s, t) || WorkerDelivered(s, t))
    ensures SleepOk(t)
    ensures t == s.(wake := t.wake, worker := t.worker)
  {
    if s.worker.Reading? {
      ReadingKeepsSleep(s, t);
    }
  }

  lemma LoopKeepsVersions(s: State, t: State)
    requires VersionsOk(s) && NoOrphans(s) && (WorkerLoop(s, t) || WorkerDelivered(s, t))
    requires t == s.(wake := t.wake, worker := t.worker)
    ensures VersionsOk(t) && NoOrphans(t)
  {
    assert Ready(t.worker) == Ready(s.worker);
    assert t.worker.Due? ==> t.worker.now == s.clock;
  }

  lemma LoopKeepsPhases(s: State, t: State)
    requires PhasesOk(s) && SleepOk(s) && (WorkerLoop(s, t) || WorkerDelivered(s, t))
    ensures PhasesOk(t) && SleepOk(t)
    ensures t == s.(wake := t.wake, worker := t.worker)
  {
    LoopKeepsSleep(s, t);
    LoopKeepsVersions(s, t);
    assert t.agg == s.agg;
  }

  lemma LoopKeepsInv(c: Setup, s: State, t: State)
    requires Inv(c, s) && (WorkerLoop(s, t) || WorkerDelivered(s, t))
    ensures Inv(c, t)
  {
    LoopKeepsPhases(s, t);
    SameLedger(c, s, t);
  }

  lemma PopKeepsData(c: Setup, s: State, t: State)
    requires DataOk(c, s) && s.worker.Due? && t == s.(agg := PopDue(s.agg, s.worker.now), worker := t.worker)
    ensures DataOk(c, t) && t.agg.entries.Keys == s.agg.entries.Keys
  {
    assert t.agg.entries.Keys == s.agg.entries.Keys;
    forall p | p in t.blocks
      ensures Summarizes(c.agg, t.agg.entries[p], t.blocks[p]) && t.agg.entries[p].last <= t.clock
    {
      var e := s.agg.entries[p];
      assert t.agg.entries[p] == e.(queued := t.agg.entries[p].queued);
    }
  }

  lemma PopKeepsLedger(c: Setup, s: State, t: State)
    requires LedgerOk(c, s) && s.worker.Due? && t == s.(agg := PopDue(s.agg, s.worker.now), worker := t.worker)
    ensures LedgerOk(c, t)
  {
    SameHistory(s, t);
    PopKeepsData(c, s, t);
    assert |t.agg.entries| == |t.agg.entries.Keys| && |s.agg.entries| == |s.agg.entries.Keys|;
  }

  lemma PopKeepsPhases(s: State, t: State, ready: seq<Item>)
    requires PhasesOk(s) && !s.closed && s.worker.Due?
    requires ReadyList(s.agg, s.worker.now, ready)
    requires t == s.(agg := PopDue(s.agg, s.worker.now), worker := Flushing(ready))
    ensures PhasesOk(t)
  {
  }

  lemma PopKeepsInv(c: Setup, s: State, t: State)
    requires Inv(c, s) && WorkerPop(s, t)
    ensures Inv(c, t)
  {
    if s.closed {
      SameLedger(c, s, t);
    } else {
      var ready :| ReadyList(s.agg, s.worker.now, ready)
                   && t == s.(agg := PopDue(s.agg, s.worker.now), worker := Flushing(ready));
      PopKeepsPhases(s, t, ready);
      PopKeepsLedger(c, s, t);
    }
  }

  lemma SkipKeepsPhases(s: State, t: State)
    requires PhasesOk(s) && s.worker.Flushing?
    requires s.worker.ready == [] || s.closed
             || !CanTake(s.agg, s.worker.ready[0].path, s.worker.ready[0].version, false)
    requires t == if s.worker.ready == [] then s.(worker := LoopTop) else s.(worker := Flushing(s.worker.ready[1..]))
    ensures PhasesOk(t)
  {
    if s.worker.ready != [] {
      assert forall i :: 0 <= i < |Ready(t.worker)| ==> Ready(t.worker)[i] == Ready(s.worker)[i + 1];
      if !s.closed {
        forall p | p in t.agg.entries && !t.agg.entries[p].queued
          ensures Item(p, t.agg.entries[p].version) in Ready(t.worker)
        {
          var i :| 0 <= i < |Ready(s.worker)| && Ready(s.worker)[i] == Item(p, s.agg.entries[p].version);
          assert i != 0;
          assert Ready(t.worker)[i - 1] == Item(p, t.agg.entries[p].version);
        }
      }
    }
  }

  lemma TakeKeepsPhases(s: State, t: State, w: WatchEvent)
    requires PhasesOk(s) && s.worker.Flushing? && s.worker.ready != [] && !s.closed
    requires CanTakeAt(s, s.worker.ready[0].path, w)
    requires t == TakeAt(s, s.worker.ready[0].path, w).(worker := Delivering(s.worker.ready[1..], |s.taken|))
    ensures PhasesOk(t)
  {
    assert forall i :: 0 <= i < |Ready(t.worker)| ==> Ready(t.worker)[i] == Ready(s.worker)[i + 1];
    forall p | p in t.agg.entries && !t.agg.entries[p].queued
      ensures Item(p, t.agg.entries[p].version) in Ready(t.worker)
    {
      var i :| 0 <= i < |Ready(s.worker)| && Ready(s.worker)[i] == Item(p, s.agg.entries[p].version);
      assert i != 0;
      assert Ready(t.worker)[i - 1] == Item(p, t.agg.entries[p].version);
    }
  }

  /** A take that also moves the worker or the closer on. */
  lemma TakeAndMoveKeepsLedger(c: Setup, s: State, t: State, p: Path, w: WatchEvent)
    requires LedgerOk(c, s) && CanTakeAt(s, p, w)
    requires t == TakeAt(s, p, w).(worker := t.worker, closer := t.closer)
    ensures LedgerOk(c, t)
  {
    TakeKeepsLedger(c, s, p, w);
    SameLedger(c, TakeAt(s, p, w), t);
  }

  /** The step of the second phase that takes its path. */
  ghost predicate Flushes(s: State) {
    && s.worker.Flushing? && s.worker.ready != [] && !s.closed
    && CanTake(s.agg, s.worker.ready[0].path, s.worker.ready[0].version, false)
  }

  lemma FlushKeepsPhases(s: State, t: State, w: WatchEvent)
    requires PhasesOk(s) && WorkerFlush(s, t, w)
    ensures PhasesOk(t) && SleepOk(t)
  {
    if Flushes(s) {
      TakeKeepsPhases(s, t, w);
    } else {
      SkipKeepsPhases(s, t);
    }
  }

  lemma FlushKeepsLedger(c: Setup, s: State, t: State, w: WatchEvent)
    requires LedgerOk(c, s) && WorkerFlush(s, t, w)
    ensures LedgerOk(c, t)
  {
    if Flushes(s) {
      TakeAndMoveKeepsLedger(c, s, t, s.worker.ready[0].path, w);
    } else {
      SameLedger(c, s, t);
    }
  }

  lemma FlushKeepsInv(c: Setup, s: State, t: State, w: WatchEvent)
    requires Inv(c, s) && WorkerFlush(s, t, w)
    ensures Inv(c, t)
  {
    FlushKeepsPhases(s, t, w);
    FlushKeepsLedger(c, s, t, w);
  }

  // ---- Closing and delivering ----

  lemma DrainOne(paths: seq<Path>)
    requires paths != []
    ensures Elements(paths) == {paths[0]} + Elements(paths[1..])
  {
  }

  /** The closing step that takes a pending path. */
  ghost predicate Drains(s: State) {
    s.closer.Draining? && s.closer.paths != [] && s.closer.paths[0] in s.agg.entries
  }

  lemma CloseFrame(s: State, t: State, w: WatchEvent)
    requires Close(s, t, w)
    ensures if Drains(s)
      then CanTakeAt(s, s.closer.paths[0], w) && t == TakeAt(s, s.closer.paths[0], w).(closer := t.closer)
      else t == s.(closer := t.closer, closed := t.closed, channelsClosed := t.channelsClosed)
    ensures s.closed ==> t.closed
  {
  }

  lemma CloseKeepsLedger(c: Setup, s: State, t: State, w: WatchEvent)
    requires LedgerOk(c, s) && Close(s, t, w)
    ensures LedgerOk(c, t)
  {
    CloseFrame(s, t, w);
    if Drains(s) {
      TakeAndMoveKeepsLedger(c, s, t, s.closer.paths[0], w);
    } else {
      SameLedger(c, s, t);
    }
  }

  /** Draining happens only when the worker is done, so nothing it relies on can change. */
  lemma DrainKeepsPhases(s: State, t: State, w: WatchEvent)
    requires PhasesOk(s) && SleepOk(s) && Close(s, t, w) && Drains(s)
    ensures PhasesOk(t) && SleepOk(t)
  {
    DrainOne(s.closer.paths);
    assert WorkerDone(s) && t.worker == s.worker;
  }

  lemma CloseKeepsPhases(s: State, t: State, w: WatchEvent)
    requires PhasesOk(s) && SleepOk(s) && Close(s, t, w)
    ensures PhasesOk(t) && SleepOk(t)
  {
    if Drains(s) {
      DrainKeepsPhases(s, t, w);
    } else {
      CloseFrame(s, t, w);
      if s.closer.Draining? && s.closer.paths != [] {
        DrainOne(s.closer.paths);
      }
    }
  }

  lemma CloseKeepsInv(c: Setup, s: State, t: State, w: WatchEvent)
    requires Inv(c, s) && Close(s, t, w)
    ensures Inv(c, t)
  {
    CloseKeepsPhases(s, t, w);
    CloseKeepsLedger(c, s, t, w);
  }

  lemma DeliverKeepsDelivery(c: Setup, s: State, t: State, id: nat)
    requires DeliveryOk(s) && Deliver(c, s, t, id)
    ensures DeliveryOk(t)
  {
  }

  lemma DeliverKeepsLedger(c: Setup, s: State, t: State, id: nat)
    requires LedgerOk(c, s) && Deliver(c, s, t, id)
    ensures LedgerOk(c, t)
  {
    SameData(c, s, t);
    SameHistory(s, t);
    DeliverKeepsDelivery(c, s, t, id);
  }

  /** Time and deliveries do not touch the phases. */
  lemma SamePhases(s: State, t: State)
    requires PhasesOk(s) && SleepOk(s)
    requires t.agg == s.agg && t.worker == s.worker && t.closer == s.closer && t.closed == s.closed && t.wake == s.wake
    requires s.clock <= t.clock && t.channelsClosed == s.channelsClosed && t.inflight <= s.inflight
    ensures PhasesOk(t) && SleepOk(t)
  {
  }

  lemma DeliverKeepsInv(c: Setup, s: State, t: State, id: nat)
    requires Inv(c, s) && Deliver(c, s, t, id)
    ensures Inv(c, t)
  {
    DeliverKeepsLedger(c, s, t, id);
    SamePhases(s, t);
  }

  lemma EnvironmentKeepsInv(c: Setup, s: State, t: State)
    requires Inv(c, s) && (Tick(s, t) || Filter(s, t) || Refuse(s, t))
    ensures Inv(c, t)
  {
    assert s.clock <= t.clock && t == s.(clock := t.clock, raw := t.raw, filtered := t.filtered);
    SamePhases(s, t);
    SameLedger(c, s, t);
  }

  lemma ReceiveKeepsLedger(c: Setup, s: State, t: State)
    requires LedgerOk(c, s) && t == s.(channels := t.channels)
    requires ChannelOk(c.eventsCap, t.channels.events) && ChannelOk(c.droppedCap, t.channels.dropped)
    ensures LedgerOk(c, t)
  {
    SameData(c, s, t);
    SameHistory(s, t);
  }

  lemma ReceiveKeepsInv(c: Setup, s: State, t: State)
    requires Inv(c, s) && Receive(s, t)
    ensures Inv(c, t)
  {
    assert t == s.(channels := t.channels);
    SamePhases(s, t);
    ReceiveKeepsLedger(c, s, t);
  }

  // ---- Runs ----

  lemma InitInv(c: Setup, s: State)
    requires Init(s)
    ensures Inv(c, s)
  {
  }

  lemma NextKeepsInv(c: Setup, s: State, t: State)
    requires Inv(c, s) && Next(c, s, t)
    ensures Inv(c, t)
  {
    if Tick(s, t) || Filter(s, t) || Refuse(s, t) {
      EnvironmentKeepsInv(c, s, t);
    } else if Receive(s, t) {
      ReceiveKeepsInv(c, s, t);
    } else if event, victim, w :| Add(c, s, t, event, victim, w) {
      AddKeepsInv(c, s, t, event, victim, w);
    } else if WorkerLoop(s, t) || WorkerDelivered(s, t) {
      LoopKeepsInv(c, s, t);
    } else if WorkerPop(s, t) {
      PopKeepsInv(c, s, t);
    } else if w :| WorkerFlush(s, t, w) {
      FlushKeepsInv(c, s, t, w);
    } else if w :| Close(s, t, w) {
      CloseKeepsInv(c, s, t, w);
    } else {
      var id :| Deliver(c, s, t, id);
      DeliverKeepsInv(c, s, t, id);
    }
  }

  lemma StepKeepsInv(c: Setup, r: seq<State>, i: nat)
    requires Run(c, r) && 0 < i < |r| && Inv(c, r[i - 1])
    ensures Inv(c, r[i])
  {
    assert StepAt(c, r, i - 1);
    NextKeepsInv(c, r[i - 1], r[i]);
  }

  lemma {:induction false} RunInv(c: Setup, r: seq<State>, i: nat)
    requires Run(c, r) && i < |r|
    ensures Inv(c, r[i])
  {
    if i == 0 {
      InitInv(c, r[i]);
    } else {
      RunInv(c, r, i - 1);
      StepKeepsInv(c, r, i);
    }
  }
}
