/**
 The watcher around its aggregator: filters, critical sections, deliveries and the counters they keep, coupled to a
 state of the protocol. What the code does between two moments at which others may come in between is one step of
 the protocol.
 */
module Intake {
  import opened Aggregator
  import opened Delivery
  import opened Events
  import opened Protocol
  import opened ProtocolSafety
  import opened ProtocolTheorems
  import opened RootIndex
  import opened Sets
  import opened Sorting
  import opened Watcher
  import opened Wrappers

  /** The protocol's step for an event that reached the aggregator. */
  ghost predicate Accepts(c: Setup, s: State, t: State, event: WatchEvent) {
    if s.closed then Refuse(s, t) else exists victim, w :: Add(c, s, t, event, victim, w)
  }

  /** Refused events leave no trace, filtered ones are counted, and forwarded ones reach the aggregator. */
  ghost predicate IsStepOf(c: Setup, s: State, t: State, v: Verdict) {
    match v
    case Refused => t == s
    case Filtered => Filter(s, t)
    case Forward(passed) => Accepts(c, s, t, passed)
  }

  /** The protocol state after an accepted event. */
  ghost function Stored(c: Setup, s: State, event: WatchEvent, victim: Option<Path>,
                        evicted: Option<WatchEvent>): State {
    Store(c, if victim.Some? && evicted.Some? && victim.value in s.blocks then TakeAt(s, victim.value, evicted.value)
             else s, event)
  }

  /** A delivery in flight is one of the takes. */
  ghost predicate HandedOut(s: State) {
    forall id :: id in s.inflight ==> id < |s.taken|
  }

  /** Two states that differ in nothing that delivering changes. */
  ghost predicate SameDeliveries(s: State, t: State) {
    && t.channels == s.channels && t.processed == s.processed && t.dropped == s.dropped && t.lost == s.lost
  }

  /** The take `id` handed out this event, and its delivery is not finished. */
  ghost predicate InFlight(s: State, id: nat, event: WatchEvent) {
    id in s.inflight && id < |s.taken| && s.taken[id].event == event
  }

  lemma TakenInFlight(s: State, path: Path, w: WatchEvent)
    requires HandedOut(s) && path in s.blocks
    ensures var t := TakeAt(s, path, w);
      && HandedOut(t) && |t.inflight| == |s.inflight| + 1 && SameDeliveries(s, t) && InFlight(t, |s.taken|, w)
  {
  }

  lemma StoredInFlight(c: Setup, s: State, event: WatchEvent, victim: Option<Path>, evicted: Option<WatchEvent>)
    requires s.blocks.Keys == s.agg.entries.Keys && HandedOut(s) && VictimOk(c.agg, s.agg, event.path, victim)
    requires evicted.Some? <==> victim.Some?
    ensures var t := Stored(c, s, event, victim, evicted);
      && HandedOut(t) && |t.inflight| == |s.inflight| + One(evicted.Some?) && SameDeliveries(s, t)
      && (evicted.Some? ==> InFlight(t, |s.taken|, evicted.value))
  {
    if victim.Some? {
      TakenInFlight(s, victim.value, evicted.value);
    }
  }

  lemma StoredIsAdd(c: Setup, s: State, event: WatchEvent, victim: Option<Path>,
                    evicted: Option<WatchEvent>, after: Agg)
    requires s.blocks.Keys == s.agg.entries.Keys && !s.closed
    requires Adds(c.agg, s.agg, event, s.clock, victim, after)
    requires evicted.Some? <==> victim.Some?
    requires victim.Some? ==> Renders(evicted.value, victim.value, s.agg.entries[victim.value])
    ensures var t := Stored(c, s, event, victim, evicted);
      && Accepts(c, s, t, event) && t.agg == after && t.blocks.Keys == t.agg.entries.Keys
      && t.coalesced == s.coalesced + One(event.path in s.agg.entries) && t.filtered == s.filtered && !t.closed
  {
    var t := Stored(c, s, event, victim, evicted);
    var w := if evicted.Some? then evicted.value else event;
    assert Add(c, s, t, event, victim, w);
  }

  /** A take of the listed path, or none, that moves the worker on is a step of the second phase. */
  lemma FlushIsStep(s: State, t: State, item: Item, rest: seq<Item>, taken: Option<WatchEvent>)
    requires s.worker == Flushing([item] + rest)
    requires taken.Some? <==> !s.closed && CanTake(s.agg, item.path, item.version, false)
    requires taken.Some? ==> CanTakeAt(s, item.path, taken.value)
    requires t == (if taken.Some? then TakeAt(s, item.path, taken.value) else s)
                  .(worker := if taken.Some? then Delivering(rest, |s.taken|) else Flushing(rest))
    ensures exists w :: WorkerFlush(s, t, w)
  {
    assert ([item] + rest)[1..] == rest;
    if taken.Some? {
      assert WorkerFlush(s, t, taken.value);
    } else {
      assert WorkerFlush(s, t, WatchEvent(0, item.path, [], [], 0));
    }
  }

  /** A forced take of a collected path, or none, that moves the closer on is a step of the close sequence. */
  lemma DrainIsStep(s: State, t: State, path: Path, rest: seq<Path>, taken: Option<WatchEvent>)
    requires s.closer == Draining([path] + rest)
    requires taken.Some? <==> path in s.agg.entries
    requires taken.Some? ==> CanTakeAt(s, path, taken.value)
    requires t == (if taken.Some? then TakeAt(s, path, taken.value) else s)
                  .(closer := if taken.Some? then Sending(rest, |s.taken|) else Draining(rest))
    ensures exists w :: Close(s, t, w)
  {
    assert ([path] + rest)[1..] == rest;
    if taken.Some? {
      assert Close(s, t, taken.value);
    } else {
      assert Close(s, t, WatchEvent(0, path, [], [], 0));
    }
  }

  /** A list of what the pop phase popped moves the worker on to the second phase. */
  lemma PopIsStep(s: State, now: Time, ready: seq<Item>)
    requires s.worker == Due(now) && !s.closed && s.blocks.Keys == s.agg.entries.Keys
    requires ReadyList(s.agg, now, ready)
    ensures var t := s.(agg := PopDue(s.agg, now), worker := Flushing(ready));
      WorkerPop(s, t) && t.blocks.Keys == t.agg.entries.Keys
  {
    assert PopDue(s.agg, now).entries.Keys == s.agg.entries.Keys;
  }

  /** The paths of a set in any order. */
  method ListPaths(pending: set<Path>) returns (paths: seq<Path>)
    ensures Elements(paths) == pending
  {
    paths := [];
    var rest := pending;
    while rest != {}
      invariant rest <= pending && Elements(paths) == pending - rest
      decreases rest
    {
      var path :| path in rest;
      assert Elements(paths + [path]) == Elements(paths) + {path};
      paths, rest := paths + [path], rest - {path};
    }
  }

  method NewRoots(watched: seq<WatchPath>) returns (roots: RootSet)
    ensures fresh(roots) && roots.Valid() && roots.eventsFiltered == 0
  {
    roots := new RootSet(watched);
  }

  class Pipeline {
    const setup: Setup
    const roots: RootSet
    const aggregator: EventAggregator
    const sink: Sink
    var isClosed: bool
    var eventsCoalesced: nat
    /** The takes whose delivery is not finished. */
    var deliveries: nat
    /** The state of the protocol that the fields above are part of. */
    ghost var protocol: State

    constructor (setup: Setup, watched: seq<WatchPath>, ghost start: State)
      requires Init(start)
      ensures roots.Valid() && AggregatorOk() && Lagging(0) && SinkOk()
      ensures protocol == start && this.setup == setup && !isClosed
    {
      this.setup := setup;
      var initial := NewRoots(watched);
      roots := initial;
      aggregator := new EventAggregator(setup.agg);
      sink := new Sink(setup);
      isClosed, eventsCoalesced, deliveries, protocol := false, 0, 0, start;
    }

    /** Fields and counters are those of the protocol state, which may lag behind by filtered events. */
    ghost predicate Lagging(behind: nat)
      reads this, roots`eventsFiltered, aggregator`state
    {
      && setup.agg == aggregator.config
      && protocol.agg == aggregator.state
      && protocol.filtered + behind == roots.eventsFiltered
      && protocol.coalesced == eventsCoalesced
      && protocol.closed == isClosed
      && protocol.blocks.Keys == protocol.agg.entries.Keys
    }

    /** Channels, their counters and the deliveries under way are those of the protocol state. */
    ghost predicate SinkOk()
      reads this, sink
    {
      && sink.setup == setup
      && sink.Coupled(protocol)
      && HandedOut(protocol)
      && deliveries == |protocol.inflight|
    }

    ghost predicate AggregatorOk()
      reads aggregator, aggregator.deadlines, aggregator.events.Values
      reads aggregator.deadlines.items, aggregator.deadlines.nodes
    {
      aggregator.Valid()
    }

    /** Counts and moves on to the next protocol state. */
    method Settle(ghost t: State, merged: nat, taken: nat)
      requires AggregatorOk() && setup.agg == aggregator.config && SinkOk()
      requires t.agg == aggregator.state && t.filtered == roots.eventsFiltered
      requires t.coalesced == eventsCoalesced + merged && t.closed == isClosed && t.blocks.Keys == t.agg.entries.Keys
      requires HandedOut(t) && |t.inflight| == |protocol.inflight| + taken && SameDeliveries(protocol, t)
      modifies this`eventsCoalesced, this`deliveries, this`protocol
      ensures AggregatorOk() && Lagging(0) && SinkOk() && protocol == t
    {
      eventsCoalesced := eventsCoalesced + merged;
      deliveries := deliveries + taken;
      protocol := t;
    }

    method Accept(event: WatchEvent, now: Time) returns (evicted: Option<WatchEvent>, ghost victim: Option<Path>)
      requires AggregatorOk()
      modifies aggregator, aggregator.deadlines, aggregator.events.Values
      ensures AggregatorOk() && Adds(aggregator.config, old(aggregator.state), event, now, victim, aggregator.state)
      ensures evicted.Some? <==> victim.Some?
      ensures victim.Some? ==> Renders(evicted.value, victim.value, old(aggregator.state).entries[victim.value])
    {
      evicted, victim := aggregator.AddEventLocked(event, now);
    }

    /** Accepting an event is the protocol's step `Add`, or `Refuse` once closed; what it evicts is then in flight. */
    method AddEvent(event: WatchEvent, now: Time) returns (evicted: Option<WatchEvent>)
      requires AggregatorOk() && Lagging(0) && SinkOk() && now == protocol.clock
      modifies this`eventsCoalesced, this`deliveries, this`protocol
      modifies aggregator, aggregator.deadlines, aggregator.events.Values
      ensures AggregatorOk() && Lagging(0) && SinkOk()
      ensures Accepts(setup, old(protocol), protocol, event)
      ensures evicted.Some? ==> InFlight(protocol, |old(protocol).taken|, evicted.value)
    {
      if isClosed {
        return None;
      }
      ghost var before := protocol;
      var known := event.path in aggregator.events;
      ghost var victim;
      evicted, victim := Accept(event, now);
      StoredIsAdd(setup, before, event, victim, evicted, aggregator.state);
      StoredInFlight(setup, before, event, victim, evicted);
      Settle(Stored(setup, before, event, victim, evicted), One(known), One(evicted.Some?));
    }

    /** The filters, before anything else happens. */
    method Sift(event: WatchEvent, shuttingDown: bool, ignored: (string, WatchPath) -> bool, accepts: string -> bool)
        returns (v: Verdict, ghost root: Option<WatchPath>)
      requires roots.Valid() && AggregatorOk() && Lagging(0)
      modifies roots`eventsFiltered
      ensures AggregatorOk() && Lagging(One(v.Filtered?))
      ensures Classified(roots.watchedPaths, event, shuttingDown, ignored, accepts, v, root)
    {
      var invalidation;
      v, invalidation, root := roots.HandlePlatformEvent(event, shuttingDown, ignored, accepts);
    }

    /** What follows a verdict is one step of the protocol. */
    method Follow(v: Verdict, now: Time)
      requires AggregatorOk() && Lagging(One(v.Filtered?)) && SinkOk() && now == protocol.clock
      modifies this`eventsCoalesced, this`deliveries, this`protocol
      modifies aggregator, aggregator.deadlines, aggregator.events.Values
      ensures AggregatorOk() && Lagging(0) && SinkOk() && IsStepOf(setup, old(protocol), protocol, v)
    {
      match v {
        case Refused =>
        case Filtered => Settle(protocol.(raw := protocol.raw + 1, filtered := protocol.filtered + 1), 0, 0);
        case Forward(passed) => var evicted := AddEvent(passed, now);
      }
    }

    /** What the watcher does with a raw event is one step of the protocol, whatever becomes of it. The roots stay
        valid, as what follows the verdict does not touch them (`RootsKept`). */
    method HandlePlatformEvent(event: WatchEvent, now: Time, shuttingDown: bool,
                               ignored: (string, WatchPath) -> bool, accepts: string -> bool)
        returns (v: Verdict, ghost root: Option<WatchPath>)
      requires roots.Valid() && AggregatorOk() && Lagging(0) && SinkOk() && now == protocol.clock
      modifies this`eventsCoalesced, this`deliveries, this`protocol
      modifies aggregator, aggregator.deadlines, aggregator.events.Values, roots`eventsFiltered
      ensures AggregatorOk() && Lagging(0) && SinkOk() && IsStepOf(setup, old(protocol), protocol, v)
      ensures Classified(roots.watchedPaths, event, shuttingDown, ignored, accepts, v, root)
    {
      v, root := Sift(event, shuttingDown, ignored, accepts);
      Follow(v, now);
    }

    /** The section of `flushPath`: what it takes is in flight; a closed aggregator gives nothing up unless forced. */
    method TakePath(path: Path, version: nat, force: bool) returns (taken: Option<WatchEvent>)
      requires AggregatorOk() && Lagging(0) && SinkOk()
      modifies this`eventsCoalesced, this`deliveries, this`protocol, aggregator`events, aggregator`state
      modifies aggregator.deadlines, aggregator.deadlines.nodes`heapIndex
      ensures AggregatorOk() && Lagging(0) && SinkOk()
      ensures taken.Some? <==> (force || !isClosed) && CanTake(old(protocol).agg, path, version, force)
      ensures taken.Some? ==> CanTakeAt(old(protocol), path, taken.value)
      ensures protocol == if taken.Some? then TakeAt(old(protocol), path, taken.value) else old(protocol)
    {
      if !force && isClosed {
        return None;
      }
      ghost var before := protocol;
      taken := aggregator.TakeEventLocked(path, version, force);
      if taken.Some? {
        TakenInFlight(before, path, taken.value);
        Settle(TakeAt(before, path, taken.value), 0, 1);
      }
    }

    /** Moves the worker and the closer on. */
    ghost method Move(worker: Worker, closer: Closer)
      requires AggregatorOk() && Lagging(0) && SinkOk()
      modifies this`protocol
      ensures AggregatorOk() && Lagging(0) && SinkOk()
      ensures protocol == old(protocol).(worker := worker, closer := closer)
    {
      protocol := protocol.(worker := worker, closer := closer);
    }

    /** Reading the earliest deadline is the worker's step at `Reading`. */
    method ReadDeadline() returns (next: Option<Time>)
      requires AggregatorOk() && Lagging(0) && SinkOk() && protocol.worker.Reading?
      modifies this`protocol
      ensures AggregatorOk() && Lagging(0) && SinkOk()
      ensures WorkerLoop(old(protocol), protocol)
      ensures protocol.worker == if next.Some? then Deciding(next.value) else Waiting(None)
    {
      next := aggregator.NextDeadline();
      Move(if next.Some? then Deciding(next.value) else Waiting(None), protocol.closer);
    }

    /** The pop phase of a flush is the step `WorkerPop`. */
    method PopDuePaths(now: Time) returns (ready: seq<Item>)
      requires AggregatorOk() && Lagging(0) && SinkOk() && protocol.worker == Due(now)
      modifies this`eventsCoalesced, this`deliveries, this`protocol
      modifies aggregator`state, aggregator.deadlines, aggregator.deadlines.nodes`heapIndex
      ensures AggregatorOk() && Lagging(0) && SinkOk()
      ensures WorkerPop(old(protocol), protocol)
      ensures protocol.worker == if isClosed then LoopTop else Flushing(ready)
    {
      if isClosed {
        Move(LoopTop, protocol.closer);
        return [];
      }
      ghost var before := protocol;
      ready := aggregator.FlushDueLocked(now);
      PopIsStep(before, now, ready);
      Settle(before.(agg := PopDue(before.agg, now), worker := Flushing(ready)), 0, 0);
    }

    /** One listed path of the second phase is the step `WorkerFlush`. */
    method FlushNext(item: Item, ghost rest: seq<Item>) returns (taken: Option<WatchEvent>)
      requires AggregatorOk() && Lagging(0) && SinkOk() && protocol.worker == Flushing([item] + rest)
      modifies this`eventsCoalesced, this`deliveries, this`protocol, aggregator`events, aggregator`state
      modifies aggregator.deadlines, aggregator.deadlines.nodes`heapIndex
      ensures AggregatorOk() && Lagging(0) && SinkOk()
      ensures exists w :: WorkerFlush(old(protocol), protocol, w)
      ensures if taken.Some?
        then protocol.worker == Delivering(rest, |old(protocol).taken|)
             && InFlight(protocol, |old(protocol).taken|, taken.value)
        else protocol.worker == Flushing(rest)
    {
      ghost var before := protocol;
      taken := TakePath(item.path, item.version, false);
      Move(if taken.Some? then Delivering(rest, |before.taken|) else Flushing(rest), before.closer);
      FlushIsStep(before, protocol, item, rest, taken);
    }

    /** Setting the closed flag is the first step of `Close`. */
    method BeginClose()
      requires AggregatorOk() && Lagging(0) && SinkOk() && protocol.closer.Open?
      modifies this`isClosed, this`protocol
      ensures AggregatorOk() && Lagging(0) && SinkOk() && isClosed
      ensures exists w :: Close(old(protocol), protocol, w)
    {
      ghost var before := protocol;
      isClosed := true;
      protocol := protocol.(closed := true, closer := Joining);
      assert Close(before, protocol, WatchEvent(0, "", [], [], 0));
    }

    /** Once the worker is done, what is still pending is collected to be flushed. */
    method CollectPaths() returns (paths: seq<Path>)
      requires AggregatorOk() && Lagging(0) && SinkOk() && protocol.closer.Joining? && WorkerDone(protocol)
      modifies this`protocol
      ensures AggregatorOk() && Lagging(0) && SinkOk()
      ensures exists w :: Close(old(protocol), protocol, w)
      ensures protocol.closer == Draining(paths)
    {
      ghost var before := protocol;
      paths := ListPaths(aggregator.events.Keys);
      Move(protocol.worker, Draining(paths));
      assert Close(before, protocol, WatchEvent(0, "", [], [], 0));
    }

    /** A forced flush of one collected path is a step of `Close`. */
    method DrainNext(path: Path, ghost rest: seq<Path>) returns (taken: Option<WatchEvent>)
      requires AggregatorOk() && Lagging(0) && SinkOk() && protocol.closer == Draining([path] + rest)
      modifies this`eventsCoalesced, this`deliveries, this`protocol, aggregator`events, aggregator`state
      modifies aggregator.deadlines, aggregator.deadlines.nodes`heapIndex
      ensures AggregatorOk() && Lagging(0) && SinkOk()
      ensures exists w :: Close(old(protocol), protocol, w)
      ensures if taken.Some?
        then protocol.closer == Sending(rest, |old(protocol).taken|)
             && InFlight(protocol, |old(protocol).taken|, taken.value)
        else protocol.closer == Draining(rest)
    {
      ghost var before := protocol;
      taken := TakePath(path, 0, true);
      Move(before.worker, if taken.Some? then Sending(rest, |before.taken|) else Draining(rest));
      DrainIsStep(before, protocol, path, rest, taken);
    }

    /** Sending what a take handed out is the step `Deliver`, wherever the take was made. */
    method DeliverEvent(event: WatchEvent, ghost id: nat)
      requires AggregatorOk() && Lagging(0) && SinkOk() && InFlight(protocol, id, event)
      modifies this`deliveries, this`protocol, sink
      ensures AggregatorOk() && Lagging(0) && SinkOk()
      ensures Deliver(setup, old(protocol), protocol, id)
    {
      ghost var before := protocol;
      sink.SendToChannel(event);
      deliveries := deliveries - 1;
      protocol := DeliverStep(setup, before, id);
    }

    /** In every run up to this state the counters of the watcher, what the aggregator holds and what is being
        delivered add up to the raw events that were not refused. */
    lemma CountersAreConserved(r: seq<State>)
      requires AggregatorOk() && Lagging(0) && SinkOk() && Run(setup, r) && r[|r| - 1] == protocol
      ensures protocol.raw ==
                roots.eventsFiltered + eventsCoalesced + sink.eventsProcessed + sink.eventsDropped + sink.eventsLost
                + |aggregator.events| + deliveries
    {
      EventsAreConserved(setup, r, |r| - 1);
      assert |aggregator.events| == |aggregator.events.Keys| && |protocol.agg.entries| == |protocol.agg.entries.Keys|;
    }

    /** Only the watcher's own map, aliases and index matter to the validity of the roots. */
    twostate lemma RootsKept()
      requires old(roots.Valid()) && unchanged(roots`watchedPaths, roots`watchAliases, roots`rootIndex)
      requires unchanged(roots.rootIndex) && unchanged(roots.rootIndex.nodes.Values)
      ensures roots.Valid()
    {
    }
  }

  /** Whatever becomes of a raw event is a step of the protocol; so in any run that ends before it, it can come
      next, and the theorems about runs speak about the counters above. */
  lemma VerdictExtendsRun(c: Setup, r: seq<State>, t: State, v: Verdict)
    requires Run(c, r) && IsStepOf(c, r[|r| - 1], t, v)
    ensures Run(c, r + [t])
  {
    var s := r[|r| - 1];
    assert Tick(s, s);
    assert Next(c, s, t);
    Extended(c, r, t);
  }
}
