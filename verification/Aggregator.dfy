/**
 The critical sections of the aggregator over its map of pending events and its deadline heap,
 each proved to be the corresponding step of the map-level specification in `Events`.
 */
module Aggregator {
  import opened DeadlineHeap
  import opened Events
  import opened Sorting
  import opened Wrappers

  method NewNode(event: WatchEvent, now: Time, deadline: Time, version: nat, ghost e: Entry)
      returns (node: AggregatedEvent)
    requires e == Entry(Elements(event.types), Elements(event.flags), event.id, now, now, deadline, version, true)
    ensures fresh(node) && node.path == event.path && node.heapIndex == -1
    ensures node.Holds(e)
  {
    node := new AggregatedEvent(event.path, now, event.id, deadline, version);
    node.AddTypes(event.types);
    node.AddFlags(event.flags);
  }

  /** The flags of a pending event in lexicographic order. */
  method CollectFlags(flags: set<string>) returns (sorted: seq<string>)
    ensures Increasing(StringLess, sorted) && Elements(sorted) == flags
  {
    sorted := [];
    var rest := flags;
    while rest != {}
      invariant rest <= flags && Elements(sorted) == flags - rest
      invariant Distinct(sorted) && forall f :: f in sorted ==> f !in rest
      decreases rest
    {
      var f :| f in rest;
      assert Elements(sorted + [f]) == Elements(sorted) + {f};
      sorted, rest := sorted + [f], rest - {f};
    }
    StringOrder();
    SortDistinct(StringLess, sorted);
    sorted := Sort(StringLess, sorted);
  }

  /** The event that a pending node stands for. */
  method RenderNode(node: AggregatedEvent, ghost e: Entry) returns (event: WatchEvent)
    requires node.Holds(e)
    ensures Renders(event, node.path, e)
  {
    var flags := CollectFlags(node.flags);
    var types := node.EventTypes();
    event := WatchEvent(node.eventID, node.path, flags, types, node.lastSeen);
  }

  class EventAggregator {
    const config: Config
    var events: map<Path, AggregatedEvent>
    const deadlines: Heap
    var sequence: nat
    /** The pending state as a value. */
    ghost var state: Agg

    constructor (config: Config)
      ensures Valid() && state == Agg(map[], 0) && this.config == config
      ensures fresh(deadlines)
    {
      this.config := config;
      events, sequence, state := map[], 0, Agg(map[], 0);
      deadlines := new Heap();
    }

    /** The map's node for `p` carries its data, is queued exactly if the heap holds it,
        and has no position otherwise. */
    ghost predicate NodeOk(p: Path)
      requires p in events && p in state.entries
      reads this`events, this`state, deadlines`nodes, events[p]
    {
      var e := events[p];
      && e.path == p
      && e.Holds(state.entries[p])
      && (state.entries[p].queued <==> e in deadlines.nodes)
      && (e !in deadlines.nodes ==> e.heapIndex == -1)
    }

    /** Every heap node is the map's entry for its path. */
    ghost predicate HeapInMap()
      reads this, deadlines
    {
      forall e :: e in deadlines.nodes ==> e.path in events && events[e.path] == e
    }

    ghost predicate Valid()
      reads this, deadlines, events.Values, deadlines.items, deadlines.nodes
    {
      && deadlines.Indexed()
      && deadlines.Ordered()
      && HeapInMap()
      && state.sequence == sequence
      && state.entries.Keys == events.Keys
      && forall p :: p in events ==> NodeOk(p)
    }

    lemma QueuedIffInHeap()
      requires Valid()
      ensures (exists p :: Queued(state, p)) <==> deadlines.items != []
    {
      if deadlines.items != [] {
        assert deadlines.items[0] in deadlines.nodes;
        assert Queued(state, deadlines.items[0].path);
      }
      if p :| Queued(state, p) {
        assert events[p] in deadlines.nodes;
      }
    }

    /** The heap root is a live map entry with the least deadline of all queued paths. */
    lemma RootIsEarliest()
      requires Valid() && deadlines.items != []
      ensures deadlines.items[0] in deadlines.nodes
      ensures Earliest(state, deadlines.items[0].path)
    {
      var root := deadlines.items[0];
      assert root in deadlines.nodes;
      forall q | Queued(state, q) ensures state.entries[root.path].deadline <= state.entries[q].deadline {
        deadlines.RootIsMin(events[q].heapIndex);
      }
    }

    /** The earliest pending deadline, if the heap holds anything. */
    method NextDeadline() returns (next: Option<Time>)
      requires Valid()
      ensures next.None? <==> forall p :: !Queued(state, p)
      ensures next.Some? ==> exists p :: Earliest(state, p) && state.entries[p].deadline == next.value
      ensures next.Some? <==> exists p :: p in state.entries && state.entries[p].queued
      ensures next.Some? ==>
        && (exists p :: p in state.entries && state.entries[p].queued && state.entries[p].deadline == next.value)
        && (forall p :: p in state.entries && state.entries[p].queued ==> next.value <= state.entries[p].deadline)
    {
      QueuedIffInHeap();
      if |deadlines.items| == 0 {
        return None;
      }
      RootIsEarliest();
      next := Some(deadlines.items[0].deadline);
    }

    /** An entry that no step touched, in the heap as before, stays well-formed. */
    twostate lemma NodeKept(p: Path)
      requires old(p in events && p in state.entries && NodeOk(p)) && p in events && p in state.entries
      requires events[p] == old(events[p]) && state.entries[p] == old(state).entries[p]
      requires old(events[p].Holds(state.entries[p])) ==> events[p].Holds(state.entries[p])
      requires events[p] in deadlines.nodes <==> events[p] in old(deadlines.nodes)
      requires events[p] !in deadlines.nodes ==> events[p].heapIndex == old(events[p].heapIndex)
      ensures NodeOk(p)
    {
    }

    /** Map, heap and state agree on every path but one. */
    ghost predicate Agree(path: Path)
      reads this`events, this`state, this`sequence, deadlines`nodes, events.Values
    {
      && (forall e :: e in deadlines.nodes && e.path != path ==> e.path in events && events[e.path] == e)
      && state.sequence == sequence
      && (forall p :: p != path ==> (p in events <==> p in state.entries))
      && (forall p :: p in events && p != path ==> NodeOk(p))
    }

    /** A change of the heap and of the node of one path leaves the others in agreement. */
    twostate lemma AgreeKept(path: Path)
      requires old(Agree(path)) && events == old(events) && state == old(state) && sequence == old(sequence)
      requires forall e :: e in deadlines.nodes && e.path != path ==> e in old(deadlines.nodes)
      requires forall p :: p in events && p != path ==>
        && (events[p] in old(deadlines.nodes) ==> events[p] in deadlines.nodes)
        && (old(events[p].Holds(state.entries[p])) ==> events[p].Holds(state.entries[p]))
        && (events[p] !in deadlines.nodes ==> events[p].heapIndex == old(events[p].heapIndex))
      ensures Agree(path)
    {
      forall p | p in events && p != path ensures NodeOk(p) {
        assert old(NodeOk(p));
        NodeKept(p);
      }
    }

    /** Brings the state up to date with the node of one path. */
    ghost method SetEntry(path: Path, e: Entry)
      requires deadlines.Indexed() && deadlines.Ordered() && Agree(path)
      requires path in events && events[path].path == path && events[path].Holds(e)
      requires forall f :: f in deadlines.nodes && f.path == path ==> f == events[path]
      requires e.queued <==> events[path] in deadlines.nodes
      requires events[path] !in deadlines.nodes ==> events[path].heapIndex == -1
      modifies this`state
      ensures Valid() && state == old(state).(entries := old(state).entries[path := e])
    {
      state := state.(entries := state.entries[path := e]);
      forall p | p in events && p != path ensures NodeOk(p) {
        NodeKept(p);
      }
    }

    /** Removes the node of one path, which the heap no longer holds, from the map. */
    method Forget(path: Path)
      requires deadlines.Indexed() && deadlines.Ordered() && Agree(path)
      requires path in events && forall f :: f in deadlines.nodes ==> f.path != path
      modifies this`events, this`state
      ensures Valid() && state == Take(old(state), path) && events == old(events) - {path}
    {
      events := events - {path};
      state := Take(state, path);
      forall p | p in events ensures NodeOk(p) {
        NodeKept(p);
      }
    }

    /** Takes a node out of the heap, if it is there. */
    method Detach(e: AggregatedEvent)
      requires deadlines.Indexed() && deadlines.Ordered()
      requires e !in deadlines.nodes ==> e.heapIndex == -1
      modifies deadlines, deadlines.nodes`heapIndex
      ensures deadlines.Indexed() && deadlines.Ordered()
      ensures deadlines.nodes == old(deadlines.nodes) - {e}
    {
      if e.heapIndex >= 0 {
        var _ := deadlines.Remove(e.heapIndex);
      }
    }

    /** Removes a pending event from the heap and from the map. */
    method Unlink(path: Path) returns (aggregated: AggregatedEvent)
      requires Valid() && path in events
      modifies this`events, this`state, deadlines, deadlines.nodes`heapIndex
      ensures Valid() && state == Take(old(state), path)
      ensures aggregated == old(events[path]) && events == old(events) - {path}
      ensures aggregated.Holds(old(state).entries[path])
      ensures deadlines.nodes == old(deadlines.nodes) - {aggregated}
    {
      ghost var e := state.entries[path];
      assert NodeOk(path);
      aggregated := events[path];
      assert aggregated.Holds(e);
      Detach(aggregated);
      assert aggregated.Holds(e);
      AgreeKept(path);
      Forget(path);
    }

    /** Removes a pending event and renders it. */
    method TakeNode(path: Path) returns (event: WatchEvent)
      requires Valid() && path in events
      modifies this`events, this`state, deadlines, deadlines.nodes`heapIndex
      ensures Valid() && deadlines.nodes <= old(deadlines.nodes) && events == old(events) - {path}
      ensures state == Take(old(state), path) && Renders(event, path, old(state).entries[path])
    {
      assert NodeOk(path);
      var aggregated := Unlink(path);
      event := RenderNode(aggregated, old(state).entries[path]);
    }

    /** Removes a pending event and renders it; a stale version removes nothing. */
    method TakeEventLocked(path: Path, version: nat, force: bool) returns (taken: Option<WatchEvent>)
      requires Valid()
      modifies this`events, this`state, deadlines, deadlines.nodes`heapIndex
      ensures Valid() && deadlines.nodes <= old(deadlines.nodes)
      ensures taken.Some? <==>
        path in old(state).entries && (force || old(state).entries[path].version == version)
      ensures taken.Some? ==> state == Take(old(state), path) && Renders(taken.value, path, old(state).entries[path])
      ensures events == if taken.Some? then old(events) - {path} else old(events)
      ensures taken.None? ==> state == old(state)
    {
      assert path in events ==> NodeOk(path);
      if path !in events || (!force && events[path].version != version) {
        return None;
      }
      var event := TakeNode(path);
      taken := Some(event);
    }

    method NextVersion()
      requires Valid()
      modifies this`sequence, this`state
      ensures Valid() && sequence == old(sequence) + 1 && state == old(state).(sequence := sequence)
    {
      sequence := sequence + 1;
      state := state.(sequence := sequence);
      forall p | p in events ensures NodeOk(p) {
        NodeKept(p);
      }
    }

    /** The path to evict: that of the heap root, or any pending path when the heap is empty. */
    method Oldest() returns (oldest: Path)
      requires Valid() && events.Keys != {}
      ensures oldest in events
      ensures (exists q :: Queued(state, q)) ==> Earliest(state, oldest)
    {
      QueuedIffInHeap();
      if |deadlines.items| > 0 {
        RootIsEarliest();
        oldest := deadlines.items[0].path;
      } else {
        oldest :| oldest in events.Keys;
      }
    }

    /** Takes the oldest pending event when `path` is new and the map is full. */
    method EvictIfFull(path: Path) returns (evicted: Option<WatchEvent>, ghost victim: Option<Path>)
      requires Valid()
      modifies this`events, this`state, deadlines, deadlines.nodes`heapIndex
      ensures Valid() && deadlines.nodes <= old(deadlines.nodes)
      ensures events == if victim.Some? then old(events) - {victim.value} else old(events)
      ensures VictimOk(config, old(state), path, victim) && state == Evict(old(state), victim)
      ensures victim.Some? <==>
        path !in old(state).entries && config.maxPending > 0 && |old(state).entries| >= config.maxPending
      ensures evicted.Some? <==> victim.Some?
      ensures victim.Some? ==> Renders(evicted.value, victim.value, old(state).entries[victim.value])
    {
      evicted, victim := None, None;
      assert |events| == |events.Keys| && |state.entries| == |state.entries.Keys|;
      if path !in events && config.maxPending > 0 && |events| >= config.maxPending {
        var oldest := Oldest();
        victim := Some(oldest);
        evicted := TakeEventLocked(oldest, 0, true);
      }
    }

    twostate lemma StillAround(hole: nat)
      requires deadlines.items == old(deadlines.items) && hole < |deadlines.items| && old(deadlines.Ordered())
      requires forall k :: 0 <= k < |deadlines.items| && k != hole ==>
        deadlines.items[k].deadline == old(deadlines.items[k].deadline)
      ensures deadlines.OrderedAround(hole, |deadlines.items|)
    {
      if hole > 0 {
        assert old(deadlines.items[Parent(hole)].deadline) <= old(deadlines.items[hole].deadline);
      }
    }

    /** The heap is well-formed but for the order around `e`, which it may or may not hold. */
    ghost predicate Placed(e: AggregatedEvent)
      reads deadlines, e, deadlines.items, deadlines.nodes
    {
      && deadlines.Indexed()
      && (if e in deadlines.nodes
          then 0 <= e.heapIndex < |deadlines.items| && deadlines.OrderedAround(e.heapIndex, |deadlines.items|)
          else e.heapIndex == -1 && deadlines.Ordered())
    }

    /** A new deadline of one node can only disturb the order around it. */
    twostate lemma OrderKept(e: AggregatedEvent)
      requires deadlines.items == old(deadlines.items) && deadlines.nodes == old(deadlines.nodes)
      requires old(deadlines.Indexed() && deadlines.Ordered()) && (e !in deadlines.nodes ==> e.heapIndex == -1)
      requires forall f :: f in deadlines.items ==> f.heapIndex == old(f.heapIndex)
      requires forall f :: f in deadlines.items && f != e ==> f.deadline == old(f.deadline)
      ensures Placed(e)
    {
      assert forall k :: 0 <= k < |deadlines.items| ==> deadlines.items[k] in deadlines.items;
      assert deadlines.Indexed();
      if e in deadlines.nodes {
        StillAround(e.heapIndex);
      } else {
        assert deadlines.Ordered();
      }
    }

    /** `Valid`, but for the data and the deadline of the node of `path`. */
    ghost predicate ValidExcept(path: Path)
      requires path in events
      reads this, deadlines, events.Values, deadlines.items, deadlines.nodes
    {
      && Placed(events[path])
      && events[path].path == path
      && HeapInMap()
      && state.entries.Keys == events.Keys
      && Agree(path)
    }

    /** Folds an event into the node of its path; the heap is then out of order around that node at most. */
    method Update(existing: AggregatedEvent, event: WatchEvent, now: Time, deadline: Time)
      requires Valid() && event.path in events && existing == events[event.path]
      modifies existing`typeMask, existing`extraTypes, existing`flags, existing`lastSeen, existing`eventID,
               existing`deadline, existing`version
      ensures ValidExcept(event.path)
      ensures var e := state.entries[event.path];
        existing.Holds(Entry(e.types + Elements(event.types), e.flags + Elements(event.flags), Max(e.id, event.id),
                             e.first, now, deadline, sequence, true))
    {
      assert NodeOk(event.path);
      existing.Coalesce(event, now, deadline, sequence, state.entries[event.path]);
      AgreeKept(event.path);
      OrderKept(existing);
    }

    /** Puts a node whose deadline changed to its place in the heap. */
    method Requeue(existing: AggregatedEvent)
      requires Placed(existing)
      modifies deadlines, deadlines.nodes`heapIndex, existing`heapIndex
      ensures deadlines.Indexed() && deadlines.Ordered()
      ensures deadlines.nodes == old(deadlines.nodes) + {existing}
    {
      if existing.heapIndex < 0 {
        deadlines.Push(existing);
      } else {
        deadlines.Fix(existing.heapIndex);
      }
    }

    method Reposition(existing: AggregatedEvent, ghost e: Entry)
      requires existing.path in events && events[existing.path] == existing && ValidExcept(existing.path)
      requires existing.Holds(e) && e.queued
      modifies this`state, deadlines, deadlines.nodes`heapIndex, existing`heapIndex
      ensures Valid()
      ensures state == old(state).(entries := old(state).entries[existing.path := e])
    {
      Requeue(existing);
      AgreeKept(existing.path);
      SetEntry(existing.path, e);
    }

    /** Merges an event into its pending entry and restores the heap, pushing the entry back if it was popped. */
    method Refresh(existing: AggregatedEvent, event: WatchEvent, now: Time, deadline: Time)
      requires Valid() && event.path in events && existing == events[event.path]
      modifies this`state, deadlines, deadlines.nodes`heapIndex, existing
      ensures Valid()
      ensures var e := old(state).entries[event.path];
        state == old(state).(entries := old(state).entries[event.path :=
          Entry(e.types + Elements(event.types), e.flags + Elements(event.flags), Max(e.id, event.id),
                e.first, now, deadline, sequence, true)])
    {
      ghost var e := state.entries[event.path];
      Update(existing, event, now, deadline);
      Reposition(existing, Entry(e.types + Elements(event.types), e.flags + Elements(event.flags), Max(e.id, event.id),
                                 e.first, now, deadline, sequence, true));
    }

    /** Records a new node that the heap already holds. */
    method Enter(node: AggregatedEvent, ghost e: Entry)
      requires deadlines.Indexed() && deadlines.Ordered() && Agree(node.path)
      requires node.path !in events && node in deadlines.nodes && node.Holds(e) && e.queued
      requires forall f :: f in deadlines.nodes && f.path == node.path ==> f == node
      modifies this`events, this`state
      ensures Valid() && state == old(state).(entries := old(state).entries[node.path := e])
    {
      events := events[node.path := node];
      forall p | p in events && p != node.path ensures NodeOk(p) {
        NodeKept(p);
      }
      SetEntry(node.path, e);
    }

    method Link(node: AggregatedEvent, ghost e: Entry)
      requires Valid() && node.path !in events
      requires node !in deadlines.nodes && node.heapIndex == -1 && node.Holds(e) && e.queued
      modifies this`events, this`state, deadlines, deadlines.nodes`heapIndex, node`heapIndex
      ensures Valid()
      ensures state == old(state).(entries := old(state).entries[node.path := e])
    {
      deadlines.Push(node);
      AgreeKept(node.path);
      Enter(node, e);
    }

    /** Starts a pending entry for an unknown path. */
    method Start(event: WatchEvent, now: Time, deadline: Time)
      requires Valid() && event.path !in events
      modifies this`events, this`state, deadlines, deadlines.nodes`heapIndex
      ensures Valid()
      ensures state == old(state).(entries := old(state).entries[event.path :=
          Entry(Elements(event.types), Elements(event.flags), event.id, now, now, deadline, sequence, true)])
    {
      ghost var e := Entry(Elements(event.types), Elements(event.flags), event.id, now, now, deadline, sequence, true);
      var node := NewNode(event, now, deadline, sequence, e);
      Link(node, e);
    }

    /** Merges into the pending event of the path or starts one, under the version already drawn. */
    method Store(event: WatchEvent, now: Time)
      requires Valid()
      modifies this`events, this`state, deadlines, events.Values, deadlines.nodes`heapIndex
      ensures Valid()
      ensures state == Put(config, old(state), event, now, sequence)
    {
      var deadline := FreshDeadline(config, now);
      if event.path in events {
        var existing := events[event.path];
        assert NodeOk(event.path);
        if config.maxWait > 0 && deadline > existing.firstSeen + config.maxWait {
          deadline := existing.firstSeen + config.maxWait;
        }
        Refresh(existing, event, now, deadline);
      } else {
        Start(event, now, deadline);
      }
    }

    /** The critical section of an accepted event, read at time `now`: evict if a new path finds the map
        full, then merge into the pending event of the path or start one, and put it into the heap. */
    method AddEventLocked(event: WatchEvent, now: Time)
        returns (evicted: Option<WatchEvent>, ghost victim: Option<Path>)
      requires Valid()
      modifies this, deadlines, events.Values
      ensures Valid()
      ensures Adds(config, old(state), event, now, victim, state)
      ensures evicted.Some? <==> victim.Some?
      ensures victim.Some? ==> Renders(evicted.value, victim.value, old(state).entries[victim.value])
      ensures victim.Some? <==>
        event.path !in old(state).entries && config.maxPending > 0 && |old(state).entries| >= config.maxPending
      ensures victim.Some? ==> forall q :: q in old(state).entries && old(state).entries[q].queued ==>
        var v := old(state).entries[victim.value]; v.queued && v.deadline <= old(state).entries[q].deadline
      ensures forall p :: p != event.path && Some(p) != victim ==>
        && (p in state.entries <==> p in old(state).entries)
        && (p in old(state).entries ==> state.entries[p] == old(state).entries[p])
    {
      ghost var before := state;
      NextVersion();
      VictimIgnoresSequence(config, before, state, event.path);
      ghost var drawn := state;
      evicted, victim := EvictIfFull(event.path);
      Store(event, now);
      AdmitAfterEvict(config, before, drawn, victim, event, now);
      AddsEvicts(config, before, event, now, victim, state);
    }

    /** Pops the heap root; its entry stays in the map. */
    method PopRoot() returns (root: AggregatedEvent)
      requires Valid() && deadlines.items != []
      modifies this`state, deadlines, deadlines.nodes`heapIndex
      ensures Valid() && deadlines.nodes <= old(deadlines.nodes) && |deadlines.items| < old(|deadlines.items|)
      ensures root == old(deadlines.items[0]) && root.path in old(state).entries
      ensures root.version == old(state).entries[root.path].version
      ensures state == Dequeue(old(state), root.path)
    {
      assert deadlines.items[0] in deadlines.nodes && NodeOk(deadlines.items[0].path);
      root := deadlines.PopMin();
      AgreeKept(root.path);
      SetEntry(root.path, state.entries[root.path].(queued := false));
    }

    /** The pop phase of a flush: every due event leaves the heap and is listed with its version. */
    method FlushDueLocked(now: Time) returns (ready: seq<Item>)
      requires Valid()
      modifies this`state, deadlines, deadlines.nodes`heapIndex
      ensures Valid()
      ensures state == PopDue(old(state), now)
      ensures ReadyList(old(state), now, ready)
      ensures forall p :: p in state.entries <==> p in old(state).entries
      ensures forall p :: p in old(state).entries ==>
        (state.entries[p].queued <==> old(state).entries[p].queued && now < old(state).entries[p].deadline)
      ensures forall p, v :: Item(p, v) in ready <==>
        var a := old(state).entries; p in a && a[p].queued && a[p].deadline <= now && a[p].version == v
    {
      ready := [];
      ghost var a := state;
      while |deadlines.items| > 0
        invariant Valid() && deadlines.nodes <= old(deadlines.nodes)
        invariant Popped(a, now, ready, state)
        decreases |deadlines.items|
      {
        var event := deadlines.items[0];
        RootIsEarliest();
        assert NodeOk(event.path);
        if event.deadline > now {
          break;
        }
        PoppedOne(a, now, ready, state, event.path);
        var root := PopRoot();
        ready := ready + [Item(root.path, root.version)];
      }
      QueuedIffInHeap();
      if deadlines.items != [] {
        RootIsEarliest();
      }
      PoppedAll(a, now, ready, state);
      PopsDue(a, now, ready, state);
    }
  }
}
