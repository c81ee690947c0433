/**
 The events of the aggregator and what merging them means. An `Entry` is one pending path as a value;
 the deadline and merge rules are those of the aggregator's critical sections.
 */
module Events {
  import opened Sorting
  import opened Wrappers

  type Path = string
  /** Nanoseconds. */
  type Time = int
  type EventType = t: int | 0 <= t < 0x1_0000_0000

  const EVENT_OVERFLOW: EventType := 6

  predicate TypeLess(x: EventType, y: EventType) { x < y }

  lemma TypeOrder()
    ensures StrictTotalOrder(TypeLess)
  {
  }

  datatype WatchEvent = WatchEvent(id: nat, path: Path, flags: seq<string>, types: seq<EventType>, time: Time)

  datatype Config = Config(cooldown: Time, maxWait: Time, maxPending: int)

  /** A pending path. `queued` says whether the deadline heap holds it. */
  datatype Entry = Entry(types: set<EventType>, flags: set<string>, id: nat, first: Time, last: Time,
                         deadline: Time, version: nat, queued: bool)

  /** A raw event together with the time at which the aggregator accepted it. */
  datatype Accepted = Accepted(event: WatchEvent, at: Time)

  function Min(a: int, b: int): int { if a <= b then a else b }

  function Max(a: nat, b: nat): nat { if a >= b then a else b }

  function FreshDeadline(c: Config, now: Time): Time {
    if c.maxWait > 0 && c.maxWait < c.cooldown then now + c.maxWait else now + c.cooldown
  }

  function MergedDeadline(c: Config, first: Time, now: Time): Time {
    var deadline := FreshDeadline(c, now);
    if c.maxWait > 0 && deadline > first + c.maxWait then first + c.maxWait else deadline
  }

  function Fresh(c: Config, event: WatchEvent, now: Time, version: nat): Entry {
    Entry(Elements(event.types), Elements(event.flags), event.id, now, now, FreshDeadline(c, now), version, true)
  }

  function Merge(c: Config, e: Entry, event: WatchEvent, now: Time, version: nat): Entry {
    Entry(e.types + Elements(event.types), e.flags + Elements(event.flags), Max(e.id, event.id),
          e.first, now, MergedDeadline(c, e.first, now), version, true)
  }

  /** `w` is the event that a take of entry `e` at `path` produces. */
  ghost predicate Renders(w: WatchEvent, path: Path, e: Entry) {
    && w.path == path
    && w.id == e.id
    && w.time == e.last
    && Increasing(TypeLess, w.types) && Elements(w.types) == e.types
    && Increasing(StringLess, w.flags) && Elements(w.flags) == e.flags
  }

  /** Rendering leaves no freedom: two renderings of one entry are the same event. */
  lemma RendersUnique(v: WatchEvent, w: WatchEvent, path: Path, e: Entry)
    requires Renders(v, path, e) && Renders(w, path, e)
    ensures v == w
  {
    StringOrder();
    TypeOrder();
    IncreasingUnique(TypeLess, v.types, w.types);
    IncreasingUnique(StringLess, v.flags, w.flags);
  }

  /** The event holds the data of the entry: its types in ascending and its flags in lexicographic order, each once. */
  lemma RendersExactly(w: WatchEvent, path: Path, e: Entry)
    requires Renders(w, path, e)
    ensures w.path == path && w.id == e.id && w.time == e.last
    ensures (forall t :: t in w.types <==> t in e.types) && (forall f :: f in w.flags <==> f in e.flags)
    ensures forall i, j :: 0 <= i < j < |w.types| ==> w.types[i] < w.types[j]
    ensures forall i, j :: 0 <= i < j < |w.flags| ==>
      var a, b := w.flags[i], w.flags[j];
      a < b || exists k {:trigger a[..k]} :: 0 <= k < |a| && k < |b| && a[..k] == b[..k] && a[k] < b[k]
  {
    assert forall t :: t in w.types <==> t in Elements(w.types);
    assert forall f :: f in w.flags <==> f in Elements(w.flags);
    forall i, j | 0 <= i < j < |w.flags|
      ensures var a, b := w.flags[i], w.flags[j];
        a < b || exists k {:trigger a[..k]} :: 0 <= k < |a| && k < |b| && a[..k] == b[..k] && a[k] < b[k]
    {
      StringLessIff(w.flags[i], w.flags[j]);
    }
  }

  // ---- Merging a whole block of raw events, stated without reference to the order of merging ----

  ghost predicate TypeIn(block: seq<Accepted>, t: EventType) {
    exists i :: 0 <= i < |block| && t in block[i].event.types
  }

  ghost predicate FlagIn(block: seq<Accepted>, f: string) {
    exists i :: 0 <= i < |block| && f in block[i].event.flags
  }

  ghost predicate IsMaxId(block: seq<Accepted>, id: nat) {
    && (exists i :: 0 <= i < |block| && block[i].event.id == id)
    && (forall i :: 0 <= i < |block| ==> block[i].event.id <= id)
  }

  ghost predicate TimesAscend(block: seq<Accepted>) {
    forall i, j :: 0 <= i <= j < |block| ==> block[i].at <= block[j].at
  }

  /** The cooldown after the last event, capped by the maximum wait after the first one. */
  function BlockDeadline(c: Config, first: Time, last: Time): Time {
    if c.maxWait > 0 then Min(last + c.cooldown, first + c.maxWait) else last + c.cooldown
  }

  /** The entry holds exactly the merge of the block: union of types and of flags, greatest identifier,
      times of the first and of the last event, and the deadline those two times determine. */
  ghost predicate Summarizes(c: Config, e: Entry, block: seq<Accepted>) {
    && block != []
    && TimesAscend(block)
    && (forall t: EventType :: t in e.types <==> TypeIn(block, t))
    && (forall f: string :: f in e.flags <==> FlagIn(block, f))
    && IsMaxId(block, e.id)
    && e.first == block[0].at
    && e.last == block[|block| - 1].at
    && e.deadline == BlockDeadline(c, e.first, e.last)
  }

  lemma FreshSummarizes(c: Config, event: WatchEvent, now: Time, version: nat)
    ensures Summarizes(c, Fresh(c, event, now, version), [Accepted(event, now)])
  {
    var block := [Accepted(event, now)];
    assert block[0].event.id == event.id;
    forall t: EventType ensures t in event.types <==> TypeIn(block, t) {
      if t in event.types { assert t in block[0].event.types; }
    }
    forall f: string ensures f in event.flags <==> FlagIn(block, f) {
      if f in event.flags { assert f in block[0].event.flags; }
    }
  }

  lemma MergeSummarizes(c: Config, e: Entry, block: seq<Accepted>, event: WatchEvent, now: Time, version: nat)
    requires Summarizes(c, e, block)
    requires e.last <= now
    ensures Summarizes(c, Merge(c, e, event, now, version), block + [Accepted(event, now)])
    ensures c.cooldown >= 0 ==> e.deadline <= Merge(c, e, event, now, version).deadline
    ensures c.maxWait > 0 ==> Merge(c, e, event, now, version).deadline <= e.first + c.maxWait
  {
    var longer := block + [Accepted(event, now)];
    var m := Merge(c, e, event, now, version);
    assert longer[|block|].event == event;
    forall t: EventType ensures t in m.types <==> TypeIn(longer, t) {
      if TypeIn(block, t) {
        var i :| 0 <= i < |block| && t in block[i].event.types;
        assert t in longer[i].event.types;
      }
      if t in event.types { assert t in longer[|block|].event.types; }
    }
    forall f: string ensures f in m.flags <==> FlagIn(longer, f) {
      if FlagIn(block, f) {
        var i :| 0 <= i < |block| && f in block[i].event.flags;
        assert f in longer[i].event.flags;
      }
      if f in event.flags { assert f in longer[|block|].event.flags; }
    }
    var k :| 0 <= k < |block| && block[k].event.id == e.id;
    assert longer[k].event.id == e.id;
    assert e.first <= e.last;
  }

  // ---- The shared state as a value, and its critical sections ----

  datatype Agg = Agg(entries: map<Path, Entry>, sequence: nat)

  ghost predicate Queued(a: Agg, p: Path) {
    p in a.entries && a.entries[p].queued
  }

  /** `p` has the least deadline of the queued paths. */
  ghost predicate Earliest(a: Agg, p: Path) {
    && Queued(a, p)
    && forall q :: Queued(a, q) ==> a.entries[p].deadline <= a.entries[q].deadline
  }

  /** An unknown path at full capacity. */
  predicate MustEvict(c: Config, a: Agg, path: Path) {
    path !in a.entries && c.maxPending > 0 && |a.entries| >= c.maxPending
  }

  /** Who is evicted: an earliest queued path, or any path when none is queued. */
  ghost predicate VictimOk(c: Config, a: Agg, path: Path, victim: Option<Path>) {
    if MustEvict(c, a, path)
    then victim.Some? && victim.value in a.entries && ((exists q :: Queued(a, q)) ==> Earliest(a, victim.value))
    else victim.None?
  }

  /** Drawing a version first does not change who may be evicted. */
  lemma VictimIgnoresSequence(c: Config, a: Agg, b: Agg, path: Path)
    requires a.entries == b.entries
    ensures forall victim :: VictimOk(c, b, path, victim) ==> VictimOk(c, a, path, victim)
  {
    forall victim | VictimOk(c, b, path, victim) ensures VictimOk(c, a, path, victim) {
      assert forall q :: Queued(a, q) <==> Queued(b, q);
    }
  }

  function Take(a: Agg, path: Path): Agg {
    a.(entries := a.entries - {path})
  }

  function Evict(a: Agg, victim: Option<Path>): Agg {
    if victim.Some? then Take(a, victim.value) else a
  }

  function Put(c: Config, a: Agg, event: WatchEvent, now: Time, version: nat): Agg {
    var entry := if event.path in a.entries then Merge(c, a.entries[event.path], event, now, version)
                 else Fresh(c, event, now, version);
    a.(entries := a.entries[event.path := entry])
  }

  /** Stores an accepted event under the next version. */
  function Admit(c: Config, a: Agg, event: WatchEvent, now: Time): Agg {
    Put(c, a.(sequence := a.sequence + 1), event, now, a.sequence + 1)
  }

  /** Drawing the version before the eviction or after it comes to the same. */
  lemma AdmitAfterEvict(c: Config, a: Agg, b: Agg, victim: Option<Path>, event: WatchEvent, now: Time)
    requires b == a.(sequence := a.sequence + 1)
    ensures Put(c, Evict(b, victim), event, now, b.sequence) == Admit(c, Evict(a, victim), event, now)
  {
  }

  /** The whole critical section of an accepted event. */
  ghost predicate Adds(c: Config, a: Agg, event: WatchEvent, now: Time, victim: Option<Path>, b: Agg) {
    VictimOk(c, a, event.path, victim) && b == Admit(c, Evict(a, victim), event, now)
  }

  /** Who goes: nobody unless a new path finds the map full; then an earliest queued path, if any is queued. All
      others stay as they were. */
  lemma AddsEvicts(c: Config, a: Agg, event: WatchEvent, now: Time, victim: Option<Path>, b: Agg)
    requires Adds(c, a, event, now, victim, b)
    ensures victim.Some? <==> event.path !in a.entries && c.maxPending > 0 && |a.entries| >= c.maxPending
    ensures victim.Some? ==> victim.value in a.entries && victim.value !in b.entries
    ensures victim.Some? ==> forall q :: q in a.entries && a.entries[q].queued ==>
      a.entries[victim.value].queued && a.entries[victim.value].deadline <= a.entries[q].deadline
    ensures forall p :: p != event.path && Some(p) != victim ==>
      (p in b.entries <==> p in a.entries) && (p in a.entries ==> b.entries[p] == a.entries[p])
  {
    if victim.Some? {
      forall q | q in a.entries && a.entries[q].queued
        ensures a.entries[victim.value].queued && a.entries[victim.value].deadline <= a.entries[q].deadline
      {
        assert Queued(a, q);
      }
    }
  }

  /** What is then pending under the path of the event: queued under a new version, last seen now, with the types,
      flags and identifiers put together, due at the earliest of the bounds that apply. */
  lemma AddsMerges(c: Config, a: Agg, event: WatchEvent, now: Time, victim: Option<Path>, b: Agg)
    requires Adds(c, a, event, now, victim, b)
    ensures b.sequence == a.sequence + 1 && event.path in b.entries
    ensures var e := b.entries[event.path];
      && e.queued && e.version == a.sequence + 1 && e.last == now && e.deadline <= now + c.cooldown
      && (c.maxWait <= 0 ==> e.deadline == now + c.cooldown)
      && (c.maxWait > 0 ==>
            && e.deadline <= now + c.maxWait && e.deadline <= e.first + c.maxWait
            && e.deadline in {now + c.cooldown, now + c.maxWait, e.first + c.maxWait})
    ensures event.path !in a.entries ==>
      var e := b.entries[event.path];
      && e.first == now && e.id == event.id
      && (forall t :: t in e.types <==> t in event.types) && (forall f :: f in e.flags <==> f in event.flags)
    ensures event.path in a.entries ==>
      var d, e := a.entries[event.path], b.entries[event.path];
      && e.first == d.first && e.id >= d.id && e.id >= event.id && e.id in {d.id, event.id}
      && (forall t :: t in e.types <==> t in d.types || t in event.types)
      && (forall f :: f in e.flags <==> f in d.flags || f in event.flags)
  {
  }

  function Unqueue(e: Entry, now: Time): Entry {
    if e.deadline <= now then e.(queued := false) else e
  }

  /** The pop phase of a flush: the entries stay pending but leave the queue. */
  function PopDue(a: Agg, now: Time): Agg {
    a.(entries := map p | p in a.entries :: Unqueue(a.entries[p], now))
  }

  datatype Item = Item(path: Path, version: nat)

  /** A queued path whose deadline has come. */
  ghost predicate IsDue(a: Agg, p: Path, now: Time) {
    Queued(a, p) && a.entries[p].deadline <= now
  }

  /** The list a pop phase hands to the second phase: each due path once, with its version. */
  ghost predicate ReadyList(a: Agg, now: Time, ready: seq<Item>) {
    && (forall i :: 0 <= i < |ready| ==>
          IsDue(a, ready[i].path, now) && a.entries[ready[i].path].version == ready[i].version)
    && (forall p :: IsDue(a, p, now) ==> Item(p, a.entries[p].version) in ready)
    && (forall i, j :: 0 <= i < j < |ready| ==> ready[i].path != ready[j].path)
  }

  /** What is due leaves the queue and is listed, each path once under its version; nothing else changes. */
  lemma PopsDue(a: Agg, now: Time, ready: seq<Item>, b: Agg)
    requires b == PopDue(a, now) && ReadyList(a, now, ready)
    ensures b.sequence == a.sequence && forall p :: p in b.entries <==> p in a.entries
    ensures forall p :: p in a.entries ==>
      && b.entries[p] == a.entries[p].(queued := b.entries[p].queued)
      && (b.entries[p].queued <==> a.entries[p].queued && now < a.entries[p].deadline)
    ensures forall p, v :: Item(p, v) in ready <==>
      && p in a.entries && a.entries[p].queued && a.entries[p].deadline <= now && a.entries[p].version == v
    ensures forall i, j :: 0 <= i < j < |ready| ==> ready[i].path != ready[j].path
  {
    forall p, v | p in a.entries && a.entries[p].queued && a.entries[p].deadline <= now && a.entries[p].version == v
      ensures Item(p, v) in ready
    {
      assert IsDue(a, p, now);
    }
    forall p, v | Item(p, v) in ready
      ensures p in a.entries && a.entries[p].queued && a.entries[p].deadline <= now && a.entries[p].version == v
    {
      var i :| 0 <= i < |ready| && ready[i] == Item(p, v);
      assert IsDue(a, ready[i].path, now);
    }
  }

  predicate CanTake(a: Agg, path: Path, version: nat, force: bool) {
    path in a.entries && (force || a.entries[path].version == version)
  }

  // ---- The pop phase one root at a time ----

  function Dequeue(a: Agg, path: Path): Agg
    requires path in a.entries
  {
    a.(entries := a.entries[path := a.entries[path].(queued := false)])
  }

  ghost predicate Listed(ready: seq<Item>, p: Path) {
    exists i :: 0 <= i < |ready| && ready[i].path == p
  }

  /** `b` is `a` after popping exactly the listed paths, all of them due. */
  ghost predicate Popped(a: Agg, now: Time, ready: seq<Item>, b: Agg) {
    && b.sequence == a.sequence
    && b.entries.Keys == a.entries.Keys
    && (forall p :: p in a.entries ==>
          b.entries[p] == if Listed(ready, p) then a.entries[p].(queued := false) else a.entries[p])
    && (forall i :: 0 <= i < |ready| ==>
          IsDue(a, ready[i].path, now) && a.entries[ready[i].path].version == ready[i].version)
    && (forall i, j :: 0 <= i < j < |ready| ==> ready[i].path != ready[j].path)
  }

  lemma PoppedOne(a: Agg, now: Time, ready: seq<Item>, b: Agg, p: Path)
    requires Popped(a, now, ready, b)
    requires IsDue(b, p, now)
    ensures Popped(a, now, ready + [Item(p, b.entries[p].version)], Dequeue(b, p))
  {
    var longer := ready + [Item(p, b.entries[p].version)];
    assert longer[|ready|].path == p;
    assert !Listed(ready, p);
    forall q ensures Listed(longer, q) <==> Listed(ready, q) || q == p {
      if Listed(ready, q) {
        var i :| 0 <= i < |ready| && ready[i].path == q;
        assert longer[i].path == q;
      }
    }
  }

  lemma PoppedAll(a: Agg, now: Time, ready: seq<Item>, b: Agg)
    requires Popped(a, now, ready, b)
    requires forall p :: Queued(b, p) ==> b.entries[p].deadline > now
    ensures b == PopDue(a, now) && ReadyList(a, now, ready)
  {
  }
}
