/**
 The cache of hidden-attribute lookups. A lookup runs outside the lock, so an entry carries the stamp under which
 its lookup began and counts only while that is still the stamp of its path.
 */
module HiddenCache {
  import opened Paths
  import opened Wrappers

  const MAX_SIZE: nat := 8192

  /** The cache-wide and the per-path generation. */
  datatype Stamp = Stamp(generation: nat, path: nat)

  datatype Entry = Entry(hidden: bool, stamp: Stamp)

  datatype Cache = Cache(values: map<string, Entry>, pathGenerations: map<string, nat>, generation: nat)

  function StampOf(c: Cache, path: string): Stamp {
    Stamp(c.generation, if path in c.pathGenerations then c.pathGenerations[path] else 0)
  }

  /** The lexicographic order on stamps. */
  predicate Earlier(a: Stamp, b: Stamp) {
    a.generation < b.generation || (a.generation == b.generation && a.path < b.path)
  }

  function Probed(c: Cache, path: string): Option<bool> {
    if path in c.values && c.values[path].stamp == StampOf(c, path) then Some(c.values[path].hidden) else None
  }

  function Reset(c: Cache): Cache {
    Cache(map[], map[], c.generation + 1)
  }

  /** Records the answer of a lookup that began under a stamp; none if the stamp is no longer that of the path. */
  function Stored(c: Cache, path: string, stamp: Stamp, hidden: bool): Option<Cache> {
    if stamp != StampOf(c, path) then None
    else
      var room := if |c.values| >= MAX_SIZE || |c.pathGenerations| >= MAX_SIZE then Reset(c) else c;
      Some(room.(values := room.values[path := Entry(hidden, StampOf(room, path))]))
  }

  function Invalidated(c: Cache, path: string): Cache {
    if |c.pathGenerations| >= MAX_SIZE then Reset(c)
    else Cache(c.values - {path}, c.pathGenerations[path := StampOf(c, path).path + 1], c.generation)
  }

  function InvalidatedAll(c: Cache): Cache {
    Cache(c.values, map[], c.generation + 1)
  }

  ghost predicate Bounded(c: Cache) {
    |c.values| <= MAX_SIZE && |c.pathGenerations| <= MAX_SIZE
  }

  /** No entry is stamped later than its path. */
  ghost predicate Past(c: Cache) {
    forall p :: p in c.values ==> !Earlier(StampOf(c, p), c.values[p].stamp)
  }

  /** Between two states of the cache the stamp of a path stays or grows. */
  ghost predicate Grows(before: Cache, after: Cache, path: string) {
    StampOf(after, path) == StampOf(before, path) || Earlier(StampOf(before, path), StampOf(after, path))
  }

  /** An invalidation makes the stamps of what it covers strictly later, no other stamp earlier, and leaves no
      answer for what it covers. */
  lemma InvalidationAdvances(c: Cache, path: string, other: string)
    requires Past(c)
    ensures Earlier(StampOf(c, path), StampOf(Invalidated(c, path), path))
    ensures Probed(Invalidated(c, path), path) == None
    ensures Grows(c, Invalidated(c, path), other)
    ensures Earlier(StampOf(c, other), StampOf(InvalidatedAll(c), other))
    ensures Probed(InvalidatedAll(c), other) == None
  {
  }

  /** Storing an answer makes it the one found, and loses other answers only by a reset. */
  lemma StoredIsFound(c: Cache, path: string, hidden: bool, other: string)
    requires Past(c)
    ensures var after := Stored(c, path, StampOf(c, path), hidden);
            && after.Some? && Probed(after.value, path) == Some(hidden) && Grows(c, after.value, other)
            && (other != path ==> Probed(after.value, other) == Probed(c, other) || Probed(after.value, other) == None)
  {
  }

  /** Storing below the bounds loses no other answer and moves no stamp; at a bound everything else goes. */
  lemma StoredExactly(c: Cache, path: string, stamp: Stamp, hidden: bool)
    ensures Stored(c, path, stamp, hidden).Some? <==>
      && stamp.generation == c.generation
      && stamp.path == (if path in c.pathGenerations then c.pathGenerations[path] else 0)
    ensures Stored(c, path, stamp, hidden).Some? ==>
      var after := Stored(c, path, stamp, hidden).value;
      if |c.values| < 8192 && |c.pathGenerations| < 8192 then
        && after.generation == c.generation && after.pathGenerations == c.pathGenerations
        && after.values == c.values[path := Entry(hidden, stamp)]
      else
        && after.generation == c.generation + 1 && after.pathGenerations == map[]
        && after.values == map[path := Entry(hidden, Stamp(c.generation + 1, 0))]
  {
  }

  /** Invalidating one path below the bound leaves every other answer and stamp alone; at the bound everything goes. */
  lemma InvalidatedExactly(c: Cache, path: string, other: string)
    ensures |c.pathGenerations| < 8192 && other != path ==>
      && StampOf(Invalidated(c, path), other) == StampOf(c, other)
      && (other in Invalidated(c, path).values <==> other in c.values)
      && Probed(Invalidated(c, path), other) == Probed(c, other)
    ensures |c.pathGenerations| >= 8192 ==>
      Invalidated(c, path).values == map[] && Invalidated(c, path).pathGenerations == map[]
    ensures path !in Invalidated(c, path).values && InvalidatedAll(c).values == c.values
  {
  }

  /** What every operation keeps: no entry is stamped later than its path, and neither map outgrows its bound. */
  ghost predicate Sane(c: Cache) {
    Past(c) && Bounded(c)
  }

  lemma InvalidatedAllKeeps(c: Cache)
    requires Sane(c)
    ensures Sane(InvalidatedAll(c))
  {
  }

  lemma InvalidatedKeeps(c: Cache, path: string)
    requires Sane(c)
    ensures Sane(Invalidated(c, path)) && Sane(InvalidatedAll(c))
  {
  }

  lemma StoredKeeps(c: Cache, path: string, hidden: bool)
    requires Sane(c)
    ensures Sane(Stored(c, path, StampOf(c, path), hidden).value)
  {
  }

  // ---- The locked sections ----

  class HiddenAttributeCache {
    var values: map<string, Entry>
    var pathGenerations: map<string, nat>
    var generation: nat

    ghost function Value(): Cache
      reads this
    {
      Cache(values, pathGenerations, generation)
    }

    ghost predicate Valid()
      reads this
    {
      Sane(Value())
    }

    constructor ()
      ensures Valid() && Value() == Cache(map[], map[], 0)
    {
      values, pathGenerations, generation := map[], map[], 0;
    }

    /** The read section: an answer, or the stamp under which a lookup begins. */
    method Probe(path: string) returns (answer: Option<bool>, stamp: Stamp)
      ensures answer == Probed(Value(), Clean(path)) && stamp == StampOf(Value(), Clean(path))
      ensures stamp.generation == generation
      ensures stamp.path == if Clean(path) in pathGenerations then pathGenerations[Clean(path)] else 0
      ensures answer.Some? <==> Clean(path) in values && values[Clean(path)].stamp == stamp
      ensures answer.Some? ==> answer.value == values[Clean(path)].hidden
    {
      var p := Clean(path);
      var pathGeneration := 0;
      if p in pathGenerations {
        pathGeneration := pathGenerations[p];
      }
      stamp := Stamp(generation, pathGeneration);
      answer := None;
      if p in values && values[p].stamp == stamp {
        answer := Some(values[p].hidden);
      }
    }

    method ResetLocked()
      modifies this
      ensures Value() == Reset(old(Value()))
      ensures values == map[] && pathGenerations == map[] && generation == old(generation) + 1
    {
      generation := generation + 1;
      values := map[];
      pathGenerations := map[];
    }

    /** The write section after a lookup: without success the caller probes again. */
    method Store(path: string, stamp: Stamp, hidden: bool) returns (stored: bool)
      requires Valid()
      modifies this
      ensures Valid()
      ensures var after := Stored(old(Value()), Clean(path), stamp, hidden);
              stored == after.Some? && Value() == if after.Some? then after.value else old(Value())
      ensures stored <==>
        && stamp.generation == old(generation)
        && stamp.path == old(if Clean(path) in pathGenerations then pathGenerations[Clean(path)] else 0)
      ensures stored && old(|values|) < 8192 && old(|pathGenerations|) < 8192 ==>
        && values == old(values)[Clean(path) := Entry(hidden, stamp)]
        && generation == old(generation) && pathGenerations == old(pathGenerations)
      ensures stored && (old(|values|) >= 8192 || old(|pathGenerations|) >= 8192) ==>
        && values == map[Clean(path) := Entry(hidden, Stamp(generation, 0))]
        && generation == old(generation) + 1 && pathGenerations == map[]
    {
      StoredKeeps(Value(), Clean(path), hidden);
      var p := Clean(path);
      var pathGeneration := 0;
      if p in pathGenerations {
        pathGeneration := pathGenerations[p];
      }
      if stamp.generation != generation || stamp.path != pathGeneration {
        return false;
      }
      var recorded := stamp;
      if |values| >= MAX_SIZE || |pathGenerations| >= MAX_SIZE {
        ResetLocked();
        recorded := Stamp(generation, 0);
      }
      values := values[p := Entry(hidden, recorded)];
      stored := true;
    }

    method InvalidatePath(path: string)
      requires Valid()
      modifies this
      ensures Valid() && Value() == Invalidated(old(Value()), Clean(path))
      ensures old(|pathGenerations|) < 8192 ==>
        && values == old(values) - {Clean(path)} && generation == old(generation)
        && pathGenerations == old(pathGenerations)[Clean(path) := old(StampOf(Value(), Clean(path)).path) + 1]
      ensures old(|pathGenerations|) >= 8192 ==>
        values == map[] && pathGenerations == map[] && generation == old(generation) + 1
    {
      ghost var before := Cache(values, pathGenerations, generation);
      InvalidatedKeeps(before, Clean(path));
      var p := Clean(path);
      if |pathGenerations| >= MAX_SIZE {
        ResetLocked();
        return;
      }
      var pathGeneration := 0;
      if p in pathGenerations {
        pathGeneration := pathGenerations[p];
      }
      assert pathGeneration == StampOf(before, p).path;
      pathGenerations := pathGenerations[p := pathGeneration + 1];
      values := values - {p};
      assert Invalidated(before, p) == Cache(values, pathGenerations, generation);
    }

    method InvalidateAll()
      requires Valid()
      modifies this
      ensures Valid() && Value() == InvalidatedAll(old(Value()))
      ensures values == old(values) && pathGenerations == map[] && generation == old(generation) + 1
    {
      InvalidatedAllKeeps(Value());
      generation := generation + 1;
      pathGenerations := map[];
    }
  }
}
