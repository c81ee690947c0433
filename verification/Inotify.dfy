/**
 The inotify backend's tables: descriptors by number, their index by path, and directory moves in progress.
 A move is paired by cookie; an unmatched one expires. The kernel is the ghost set of descriptors it still holds.
 */
module Inotify {
  import opened MovePaths
  import opened Events
  import opened PathTrie
  import opened Paths
  import opened RootIndex
  import opened Sets
  import opened Watcher
  import opened Wrappers

  const MILLISECOND: Time := 1_000_000
  const MOVE_GRACE: Time := 100 * MILLISECOND

  /** What is recorded for a descriptor: its directory and what it inherits from a root. */
  datatype Watch = Watch(path: string, depth: WatchDepth, filter: Option<string -> bool>, eventMask: set<EventType>)

  type Table = map<int, Watch>

  datatype Move = Move(path: string, descriptors: set<int>, deadline: Time)

  // ---- What the operations mean on the descriptor table ----

  /** The index finds a descriptor at given components exactly if some descriptor's path has them, and then such a
      one. For clean paths the components are the path. */
  ghost predicate Agrees(contents: map<Key, int>, wds: Table) {
    && (forall wd :: wd in wds ==> Tokens(wds[wd].path) in contents)
    && (forall k :: k in contents ==> contents[k] in wds && Tokens(wds[contents[k]].path) == k)
  }

  /** The descriptors at or under a path. */
  ghost predicate Under(wds: Table, wd: int, path: string) {
    wd in wds && Covers(path, wds[wd].path)
  }

  /** A descriptor at or under the dropped root `path` that no other root needs. */
  ghost predicate Unneeded(wds: Table, wd: int, path: string, roots: Roots) {
    Under(wds, wd, path) && !NativeNeeded(roots, wds[wd].path, path, false)
  }

  /** A descriptor that the move snapshotted and that is still at or under the moved path. */
  ghost predicate StillMoving(wds: Table, move: Move, wd: int) {
    wd in move.descriptors && Under(wds, wd, move.path)
  }

  ghost predicate Kept(roots: Roots, ignored: string -> bool, path: string) {
    NativeNeeded(roots, path, "", false) && !ignored(path)
  }

  /** `after` is `before` with the moving descriptors of `done` at their new paths or gone; the rest untouched. */
  ghost predicate MovedTable(before: Table, after: Table, move: Move, to: string, roots: Roots,
                             ignored: string -> bool, done: set<int>) {
    && (forall wd :: wd in after ==> wd in before)
    && forall wd :: wd in before ==>
         if wd in done && StillMoving(before, move, wd) then
           var path := Moved(before[wd].path, move.path, to);
           (wd in after <==> Kept(roots, ignored, path)) && (wd in after ==> after[wd] == before[wd].(path := path))
         else wd in after && after[wd] == before[wd]
  }

  /** Some expired move takes the descriptor with it. */
  ghost predicate Expires(wds: Table, moves: map<nat, Move>, now: Time, wd: int) {
    exists c :: c in moves && moves[c].deadline <= now && StillMoving(wds, moves[c], wd)
  }

  /** The table without what expired moves still hold. */
  ghost function Expired(wds: Table, moves: map<nat, Move>, now: Time): Table {
    map wd | wd in wds && !Expires(wds, moves, now, wd) :: wds[wd]
  }

  function Snapshot(wds: Table, path: string): set<int> {
    set wd | wd in wds && Covers(path, wds[wd].path)
  }

  /** The moves after the first half of another one, which remembers the descriptors at or under its path. */
  function Begun(wds: Table, moves: map<nat, Move>, cookie: nat, path: string, now: Time): map<nat, Move> {
    moves[cookie := Move(path, Snapshot(wds, path), now + MOVE_GRACE)]
  }

  // ---- Timeouts ----

  /** `Duration.Milliseconds` truncates toward zero. */
  function Milliseconds(d: Time): int {
    if d >= 0 then d / MILLISECOND else -((-d) / MILLISECOND)
  }

  function Remaining(deadline: Time, now: Time): nat {
    var r := Milliseconds(deadline - now) + 1;
    if r > 0 then r else 0
  }

  /** Waiting that long reaches the deadline and overshoots it, or the present, by at most a millisecond. */
  lemma RemainingReaches(deadline: Time, now: Time)
    ensures now + Remaining(deadline, now) * MILLISECOND >= deadline
    ensures now + Remaining(deadline, now) * MILLISECOND <= (if deadline >= now then deadline else now) + MILLISECOND
    ensures deadline >= now ==>
      (Remaining(deadline, now) - 1) * 1_000_000 <= deadline - now < Remaining(deadline, now) * 1_000_000
    ensures deadline < now ==> Remaining(deadline, now) == if now - deadline < 1_000_000 then 1 else 0
  {
  }

  lemma RemainingMonotone(a: Time, b: Time, now: Time)
    requires a <= b
    ensures Remaining(a, now) <= Remaining(b, now)
  {
  }

  /** The timeout of a set of moves: -1 without moves, else the least remaining time. */
  ghost predicate IsTimeout(moves: map<nat, Move>, now: Time, timeout: int) {
    if moves == map[] then timeout == -1
    else && (exists c :: c in moves && timeout == Remaining(moves[c].deadline, now))
         && (forall c :: c in moves ==> timeout <= Remaining(moves[c].deadline, now))
  }

  lemma {:induction false} SubsetSize<T>(a: set<T>, b: set<T>)
    requires a <= b
    ensures |a| <= |b|
  {
    if a != {} {
      var x :| x in a;
      SubsetSize(a - {x}, b - {x});
    }
  }

  lemma EarliestMove(moves: map<nat, Move>) returns (c: nat)
    requires moves != map[]
    ensures c in moves && forall d :: d in moves ==> moves[c].deadline <= moves[d].deadline
  {
    var rest := moves.Keys;
    c :| c in moves;
    while rest != {}
      invariant c in moves
      invariant forall d :: d in moves && d !in rest ==> moves[c].deadline <= moves[d].deadline
      decreases rest
    {
      var d :| d in rest;
      if d in moves && moves[d].deadline < moves[c].deadline {
        c := d;
      }
      rest := rest - {d};
    }
  }

  function StillWaiting(moves: map<nat, Move>, now: Time): map<nat, Move> {
    map c | c in moves && moves[c].deadline > now :: moves[c]
  }

  /** After waiting for the timeout the earliest move is due, at most a millisecond late, so expiry makes progress. */
  lemma TimeoutReachesEarliest(moves: map<nat, Move>, now: Time, timeout: int, later: Time) returns (c: nat)
    requires moves != map[] && IsTimeout(moves, now, timeout)
    requires later >= now + timeout * MILLISECOND
    ensures c in moves && (forall d :: d in moves ==> moves[c].deadline <= moves[d].deadline)
    ensures moves[c].deadline <= later
    ensures now + timeout * MILLISECOND <= (if moves[c].deadline >= now then moves[c].deadline else now) + MILLISECOND
    ensures |StillWaiting(moves, later)| < |moves|
  {
    c := EarliestMove(moves);
    var d :| d in moves && timeout == Remaining(moves[d].deadline, now);
    RemainingMonotone(moves[c].deadline, moves[d].deadline, now);
    RemainingReaches(moves[c].deadline, now);
    var waiting := StillWaiting(moves, later);
    assert waiting.Keys <= moves.Keys - {c};
    SubsetSize(waiting.Keys, moves.Keys - {c});
    assert |waiting| == |waiting.Keys| && |moves| == |moves.Keys|;
  }

  // ---- What a move does to the tree, and what its expiry does to a number used again ----

  /** Among the descriptors that a move takes along, subpath relations stay as they were. */
  lemma MovedTableKeepsOrder(before: Table, after: Table, move: Move, to: CleanPath, roots: Roots,
                             ignored: string -> bool, i: int, j: int)
    requires MovedTable(before, after, move, to, roots, ignored, move.descriptors)
    requires StillMoving(before, move, i) && StillMoving(before, move, j) && i in after && j in after
    requires IsClean(move.path) && IsClean(before[i].path) && IsClean(before[j].path)
    requires Tokens(move.path) == [] <==> Tokens(to) == []
    ensures IsSubpath(after[i].path, after[j].path) <==> IsSubpath(before[i].path, before[j].path)
    ensures after[i].path == after[j].path <==> before[i].path == before[j].path
    ensures Tokens(after[i].path) == Tokens(to) + Below(before[i].path, move.path)
  {
    MoveKeepsOrder(before[i].path, before[j].path, move.path, to);
    MovedSubstitutesIff(before[i].path, move.path, to);
  }

  /** Some expired move that covers a path remembers a number. */
  ghost predicate Remembered(moves: map<nat, Move>, now: Time, wd: int, path: string) {
    exists c :: c in moves && moves[c].deadline <= now && wd in moves[c].descriptors && Covers(moves[c].path, path)
  }

  /** A descriptor registered while moves are in progress survives their expiry exactly if no expired move that
      covers its path remembers its number. So it is enough that no move at all remembers it. */
  lemma RegisteredSurvivesIff(wds: Table, moves: map<nat, Move>, wd: int, w: Watch, now: Time)
    ensures wd in Expired(wds[wd := w], moves, now) <==> !Remembered(moves, now, wd, w.path)
    ensures (forall c :: c in moves ==> wd !in moves[c].descriptors) ==> wd in Expired(wds[wd := w], moves, now)
  {
    assert Expires(wds[wd := w], moves, now, wd) <==> Remembered(moves, now, wd, w.path) by {
      if Remembered(moves, now, wd, w.path) {
        var c :| c in moves && moves[c].deadline <= now && wd in moves[c].descriptors && Covers(moves[c].path, w.path);
        assert StillMoving(wds[wd := w], moves[c], wd);
      }
    }
  }

  /** In particular after the first half of a move: one that expires takes the registered descriptor along exactly
      if the number was at or under the old path before and the directory it now stands for is there again. */
  lemma ReplacementSurvivesIff(wds: Table, cookie: nat, from: string, begun: Time, wd: int, w: Watch, now: Time)
    ensures wd in Expired(wds[wd := w], Begun(wds, map[], cookie, from, begun), now) <==>
              !(begun + MOVE_GRACE <= now && Under(wds, wd, from) && Covers(from, w.path))
  {
    var moves := Begun(wds, map[], cookie, from, begun);
    RegisteredSurvivesIff(wds, moves, wd, w, now);
    assert cookie in moves;
  }

  /** A directory moved away and back before its move expired: the kernel returns the number it had, and expiry
      drops the descriptor although it is watched again. */
  lemma MoveAwayAndBack(wds: Table, moves: map<nat, Move>, cookie: nat, wd: int, w: Watch, now: Time)
    requires wd in wds && wds[wd].path == w.path
    ensures wd !in Expired(wds[wd := w], Begun(wds, moves, cookie, w.path, now), now + MOVE_GRACE)
  {
    var after := Begun(wds, moves, cookie, w.path, now);
    assert cookie in after && Covers(after[cookie].path, w.path);
    RegisteredSurvivesIff(wds, after, wd, w, now + MOVE_GRACE);
  }

  // ---- Single edits of the index ----

  /** Registering a descriptor keeps the agreement unless the number was in use and indexed under other components. */
  lemma RegisterAgreesIff(contents: map<Key, int>, wds: Table, wd: int, w: Watch)
    requires Agrees(contents, wds)
    ensures Agrees(contents[Tokens(w.path) := wd], wds[wd := w]) <==>
              (wd in wds && contents[Tokens(wds[wd].path)] == wd ==> Tokens(wds[wd].path) == Tokens(w.path))
  {
    var after, table := contents[Tokens(w.path) := wd], wds[wd := w];
    if wd in wds && contents[Tokens(wds[wd].path)] == wd && Tokens(wds[wd].path) != Tokens(w.path) {
      var k := Tokens(wds[wd].path);
      assert k in after && after[k] == wd && Tokens(table[wd].path) != k;
    } else {
      forall k | k in after ensures after[k] in table && Tokens(table[after[k]].path) == k {
        if k != Tokens(w.path) {
          assert contents[k] in wds && Tokens(wds[contents[k]].path) == k;
        }
      }
    }
  }

  /** Dropping one descriptor and clearing its node keeps the agreement unless another one shares the path. */
  lemma IgnoredAgreesIff(contents: map<Key, int>, wds: Table, wd: int)
    requires Agrees(contents, wds) && wd in wds
    ensures Agrees(contents - {Tokens(wds[wd].path)}, wds - {wd}) <==>
              forall other :: other in wds && other != wd ==> Tokens(wds[other].path) != Tokens(wds[wd].path)
  {
    var k, table := Tokens(wds[wd].path), wds - {wd};
    if other :| other in wds && other != wd && Tokens(wds[other].path) == k {
      assert other in table && Tokens(table[other].path) == k;
    } else {
      forall j | j in contents && j != k ensures contents[j] != wd {
        assert Tokens(wds[contents[j]].path) == j;
      }
    }
  }

  // ---- Proof steps of the backend's loops ----

  ghost function OneStep(wds: Table, wd: int, move: Move, to: string, roots: Roots, ignored: string -> bool): Table {
    if !Under(wds, wd, move.path) then wds
    else
      var path := Moved(wds[wd].path, move.path, to);
      if Kept(roots, ignored, path) then wds[wd := wds[wd].(path := path)] else wds - {wd}
  }

  lemma OneMoved(start: Table, before: Table, after: Table, move: Move, to: string, roots: Roots,
                 ignored: string -> bool, done: set<int>, wd: int)
    requires MovedTable(start, before, move, to, roots, ignored, done)
    requires wd in move.descriptors && wd !in done && after == OneStep(before, wd, move, to, roots, ignored)
    ensures MovedTable(start, after, move, to, roots, ignored, done + {wd})
  {
  }

  /** Some expired move outside `rest` takes the descriptor with it. */
  ghost predicate ExpiresOutside(wds: Table, moves: map<nat, Move>, now: Time, rest: set<nat>, wd: int) {
    exists c :: c in moves && c !in rest && moves[c].deadline <= now && StillMoving(wds, moves[c], wd)
  }

  lemma OneExpired(start: Table, before: Table, after: Table, moves: map<nat, Move>, now: Time, rest: set<nat>, c: nat)
    requires c in rest && c in moves && moves[c].deadline <= now
    requires forall wd :: wd in before <==> wd in start && !ExpiresOutside(start, moves, now, rest, wd)
    requires forall wd :: wd in before ==> before[wd] == start[wd]
    requires forall wd :: wd in after <==> wd in before && !StillMoving(before, moves[c], wd)
    ensures forall wd :: wd in after <==> wd in start && !ExpiresOutside(start, moves, now, rest - {c}, wd)
  {
  }

  lemma OneWaits(start: Table, moves: map<nat, Move>, now: Time, rest: set<nat>, c: nat)
    requires c in rest && c in moves && moves[c].deadline > now
    ensures forall wd ::
      ExpiresOutside(start, moves, now, rest - {c}, wd) <==> ExpiresOutside(start, moves, now, rest, wd)
  {
  }

  lemma AllExpired(start: Table, after: Table, moves: map<nat, Move>, now: Time)
    requires forall wd :: wd in after <==> wd in start && !ExpiresOutside(start, moves, now, {}, wd)
    requires forall wd :: wd in after ==> after[wd] == start[wd]
    ensures after == Expired(start, moves, now)
  {
    forall wd ensures ExpiresOutside(start, moves, now, {}, wd) <==> Expires(start, moves, now, wd) {
      if Expires(start, moves, now, wd) {
        var c :| c in moves && moves[c].deadline <= now && StillMoving(start, moves[c], wd);
        assert c !in {};
      }
    }
    var kept := Expired(start, moves, now);
    assert forall wd :: wd in kept <==> wd in after;
    assert after.Keys == kept.Keys;
  }

  lemma OneMore(table: Table, rest: set<int>, wd: int)
    requires wd in rest && rest <= table.Keys
    ensures wd !in table - rest && (table - rest)[wd := table[wd]] == table - (rest - {wd})
  {
  }

  // ---- The backend ----

  class Backend {
    var wds: Table
    var moves: map<nat, Move>
    var trie: Trie<int>
    /** The descriptors the kernel still holds for this instance. */
    ghost var kernel: set<int>

    constructor ()
      ensures Valid() && wds == map[] && moves == map[] && Agrees(trie.contents, wds)
    {
      wds, moves, kernel := map[], map[], {};
      trie := new Trie<int>();
    }

    ghost predicate Valid()
      reads this, trie, trie.nodes.Values
    {
      trie.Valid() && kernel == wds.Keys
    }

    /** The index is fit for lookups. */
    ghost predicate Indexed()
      reads this, trie
    {
      Agrees(trie.contents, wds)
    }

    method RmWatch(wd: int)
      modifies this`wds, this`kernel
      ensures wds == old(wds) - {wd} && kernel == old(kernel) - {wd}
    {
      kernel := kernel - {wd};
      wds := wds - {wd};
    }

    static method IndexOne(index: Trie<int>, ghost done: Table, wd: int, w: Watch)
      requires index.Valid() && Agrees(index.contents, done) && wd !in done
      modifies index, index.nodes.Values
      ensures index.Valid() && Agrees(index.contents, done[wd := w])
      ensures index.nodes.Values >= old(index.nodes.Values) && fresh(index.nodes.Values - old(index.nodes.Values))
    {
      RegisterAgreesIff(index.contents, done, wd, w);
      index.Insert(Tokens(w.path), wd);
    }

    static method NewIndex(table: Table) returns (index: Trie<int>)
      ensures fresh(index) && fresh(index.nodes.Values) && index.Valid()
      ensures Agrees(index.contents, table)
    {
      index := new Trie<int>();
      var rest := table.Keys;
      while rest != {}
        invariant fresh(index) && fresh(index.nodes.Values) && index.Valid()
        invariant rest <= table.Keys && Agrees(index.contents, table - rest)
        decreases rest
      {
        var wd := Pick(rest);
        OneMore(table, rest, wd);
        IndexOne(index, table - rest, wd, table[wd]);
        rest := rest - {wd};
      }
      assert table - {} == table;
    }

    method RebuildTrieLocked()
      requires kernel == wds.Keys
      modifies this`trie
      ensures Valid() && Indexed()
      ensures fresh(trie) && fresh(trie.nodes.Values)
    {
      trie := NewIndex(wds);
    }

    lemma RegisterAgreesWhenNew(wd: int, w: Watch)
      ensures Indexed() && wd !in wds ==> Agrees(trie.contents[Tokens(w.path) := wd], wds[wd := w])
    {
    }

    /** Records a descriptor the kernel has just returned for a directory. */
    method Register(wd: int, w: Watch)
      requires Valid()
      modifies this`wds, this`kernel, trie, trie.nodes.Values
      ensures Valid() && wds == old(wds)[wd := w] && trie.contents == old(trie.contents)[Tokens(w.path) := wd]
      ensures old(Indexed()) && wd !in old(wds) ==> Indexed()
    {
      RegisterAgreesWhenNew(wd, w);
      kernel := kernel + {wd};
      wds := wds[wd := w];
      trie.Insert(Tokens(w.path), wd);
    }

    /** Drops everything at or under a path. */
    method RemoveSubtreeLocked(path: string)
      requires Valid()
      modifies this`wds, this`kernel, this`trie
      ensures Valid() && Indexed()
      ensures forall wd :: wd in wds <==> wd in old(wds) && !Under(old(wds), wd, path)
      ensures forall wd :: wd in wds ==> wds[wd] == old(wds)[wd]
      ensures forall wd :: wd in wds <==> wd in old(wds) && !Covers(path, old(wds)[wd].path)
    {
      var rest := wds.Keys;
      while rest != {}
        invariant rest <= wds.Keys && kernel == wds.Keys
        invariant forall wd :: wd in wds <==> wd in old(wds) && (wd in rest || !Under(old(wds), wd, path))
        invariant forall wd :: wd in wds ==> wds[wd] == old(wds)[wd]
        decreases rest
      {
        var wd := Pick(rest);
        rest := rest - {wd};
        if Covers(path, wds[wd].path) {
          RmWatch(wd);
        }
      }
      RebuildTrieLocked();
    }

    /** Stops watching a root: drops exactly what lies at or under it and no other root needs. */
    method RemoveWatch(path: string, roots: Roots)
      requires Valid() && Keyed(roots)
      modifies this`wds, this`kernel, this`trie
      ensures Valid() && Indexed()
      ensures forall wd :: wd in wds <==> wd in old(wds) && !Unneeded(old(wds), wd, path, roots)
      ensures forall wd :: wd in wds ==> wds[wd] == old(wds)[wd]
      ensures forall wd :: wd in wds <==>
        && wd in old(wds)
        && (Covers(path, old(wds)[wd].path) ==> NativeNeeded(roots, old(wds)[wd].path, path, false))
    {
      var rest := wds.Keys;
      while rest != {}
        invariant rest <= wds.Keys && kernel == wds.Keys
        invariant forall wd :: wd in wds <==> wd in old(wds) && (wd in rest || !Unneeded(old(wds), wd, path, roots))
        invariant forall wd :: wd in wds ==> wds[wd] == old(wds)[wd]
        decreases rest
      {
        var wd := Pick(rest);
        rest := rest - {wd};
        if Covers(path, wds[wd].path) {
          var needed := NativeWatchNeeded(roots, wds[wd].path, path, false);
          if !needed {
            RmWatch(wd);
          }
        }
      }
      RebuildTrieLocked();
    }

    /** The first half of a move: remembers which descriptors are at or under the old path. */
    method BeginMove(cookie: nat, path: string, now: Time)
      modifies this`moves
      ensures moves == Begun(wds, old(moves), cookie, path, now)
      ensures moves.Keys == old(moves).Keys + {cookie}
      ensures forall c :: c in old(moves) && c != cookie ==> moves[c] == old(moves)[c]
      ensures moves[cookie].path == path && moves[cookie].deadline == now + 100_000_000
      ensures forall wd :: wd in moves[cookie].descriptors <==> wd in wds && Covers(path, wds[wd].path)
    {
      var descriptors: set<int> := {};
      var rest := wds.Keys;
      while rest != {}
        invariant rest <= wds.Keys
        invariant moves == old(moves)
        invariant descriptors == Snapshot(wds, path) - rest
        decreases rest
      {
        var wd := Pick(rest);
        rest := rest - {wd};
        if Covers(path, wds[wd].path) {
          descriptors := descriptors + {wd};
        }
      }
      assert descriptors == Snapshot(wds, path);
      moves := moves[cookie := Move(path, descriptors, now + MOVE_GRACE)];
    }

    method MoveOne(wd: int, move: Move, destination: string, roots: Roots, ignored: string -> bool)
      requires kernel == wds.Keys && Keyed(roots)
      modifies this`wds, this`kernel
      ensures kernel == wds.Keys
      ensures wds == OneStep(old(wds), wd, move, destination, roots, ignored)
    {
      if wd !in wds || !Covers(move.path, wds[wd].path) {
        return;
      }
      var path := Moved(wds[wd].path, move.path, destination);
      var needed := NativeWatchNeeded(roots, path, "", false);
      if !needed || ignored(path) {
        RmWatch(wd);
        return;
      }
      var updated := wds[wd].(path := path);
      wds := wds[wd := updated];
    }

    method MoveAll(move: Move, destination: string, roots: Roots, ignored: string -> bool)
      requires kernel == wds.Keys && Keyed(roots)
      modifies this`wds, this`kernel
      ensures kernel == wds.Keys
      ensures MovedTable(old(wds), wds, move, destination, roots, ignored, move.descriptors)
    {
      var rest := move.descriptors;
      while rest != {}
        invariant rest <= move.descriptors && kernel == wds.Keys
        invariant MovedTable(old(wds), wds, move, destination, roots, ignored, move.descriptors - rest)
        decreases rest
      {
        var wd := Pick(rest);
        ghost var before := wds;
        MoveOne(wd, move, destination, roots, ignored);
        OneMoved(old(wds), before, wds, move, destination, roots, ignored, move.descriptors - rest, wd);
        assert move.descriptors - rest + {wd} == move.descriptors - (rest - {wd});
        rest := rest - {wd};
      }
      assert move.descriptors - {} == move.descriptors;
    }

    /** The second half: moves every remembered descriptor still under the old path to the destination, or
        drops it if no root needs its new path or the path is ignored. */
    method CompleteMove(cookie: nat, destination: string, roots: Roots, ignored: string -> bool)
      requires Valid() && Keyed(roots)
      modifies this`wds, this`kernel, this`trie, this`moves
      ensures Valid() && moves == old(moves) - {cookie}
      ensures cookie !in old(moves) ==> wds == old(wds) && trie == old(trie)
      ensures cookie in old(moves) ==>
        && Indexed()
        && MovedTable(old(wds), wds, old(moves)[cookie], destination, roots, ignored, old(moves)[cookie].descriptors)
      ensures forall wd :: wd in wds ==> wd in old(wds)
      ensures cookie in old(moves) ==> forall wd :: wd in old(wds) ==>
        var move, was := old(moves)[cookie], old(wds)[wd];
        var path := Moved(was.path, move.path, destination);
        if wd in move.descriptors && Covers(move.path, was.path) then
          if NativeNeeded(roots, path, "", false) && !ignored(path)
          then wd in wds && wds[wd] == Watch(path, was.depth, was.filter, was.eventMask) else wd !in wds
        else wd in wds && wds[wd] == was
    {
      if cookie !in moves {
        assert moves == moves - {cookie};
        return;
      }
      var move := moves[cookie];
      moves := moves - {cookie};
      MoveAll(move, destination, roots, ignored);
      RebuildTrieLocked();
    }

    /** Some move in progress remembers the descriptor; its events are held back. */
    method DescriptorInMove(wd: int) returns (found: bool)
      ensures found <==> exists c :: c in moves && wd in moves[c].descriptors
    {
      var rest := moves.Keys;
      while rest != {}
        invariant rest <= moves.Keys && forall c :: c in moves && c !in rest ==> wd !in moves[c].descriptors
        decreases rest
      {
        var c := Pick(rest);
        if wd in moves[c].descriptors {
          return true;
        }
        rest := rest - {c};
      }
      found := false;
    }

    method MoveTimeout(now: Time) returns (timeout: int)
      ensures IsTimeout(moves, now, timeout)
    {
      timeout := -1;
      var rest := moves.Keys;
      while rest != {}
        invariant rest <= moves.Keys
        invariant rest == moves.Keys <==> timeout == -1
        invariant timeout != -1 ==> exists c :: c in moves && timeout == Remaining(moves[c].deadline, now)
        invariant forall c :: c in moves && c !in rest ==> 0 <= timeout <= Remaining(moves[c].deadline, now)
        decreases rest
      {
        var c := Pick(rest);
        var remaining := Remaining(moves[c].deadline, now);
        if timeout == -1 || remaining < timeout {
          timeout := remaining;
        }
        rest := rest - {c};
      }
    }

    method ExpireOne(move: Move) returns (dropped: bool)
      requires kernel == wds.Keys
      modifies this`wds, this`kernel
      ensures kernel == wds.Keys
      ensures forall wd :: wd in wds <==> wd in old(wds) && !StillMoving(old(wds), move, wd)
      ensures forall wd :: wd in wds ==> wds[wd] == old(wds)[wd]
      ensures !dropped ==> wds == old(wds)
    {
      dropped := false;
      var rest := move.descriptors;
      while rest != {}
        invariant rest <= move.descriptors && kernel == wds.Keys
        invariant forall wd :: wd in wds <==> wd in old(wds) && (wd in rest || !StillMoving(old(wds), move, wd))
        invariant forall wd :: wd in wds ==> wds[wd] == old(wds)[wd]
        invariant !dropped ==> wds == old(wds)
        decreases rest
      {
        var wd := Pick(rest);
        rest := rest - {wd};
        if wd in wds && Covers(move.path, wds[wd].path) {
          RmWatch(wd);
          dropped := true;
        }
      }
    }

    method ExpireAll(now: Time) returns (changed: bool)
      requires kernel == wds.Keys
      modifies this`wds, this`kernel, this`moves
      ensures kernel == wds.Keys && moves == StillWaiting(old(moves), now)
      ensures forall wd :: wd in wds <==> wd in old(wds) && !ExpiresOutside(old(wds), old(moves), now, {}, wd)
      ensures forall wd :: wd in wds ==> wds[wd] == old(wds)[wd]
      ensures !changed ==> wds == old(wds)
    {
      changed := false;
      var rest := moves.Keys;
      while rest != {}
        invariant rest <= moves.Keys && kernel == wds.Keys
        invariant forall c :: c in moves <==> c in old(moves) && (c in rest || old(moves)[c].deadline > now)
        invariant forall c :: c in moves ==> moves[c] == old(moves)[c]
        invariant forall wd :: wd in wds <==> wd in old(wds) && !ExpiresOutside(old(wds), old(moves), now, rest, wd)
        invariant forall wd :: wd in wds ==> wds[wd] == old(wds)[wd]
        invariant !changed ==> wds == old(wds)
        decreases rest
      {
        var c := Pick(rest);
        if moves[c].deadline <= now {
          ghost var before := wds;
          var dropped := ExpireOne(moves[c]);
          changed := changed || dropped;
          moves := moves - {c};
          OneExpired(old(wds), before, wds, old(moves), now, rest, c);
        } else {
          OneWaits(old(wds), old(moves), now, rest, c);
        }
        rest := rest - {c};
      }
    }

    /** Gives up on unmatched moves: drops exactly the remembered numbers that are still under an expired path. */
    method ExpireMoves(now: Time)
      requires Valid()
      modifies this`wds, this`kernel, this`trie, this`moves
      ensures Valid() && moves == StillWaiting(old(moves), now)
      ensures wds == Expired(old(wds), old(moves), now)
      ensures forall c :: c in moves <==> c in old(moves) && old(moves)[c].deadline > now
      ensures forall c :: c in moves ==> moves[c] == old(moves)[c]
      ensures forall wd :: wd in wds <==>
        && wd in old(wds)
        && (forall c :: c in old(moves) && old(moves)[c].deadline <= now && wd in old(moves)[c].descriptors ==>
             !Covers(old(moves)[c].path, old(wds)[wd].path))
      ensures forall wd :: wd in wds ==> wds[wd] == old(wds)[wd]
      ensures old(Indexed()) || wds != old(wds) ==> Indexed()
    {
      var changed := ExpireAll(now);
      AllExpired(old(wds), wds, old(moves), now);
      if changed {
        RebuildTrieLocked();
      }
    }
  }

  /** The same on the backend: the directory is moved away, comes back under its number, and is watched again until
      the move expires. */
  method MovedAwayAndBack(b: Backend, cookie: nat, wd: int, w: Watch, now: Time)
    requires b.Valid() && wd in b.wds && b.wds[wd].path == w.path
    modifies b, b.trie, b.trie.nodes.Values
    ensures b.Valid() && wd !in b.wds && wd !in b.kernel
  {
    MoveAwayAndBack(b.wds, b.moves, cookie, wd, w, now);
    b.BeginMove(cookie, w.path, now);
    b.Register(wd, w);
    b.ExpireMoves(now + MOVE_GRACE);
  }
}
