/** The watcher's set of roots with its index, run-time changes to it, and the filtering of platform events. */
module Watcher {
  import opened Events
  import opened PathTrie
  import opened Paths
  import opened RootIndex
  import opened Sets
  import opened Sorting
  import opened Wrappers

  datatype Failure = NotRunning | AlreadyWatched | NotWatched | Backend

  datatype Verdict = Refused | Filtered | Forward(event: WatchEvent)

  /** What an event means for the cache of hidden attributes. */
  datatype Invalidation = KeepCache | InvalidatePath(path: string) | InvalidateAll

  const EVENT_CREATE: EventType := 1
  const EVENT_REMOVE: EventType := 2
  const EVENT_RENAME: EventType := 4
  const EVENT_CHMOD: EventType := 5

  /** A change that can replace a whole directory tree, or a loss of events. */
  ghost predicate IsStructural(types: seq<EventType>) {
    exists t :: t in types && t in {EVENT_CREATE, EVENT_REMOVE, EVENT_RENAME, EVENT_OVERFLOW}
  }

  /** Some root other than `excluded` needs a native watch on `path`. */
  ghost predicate NeededBy(root: WatchPath, path: string, directChildren: bool) {
    || path == root.path
    || (root.depth == WatchNested && IsSubpath(root.path, path))
    || (directChildren && Dir(path) == root.path)
  }

  ghost predicate NativeNeeded(roots: Roots, path: string, excluded: string, directChildren: bool) {
    exists r :: r in roots && r != excluded && NeededBy(roots[r], path, directChildren)
  }

  method NativeWatchNeeded(roots: Roots, path: string, excluded: string, directChildren: bool) returns (needed: bool)
    requires Keyed(roots)
    ensures needed <==> NativeNeeded(roots, path, excluded, directChildren)
    ensures needed <==>
      exists r :: r in roots && r != excluded
        && (path == r || (roots[r].depth.WatchNested? && IsSubpath(r, path)) || (directChildren && Dir(path) == r))
  {
    var rest := roots.Keys;
    while rest != {}
      invariant rest <= roots.Keys
      invariant forall r :: r in roots && r !in rest && r != excluded ==> !NeededBy(roots[r], path, directChildren)
      decreases rest
    {
      var root :| root in rest;
      rest := rest - {root};
      if root == excluded {
        continue;
      }
      var wp := roots[root];
      if path == root || (wp.depth == WatchNested && IsSubpath(root, path)) || (directChildren && Dir(path) == root) {
        return true;
      }
    }
    needed := false;
  }

  /** The depth a root covers: everything below it, or itself and its direct children. */
  ghost predicate InDepth(root: WatchPath, path: string) {
    root.depth == WatchTopLevel ==> path == root.path || Dir(path) == root.path
  }

  /** A top-level root covers exactly the paths at most one component below it. */
  lemma InDepthIff(root: WatchPath, path: CleanPath)
    requires Covers(root.path, path)
    ensures InDepth(root, path) <==> root.depth == WatchNested || |Tokens(path)| <= |Tokens(root.path)| + 1
  {
    CoversIff(root.path, path);
    if Tokens(path) != [] {
      DirIff(path, root.path);
    }
    if Tokens(path) == Tokens(root.path) {
      TokensInjective(path, root.path);
    }
  }

  /** Structural changes invalidate the whole cache, a bare change of attributes its path. */
  ghost predicate Invalidates(event: WatchEvent, invalidation: Invalidation) {
    && (invalidation == InvalidateAll <==> IsStructural(event.types))
    && (invalidation == InvalidatePath(event.path) <==> !IsStructural(event.types) && EVENT_CHMOD in event.types)
    && (invalidation.InvalidatePath? ==> invalidation.path == event.path)
  }

  method CacheInvalidation(event: WatchEvent) returns (invalidation: Invalidation)
    ensures Invalidates(event, invalidation)
    ensures var structural := exists t :: t in {1, 2, 4, 6} && t in event.types;
      invalidation == if structural then InvalidateAll
                      else if 5 in event.types then InvalidatePath(event.path) else KeepCache
  {
    invalidation := KeepCache;
    if EVENT_OVERFLOW in event.types {
      return InvalidateAll;
    }
    if EVENT_CREATE in event.types || EVENT_REMOVE in event.types || EVENT_RENAME in event.types {
      invalidation := InvalidateAll;
    } else if EVENT_CHMOD in event.types {
      invalidation := InvalidatePath(event.path);
    }
  }

  /** The types a mask lets through, in their order. */
  function Allowed(mask: set<EventType>, types: seq<EventType>): seq<EventType> {
    if types == [] then []
    else Allowed(mask, types[..|types| - 1]) + (if types[|types| - 1] in mask then [types[|types| - 1]] else [])
  }

  /** What is let through is what the mask and the event have in common. */
  lemma {:induction false} AllowedElements(mask: set<EventType>, types: seq<EventType>)
    ensures Elements(Allowed(mask, types)) == Elements(types) * mask
  {
    if types != [] {
      var init, last := types[..|types| - 1], types[|types| - 1];
      AllowedElements(mask, init);
      assert types == init + [last];
      assert Elements(types) == Elements(init) + {last};
      var tail := if last in mask then [last] else [];
      assert Elements(Allowed(mask, init) + tail) == Elements(Allowed(mask, init)) + Elements(tail);
    }
  }

  /** `filtered` are the types at ascending positions, which are exactly those of types in the mask. */
  ghost predicate PassedAt(mask: set<EventType>, types: seq<EventType>, filtered: seq<EventType>, at: seq<nat>) {
    && |at| == |filtered|
    && (forall i :: 0 <= i < |at| ==> at[i] < |types| && filtered[i] == types[at[i]])
    && (forall i, j :: 0 <= i < j < |at| ==> at[i] < at[j])
    && (forall k :: 0 <= k < |types| ==> (k in at <==> types[k] in mask))
  }

  lemma PassedNext(mask: set<EventType>, types: seq<EventType>, filtered: seq<EventType>, at: seq<nat>, t: EventType)
    requires PassedAt(mask, types, filtered, at)
    ensures if t in mask then PassedAt(mask, types + [t], filtered + [t], at + [|types|])
      else PassedAt(mask, types + [t], filtered, at)
  {
    var more := types + [t];
    assert forall k :: 0 <= k < |types| ==> more[k] == types[k];
    assert forall k :: k in at + [|types|] <==> k in at || k == |types|;
    assert |types| !in at;
  }

  lemma {:induction false} AllowedAt(mask: set<EventType>, types: seq<EventType>) returns (at: seq<nat>)
    ensures PassedAt(mask, types, Allowed(mask, types), at)
  {
    at := [];
    if types != [] {
      var init, last := types[..|types| - 1], types[|types| - 1];
      var before := AllowedAt(mask, init);
      PassedNext(mask, init, Allowed(mask, init), before, last);
      assert types == init + [last];
      if last in mask {
        at := before + [|init|];
      } else {
        assert Allowed(mask, init) + [] == Allowed(mask, init);
        at := before;
      }
    }
  }

  /** Everything but the event mask. */
  ghost predicate PassesFilters(root: WatchPath, path: string, ignored: (string, WatchPath) -> bool,
                                accepts: string -> bool)
  {
    && InDepth(root, path)
    && !ignored(path, root)
    && accepts(path)
    && (root.filter.Some? ==> root.filter.value(path))
  }

  /** An event passes exactly if it passes every filter and shares a type with the mask; it keeps the shared ones. */
  ghost predicate IsVerdict(root: WatchPath, event: WatchEvent, ignored: (string, WatchPath) -> bool,
                            accepts: string -> bool, v: Verdict) {
    if PassesFilters(root, event.path, ignored, accepts)
       && (root.eventMask == {} || Elements(event.types) * root.eventMask != {})
    then v == Forward(event.(types := if root.eventMask == {} then event.types
                                       else Allowed(root.eventMask, event.types)))
    else v == Filtered
  }

  /** The root a name stands for: the target of an alias, else the path itself. */
  function Canonical(aliases: map<string, string>, path: string): string {
    if path in aliases then aliases[path] else path
  }

  /** The aliases of all other roots. */
  function WithoutTarget(aliases: map<string, string>, target: string): map<string, string> {
    map a | a in aliases && aliases[a] != target :: aliases[a]
  }

  /** Aliases name watched roots. */
  ghost predicate Targets(aliases: map<string, string>, roots: Roots) {
    forall a :: a in aliases ==> aliases[a] in roots
  }

  lemma DroppedKeyed(roots: Roots, aliases: map<string, string>, path: string)
    requires Keyed(roots) && Targets(aliases, roots)
    ensures Keyed(roots - {path}) && Targets(WithoutTarget(aliases, path), roots - {path})
  {
  }

  lemma AddedKeyed(roots: Roots, aliases: map<string, string>, wp: WatchPath)
    requires Keyed(roots) && Targets(aliases, roots)
    ensures Keyed(roots[wp.path := wp]) && Targets(aliases, roots[wp.path := wp])
    ensures wp.path !in roots ==> roots[wp.path := wp] - {wp.path} == roots
  {
  }

  /** `w` is the root responsible for a path: that of the cleaned path, none for a relative one. */
  ghost predicate IsRootOf(roots: Roots, path: string, w: Option<WatchPath>) {
    if Rooted(path) then IsClean(Clean(path)) && MostSpecific(roots, Clean(path), w) else w == None
  }

  /** Shutdown refuses, overflow events bypass every filter, and any other event is up to its most specific root. */
  ghost predicate Classified(roots: Roots, event: WatchEvent, shuttingDown: bool, ignored: (string, WatchPath) -> bool,
                             accepts: string -> bool, v: Verdict, root: Option<WatchPath>) {
    if shuttingDown then v == Refused
    else if EVENT_OVERFLOW in event.types then v == Forward(event)
    else
      && IsRootOf(roots, event.path, root)
      && if root.None? then v == Filtered else IsVerdict(root.value, event, ignored, accepts, v)
  }

  /** Which events pass, and what of them: for a root that watches only its own level, no deeper ones; none that is
      ignored or that a filter rejects; none without a type in the mask. Nothing but the types changes. */
  lemma VerdictIff(roots: Roots, event: WatchEvent, ignored: (string, WatchPath) -> bool, accepts: string -> bool,
                   v: Verdict, root: Option<WatchPath>)
    requires Keyed(roots) && Classified(roots, event, false, ignored, accepts, v, root)
    requires IsClean(event.path) && EVENT_OVERFLOW !in event.types
    ensures root.None? ==> forall r :: r in roots ==> !(Tokens(r) <= Tokens(event.path))
    ensures root.Some? ==> root.value.path in roots && roots[root.value.path] == root.value
    ensures root.Some? ==> Tokens(root.value.path) <= Tokens(event.path) && forall r :: r in roots ==>
      Tokens(r) <= Tokens(event.path) ==> |Tokens(r)| <= |Tokens(root.value.path)|
    ensures v.Filtered? || v.Forward?
    ensures v.Forward? <==>
      && root.Some?
      && (root.value.depth.WatchTopLevel? ==> |Tokens(event.path)| <= |Tokens(root.value.path)| + 1)
      && !ignored(event.path, root.value) && accepts(event.path)
      && (root.value.filter.Some? ==> root.value.filter.value(event.path))
      && (root.value.eventMask == {} || exists t :: t in event.types && t in root.value.eventMask)
    ensures v.Forward? ==> v.event == event.(types := v.event.types)
    ensures v.Forward? && root.value.eventMask == {} ==> v.event.types == event.types
  {
    CleanIsClean(event.path);
    if root.Some? {
      InDepthIff(root.value, event.path);
      var mask := root.value.eventMask;
      assert forall t :: t in event.types && t in mask ==> t in Elements(event.types) * mask;
    }
    forall r | r in roots
      ensures Tokens(r) <= Tokens(event.path) <==> Covers(r, event.path)
      ensures root.Some? && Covers(r, event.path) ==> Tokens(r) <= Tokens(root.value.path)
    {
      assert roots[r].path == r;
      CoversIff(r, event.path);
      if root.Some? {
        CoversIff(r, root.value.path);
      }
    }
  }

  method FilterTypes(mask: set<EventType>, types: seq<EventType>)
      returns (filtered: seq<EventType>, ghost at: seq<nat>)
    ensures filtered == Allowed(mask, types)
    ensures PassedAt(mask, types, filtered, at)
  {
    filtered := [];
    for i := 0 to |types|
      invariant filtered == Allowed(mask, types[..i])
    {
      assert types[..i + 1][..i] == types[..i];
      if types[i] in mask {
        filtered := filtered + [types[i]];
      }
    }
    assert types[..|types|] == types;
    at := AllowedAt(mask, types);
  }

  /** The filters of one root, in the order of the source; any of them ends the event. */
  method Judge(event: WatchEvent, wp: WatchPath, ignored: (string, WatchPath) -> bool, accepts: string -> bool)
      returns (v: Verdict)
    requires Rooted(event.path)
    ensures IsVerdict(wp, event, ignored, accepts, v)
  {
    DirIsClean(event.path);
    CleanIsClean(wp.path);
    if wp.depth == WatchTopLevel && event.path != wp.path && Clean(Dir(event.path)) != Clean(wp.path) {
      return Filtered;
    }
    if ignored(event.path, wp) {
      return Filtered;
    }
    if !accepts(event.path) {
      return Filtered;
    }
    if wp.filter.Some? && !wp.filter.value(event.path) {
      return Filtered;
    }
    if |wp.eventMask| > 0 {
      var filtered;
      ghost var at;
      filtered, at := FilterTypes(wp.eventMask, event.types);
      AllowedElements(wp.eventMask, event.types);
      FirstElement(filtered);
      if |filtered| == 0 {
        return Filtered;
      }
      return Forward(event.(types := filtered));
    }
    v := Forward(event);
  }

  /** The last of the first `n` configured roots that has a path, or that was asked for by a name; -1 if none. */
  ghost function LastOfPath(roots: seq<WatchPath>, n: nat, path: string): int
    requires n <= |roots|
  {
    if n == 0 then -1 else if roots[n - 1].path == path then n - 1 else LastOfPath(roots, n - 1, path)
  }

  ghost function LastOfName(roots: seq<WatchPath>, n: nat, name: string): int
    requires n <= |roots|
  {
    if n == 0 then -1 else if roots[n - 1].requestedPath == name then n - 1 else LastOfName(roots, n - 1, name)
  }

  lemma {:induction false} LastOfPathIs(roots: seq<WatchPath>, n: nat, path: string)
    requires n <= |roots|
    ensures -1 <= LastOfPath(roots, n, path) < n
    ensures LastOfPath(roots, n, path) >= 0 ==> roots[LastOfPath(roots, n, path)].path == path
    ensures forall j :: LastOfPath(roots, n, path) < j < n ==> roots[j].path != path
  {
    if n > 0 {
      LastOfPathIs(roots, n - 1, path);
    }
  }

  lemma {:induction false} LastOfNameIs(roots: seq<WatchPath>, n: nat, name: string)
    requires n <= |roots|
    ensures -1 <= LastOfName(roots, n, name) < n
    ensures LastOfName(roots, n, name) >= 0 ==> roots[LastOfName(roots, n, name)].requestedPath == name
    ensures forall j :: LastOfName(roots, n, name) < j < n ==> roots[j].requestedPath != name
  {
    if n > 0 {
      LastOfNameIs(roots, n - 1, name);
    }
  }

  /** The first `n` configured roots by path; the last one wins. */
  ghost predicate Collected(roots: seq<WatchPath>, n: nat, paths: Roots)
    requires n <= |roots|
  {
    && (forall p :: p in paths <==> LastOfPath(roots, n, p) >= 0)
    && (forall p :: p in paths ==> LastOfPath(roots, n, p) < n && paths[p] == roots[LastOfPath(roots, n, p)])
  }

  /** Their paths by the names they were asked for; the last one wins. */
  ghost predicate Aliased(roots: seq<WatchPath>, n: nat, aliases: map<string, string>)
    requires n <= |roots|
  {
    && (forall a :: a in aliases <==> LastOfName(roots, n, a) >= 0)
    && (forall a :: a in aliases ==> LastOfName(roots, n, a) < n && aliases[a] == roots[LastOfName(roots, n, a)].path)
  }

  lemma CollectedAll(roots: seq<WatchPath>, paths: Roots)
    requires Collected(roots, |roots|, paths)
    ensures Keyed(paths)
    ensures forall p :: p in paths <==> exists i :: 0 <= i < |roots| && roots[i].path == p
  {
    forall p ensures p in paths <==> exists i :: 0 <= i < |roots| && roots[i].path == p {
      LastOfPathIs(roots, |roots|, p);
    }
    forall p | p in paths ensures paths[p].path == p {
      LastOfPathIs(roots, |roots|, p);
    }
  }

  lemma AliasedAll(roots: seq<WatchPath>, paths: Roots, aliases: map<string, string>)
    requires Collected(roots, |roots|, paths) && Aliased(roots, |roots|, aliases)
    ensures Targets(aliases, paths)
  {
    forall a | a in aliases ensures aliases[a] in paths {
      LastOfNameIs(roots, |roots|, a);
      LastOfPathIs(roots, |roots|, aliases[a]);
    }
  }

  /** The configured roots by path and by the name they were asked for; later ones win. */
  method CollectRoots(roots: seq<WatchPath>) returns (paths: Roots, aliases: map<string, string>)
    ensures Collected(roots, |roots|, paths) && Aliased(roots, |roots|, aliases)
    ensures Keyed(paths) && Targets(aliases, paths)
    ensures forall p :: p in paths <==> exists i :: 0 <= i < |roots| && roots[i].path == p
  {
    paths, aliases := map[], map[];
    for i := 0 to |roots|
      invariant Collected(roots, i, paths) && Aliased(roots, i, aliases)
    {
      paths := paths[roots[i].path := roots[i]];
      aliases := aliases[roots[i].requestedPath := roots[i].path];
    }
    CollectedAll(roots, paths);
    AliasedAll(roots, paths, aliases);
  }

  class RootSet {
    var watchedPaths: Roots
    var watchAliases: map<string, string>
    var rootIndex: Trie<WatchPath>
    var eventsFiltered: nat

    /** The index agrees with the map of roots, and aliases name watched roots. */
    ghost predicate Valid()
      reads this`watchedPaths, this`watchAliases, this`rootIndex, rootIndex, rootIndex.nodes.Values
    {
      && Keyed(watchedPaths)
      && rootIndex.Valid()
      && Indexes(rootIndex.contents, watchedPaths)
      && Targets(watchAliases, watchedPaths)
    }

    constructor (roots: seq<WatchPath>)
      ensures Valid() && eventsFiltered == 0
      ensures Collected(roots, |roots|, watchedPaths) && Aliased(roots, |roots|, watchAliases)
      ensures forall p :: p in watchedPaths <==> exists i :: 0 <= i < |roots| && roots[i].path == p
    {
      var paths, aliases := CollectRoots(roots);
      watchedPaths, watchAliases, eventsFiltered := paths, aliases, 0;
      var index := RebuildRootIndex(paths);
      rootIndex := index;
    }

    method SetRoots(roots: Roots)
      requires Keyed(roots) && Targets(watchAliases, roots)
      modifies this`watchedPaths, this`rootIndex
      ensures Valid() && watchedPaths == roots
      ensures fresh(rootIndex) && fresh(rootIndex.nodes.Values)
    {
      watchedPaths := roots;
      rootIndex := RebuildRootIndex(watchedPaths);
    }

    /** The first locked section of adding a root: reserves its path, unless it is taken. */
    method Reserve(wp: WatchPath) returns (reserved: bool)
      requires Valid()
      modifies this`watchedPaths, this`rootIndex
      ensures Valid() && (reserved <==> wp.path !in old(watchedPaths))
      ensures watchedPaths == if reserved then old(watchedPaths)[wp.path := wp] else old(watchedPaths)
    {
      if wp.path in watchedPaths {
        return false;
      }
      AddedKeyed(watchedPaths, watchAliases, wp);
      SetRoots(watchedPaths[wp.path := wp]);
      reserved := true;
    }

    /** The section that records the name a root was asked for by. */
    method SetAlias(alias: string, target: string)
      requires Valid() && target in watchedPaths
      modifies this`watchAliases
      ensures Valid() && watchAliases == old(watchAliases)[alias := target]
    {
      watchAliases := watchAliases[alias := target];
    }

    /** Adds a root; `backend` says whether the platform accepted it. On failure nothing has changed. */
    method AddPath(wp: WatchPath, running: bool, backend: bool) returns (r: Result<(), Failure>)
      requires Valid()
      modifies this`watchedPaths, this`watchAliases, this`rootIndex
      ensures Valid()
      ensures r.Ok? <==> running && wp.path !in old(watchedPaths) && backend
      ensures r.Ok? ==> watchedPaths == old(watchedPaths)[wp.path := wp]
                        && watchAliases == old(watchAliases)[wp.requestedPath := wp.path]
      ensures r.Err? ==> watchedPaths == old(watchedPaths) && watchAliases == old(watchAliases)
    {
      if !running {
        return Err(NotRunning);
      }
      AddedKeyed(watchedPaths, watchAliases, wp);
      var reserved := Reserve(wp);
      if !reserved {
        return Err(AlreadyWatched);
      }
      if !backend {
        SetRoots(watchedPaths - {wp.path});
        return Err(Backend);
      }
      SetAlias(wp.requestedPath, wp.path);
      r := Ok(());
    }

    /** Drops a root by its path or by the alias it was configured with. */
    method DropPath(path: string, running: bool, backend: bool) returns (r: Result<(), Failure>)
      requires Valid()
      modifies this`watchedPaths, this`watchAliases, this`rootIndex
      ensures Valid()
      ensures r.Ok? <==> running && Canonical(old(watchAliases), path) in old(watchedPaths) && backend
      ensures r.Ok? ==> watchedPaths == old(watchedPaths) - {Canonical(old(watchAliases), path)}
      ensures r.Ok? ==> watchAliases == WithoutTarget(old(watchAliases), Canonical(old(watchAliases), path))
      ensures r.Err? ==> watchedPaths == old(watchedPaths) && watchAliases == old(watchAliases)
      ensures var root := if path in old(watchAliases) then old(watchAliases)[path] else path;
        && (r.Ok? <==> running && backend && root in old(watchedPaths))
        && (r.Ok? ==>
             && watchedPaths == old(watchedPaths) - {root}
             && (forall a :: a in watchAliases <==> a in old(watchAliases) && old(watchAliases)[a] != root)
             && (forall a :: a in watchAliases ==> watchAliases[a] == old(watchAliases)[a]))
    {
      if !running {
        return Err(NotRunning);
      }
      var canonical := path;
      if path in watchAliases {
        canonical := watchAliases[path];
      }
      if canonical !in watchedPaths {
        return Err(NotWatched);
      }
      if !backend {
        return Err(Backend);
      }
      DroppedKeyed(watchedPaths, watchAliases, canonical);
      watchAliases := WithoutTarget(watchAliases, canonical);
      SetRoots(watchedPaths - {canonical});
      r := Ok(());
    }

    /** The most specific root of a path, found through the index; the answer is that of a scan of all roots. */
    method FindMostSpecificWatchPath(path: string) returns (best: Option<WatchPath>)
      requires Valid()
      ensures IsRootOf(watchedPaths, path, best)
    {
      best := Find(rootIndex, path);
      if Rooted(path) {
        CleanIsClean(path);
        LongestIsMostSpecific(rootIndex.contents, watchedPaths, Clean(path), best);
      }
    }

    /** Everything but the count. */
    method Classify(event: WatchEvent, shuttingDown: bool, ignored: (string, WatchPath) -> bool,
                    accepts: string -> bool)
        returns (v: Verdict, invalidation: Invalidation, ghost root: Option<WatchPath>)
      requires Valid()
      ensures Classified(watchedPaths, event, shuttingDown, ignored, accepts, v, root)
      ensures if shuttingDown then invalidation == KeepCache else Invalidates(event, invalidation)
    {
      root := None;
      if shuttingDown {
        return Refused, KeepCache, None;
      }
      invalidation := CacheInvalidation(event);
      if EVENT_OVERFLOW in event.types {
        return Forward(event), invalidation, None;
      }
      var parentWatch := FindMostSpecificWatchPath(event.path);
      root := parentWatch;
      if parentWatch.None? {
        return Filtered, invalidation, root;
      }
      v := Judge(event, parentWatch.value, ignored, accepts);
    }

    /** What happens to a raw event: refused during shutdown, excluded by a filter and counted, or handed to the
        aggregator with the types the mask of its most specific root lets through. */
    method HandlePlatformEvent(event: WatchEvent, shuttingDown: bool, ignored: (string, WatchPath) -> bool,
                               accepts: string -> bool)
        returns (v: Verdict, invalidation: Invalidation, ghost root: Option<WatchPath>)
      requires Valid()
      modifies this`eventsFiltered
      ensures Valid() && eventsFiltered == old(eventsFiltered) + One(v.Filtered?)
      ensures v.Refused? <==> shuttingDown
      ensures !shuttingDown && EVENT_OVERFLOW in event.types ==> v == Forward(event) && invalidation == InvalidateAll
      ensures Classified(watchedPaths, event, shuttingDown, ignored, accepts, v, root)
      ensures if shuttingDown then invalidation == KeepCache else Invalidates(event, invalidation)
    {
      v, invalidation, root := Classify(event, shuttingDown, ignored, accepts);
      eventsFiltered := eventsFiltered + One(v.Filtered?);
    }
  }
}
