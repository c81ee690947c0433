/**
 Kernel marks shared by overlapping roots. A mark is set when the first root takes a directory and removed when
 the last one releases it; any mark operation may fail, a rollback included. The kernel answers from an arbitrary
 script, and its marks are a ghost set.
 */
module Fanotify {
  import opened Paths
  import opened RootIndex
  import opened Sets
  import opened Sorting
  import opened Wrappers

  datatype MarkResult = MarkOk | MarkMissing | MarkFailed

  /** A list of failed calls grew by exactly one call for each of `more`. */
  ghost predicate Logged(before: multiset<string>, more: set<string>, after: multiset<string>) {
    forall d {:trigger after[d]} :: after[d] == before[d] + One(d in more)
  }

  class Kernel {
    /** The answer to the n-th mark operation. */
    const script: nat -> MarkResult
    var calls: nat
    ghost var marks: set<string>
    ghost var failedAdds: nat
    /** Every removal that failed, as often as it did. */
    ghost var failedRemovals: multiset<string>

    constructor (script: nat -> MarkResult)
      ensures marks == {}
    {
      this.script, calls, marks, failedAdds, failedRemovals := script, 0, {}, 0, multiset{};
    }

    /** No answer to come makes a removal fail. */
    ghost predicate Removes()
      reads this`calls
    {
      forall n :: n >= calls ==> !script(n).MarkFailed?
    }

    /** Every answer to come accepts a mark. */
    ghost predicate Accepts()
      reads this`calls
    {
      forall n :: n >= calls ==> script(n).MarkOk?
    }

    /** Fails unless the kernel accepts the mark; a failed call changes nothing. */
    method AddMark(path: string) returns (ok: bool)
      modifies this
      ensures calls == old(calls) + 1 && (ok <==> script(old(calls)).MarkOk?)
      ensures marks == if ok then old(marks) + {path} else old(marks)
      ensures failedAdds == old(failedAdds) + One(!ok) && failedRemovals == old(failedRemovals)
    {
      ok := script(calls).MarkOk?;
      calls := calls + 1;
      marks := if ok then marks + {path} else marks;
      failedAdds := failedAdds + One(!ok);
    }

    /** A removal that finds no such mark leaves none behind and counts as done. */
    method RemoveMark(path: string) returns (ok: bool)
      modifies this
      ensures calls == old(calls) + 1 && (ok <==> !script(old(calls)).MarkFailed?)
      ensures marks == if ok then old(marks) - {path} else old(marks)
      ensures Logged(old(failedRemovals), if ok then {} else {path}, failedRemovals) && failedAdds == old(failedAdds)
    {
      ok := !script(calls).MarkFailed?;
      calls := calls + 1;
      marks := if ok then marks - {path} else marks;
      failedRemovals := if ok then failedRemovals else failedRemovals + multiset{path};
    }
  }

  class Root {
    const depth: WatchDepth
    var dirs: set<string>
    /** The path it is registered under. */
    ghost const path: CleanPath

    constructor (depth: WatchDepth, ghost path: CleanPath)
      ensures dirs == {} && this.depth == depth && this.path == path
    {
      this.depth, dirs, this.path := depth, {}, path;
    }
  }

  type Refs = map<string, nat>
  type Owned = map<string, set<string>>

  // ---- Counting owners ----

  function Ref(refs: Refs, d: string): nat {
    if d in refs then refs[d] else 0
  }

  /** The registered roots that own a directory. */
  ghost function Owners(owned: Owned, d: string): set<string> {
    set r | r in owned && d in owned[r]
  }

  /** Reference counts are owner counts, plus what failed registrations could not take back. */
  ghost predicate Balanced(refs: Refs, owned: Owned, leaked: multiset<string>) {
    forall d {:trigger Ref(refs, d)} :: Ref(refs, d) == |Owners(owned, d)| + leaked[d]
  }

  /** Counts are positive and exactly the counted directories are marked. */
  ghost predicate Consistent(refs: Refs, marks: set<string>) {
    refs.Keys == marks && forall d :: d in refs ==> refs[d] >= 1
  }

  /** `after` counts each directory of `more` once more than `before`. */
  ghost predicate Raised(before: Refs, after: Refs, more: set<string>) {
    forall d {:trigger Ref(after, d)} :: Ref(after, d) == Ref(before, d) + One(d in more)
  }

  /** Changing what one root owns changes the owners of a directory by that root at most. */
  lemma OwnersChange(owned: Owned, r: string, dirs: set<string>, d: string)
    requires r in owned
    ensures |Owners(owned[r := dirs], d)| == |Owners(owned, d)| - One(d in owned[r]) + One(d in dirs)
  {
    var others := Owners(owned, d) - {r};
    assert Owners(owned, d) == if d in owned[r] then others + {r} else others;
    assert Owners(owned[r := dirs], d) == if d in dirs then others + {r} else others;
  }

  /** A root that takes directories it did not own is one more owner of each of them. */
  lemma BalancedTake(before: Refs, after: Refs, owned: Owned, leaked: multiset<string>, r: string, more: set<string>)
    requires Balanced(before, owned, leaked) && Raised(before, after, more)
    requires r in owned && more !! owned[r]
    ensures Balanced(after, owned[r := owned[r] + more], leaked)
  {
    forall d ensures Ref(after, d) == |Owners(owned[r := owned[r] + more], d)| + leaked[d] {
      assert Ref(before, d) == |Owners(owned, d)| + leaked[d];
      OwnersChange(owned, r, owned[r] + more, d);
    }
  }

  /** A root that gives directories up is one owner less of each of them. */
  lemma BalancedGive(before: Refs, after: Refs, owned: Owned, leaked: multiset<string>, r: string, gone: set<string>)
    requires Balanced(before, owned, leaked) && Raised(after, before, gone)
    requires r in owned && gone <= owned[r]
    ensures Balanced(after, owned[r := owned[r] - gone], leaked)
  {
    forall d ensures Ref(after, d) == |Owners(owned[r := owned[r] - gone], d)| + leaked[d] {
      assert Ref(before, d) == |Owners(owned, d)| + leaked[d];
      assert Ref(before, d) == Ref(after, d) + One(d in gone);
      OwnersChange(owned, r, owned[r] - gone, d);
    }
  }

  /** A new root that owns nothing yet, or an old one that owns nothing any more, does not count. */
  lemma BalancedEmptyRoot(refs: Refs, owned: Owned, leaked: multiset<string>, r: string)
    requires r !in owned
    ensures Balanced(refs, owned, leaked) <==> Balanced(refs, owned[r := {}], leaked)
  {
    forall d ensures Owners(owned[r := {}], d) == Owners(owned, d) {
    }
    if Balanced(refs, owned, leaked) {
      forall d ensures Ref(refs, d) == |Owners(owned[r := {}], d)| + leaked[d] {
        assert Owners(owned[r := {}], d) == Owners(owned, d);
      }
    }
    if Balanced(refs, owned[r := {}], leaked) {
      forall d ensures Ref(refs, d) == |Owners(owned, d)| + leaked[d] {
        assert Owners(owned[r := {}], d) == Owners(owned, d);
      }
    }
  }

  lemma BalancedNewRoot(before: Refs, after: Refs, owned: Owned, leaked: multiset<string>, r: string, dirs: set<string>)
    requires Balanced(before, owned, leaked) && Raised(before, after, dirs) && r !in owned
    ensures Balanced(after, owned[r := dirs], leaked)
  {
    BalancedEmptyRoot(before, owned, leaked, r);
    BalancedTake(before, after, owned[r := {}], leaked, r, dirs);
    assert {} + dirs == dirs;
    assert owned[r := {}][r := dirs] == owned[r := dirs];
  }

  /** Directories lie at or under a root. */
  ghost predicate Located(r: string, dirs: set<string>) {
    forall d :: d in dirs ==> IsClean(d) && Covers(r, d)
  }

  /** Every directory a root owns lies at or under it. */
  ghost predicate Inside(owned: Owned) {
    forall r {:trigger owned[r]} :: r in owned ==> Located(r, owned[r])
  }

  lemma BalancedDropRoot(refs: Refs, owned: Owned, leaked: multiset<string>, r: string)
    requires Balanced(refs, owned, leaked) && Inside(owned) && r in owned && owned[r] == {}
    ensures Balanced(refs, owned - {r}, leaked) && Inside(owned - {r})
  {
    assert (owned - {r})[r := {}] == owned;
    BalancedEmptyRoot(refs, owned - {r}, leaked, r);
  }

  /** Directories stuck in a root that was never registered are leaked references. */
  lemma BalancedLeak(before: Refs, after: Refs, owned: Owned, leaked: multiset<string>, stuck: set<string>)
    requires Balanced(before, owned, leaked) && Raised(before, after, stuck)
    ensures Balanced(after, owned, leaked + multiset(stuck))
  {
  }

  /** A directory that some root owns is marked, and counted at least once per owner. */
  lemma OwnedIsMarked(refs: Refs, marks: set<string>, owned: Owned, leaked: multiset<string>, r: string, d: string)
    requires Balanced(refs, owned, leaked) && Consistent(refs, marks)
    requires r in owned && d in owned[r]
    ensures d in marks && refs[d] >= |Owners(owned, d)| >= 1
  {
    assert r in Owners(owned, d);
    assert Ref(refs, d) == |Owners(owned, d)| + leaked[d];
  }

  /** Without leaks exactly the owned directories are marked, each counted once per owner. */
  lemma ExactWithoutLeaks(refs: Refs, marks: set<string>, owned: Owned, d: string)
    requires Balanced(refs, owned, multiset{}) && Consistent(refs, marks)
    ensures Ref(refs, d) == |Owners(owned, d)|
    ensures d in marks <==> exists r :: r in owned && d in owned[r]
  {
    assert Ref(refs, d) == |Owners(owned, d)| + multiset{}[d];
    assert d in marks <==> Owners(owned, d) != {};
    if Owners(owned, d) != {} {
      var r :| r in Owners(owned, d);
    }
    assert forall r :: r in owned && d in owned[r] ==> r in Owners(owned, d);
  }

  /** Equal counts are equal tables. */
  lemma RefsDetermined(before: Refs, after: Refs, marks: set<string>, marksAfter: set<string>)
    requires Consistent(before, marks) && Consistent(after, marksAfter) && Raised(before, after, {})
    ensures before == after && marks == marksAfter
  {
    forall d ensures d in before <==> d in after {
      assert Ref(after, d) == Ref(before, d);
    }
    forall d | d in before ensures before[d] == after[d] {
      assert Ref(after, d) == Ref(before, d);
    }
  }

  lemma InsideChange(owned: Owned, r: string, dirs: set<string>)
    requires Inside(owned) && Located(r, dirs)
    ensures Inside(owned[r := dirs])
  {
  }

  lemma InsideGrown(owned: Owned, r: string, dirs: set<string>, more: set<string>)
    requires Inside(owned) && r in owned && Located(r, dirs) && more <= dirs
    ensures Inside(owned[r := owned[r] + more])
  {
  }

  lemma InsideShrunk(owned: Owned, r: string, gone: set<string>)
    requires Inside(owned) && r in owned
    ensures Inside(owned[r := owned[r] - gone])
  {
  }

  /** The directories at or under a path. */
  function Below(path: string, dirs: set<string>): set<string> {
    set d | d in dirs && Covers(path, d)
  }

  // ---- Proof steps of the backend's loops ----

  lemma ElementsFrom(s: seq<string>, i: nat)
    requires i < |s| && Distinct(s)
    ensures Elements(s[i..]) == {s[i]} + Elements(s[i + 1..]) && s[i] !in Elements(s[i + 1..])
    ensures s[i] in Elements(s)
  {
  }

  lemma ElementsUpTo(s: seq<string>, i: nat)
    requires i < |s|
    ensures Elements(s[..i + 1]) == Elements(s[..i]) + {s[i]} && Elements(s[..i + 1]) <= Elements(s)
  {
  }

  lemma ElementsAppended(s: seq<string>, x: string)
    ensures Elements(s + [x]) == Elements(s) + {x}
    ensures Distinct(s) && x !in Elements(s) ==> Distinct(s + [x])
  {
  }

  lemma GaveAll(before: Owned, after: Owned, r: string)
    requires r in before && after == before[r := before[r] - (before[r] - {})]
    ensures after[r] == {} && after - {r} == before - {r}
  {
  }

  lemma NothingLess<V>(m: map<string, V>, k: string)
    requires k !in m
    ensures m == m - {k}
  {
  }

  lemma AllBelow(owned: Owned, r: string)
    requires Inside(owned) && r in owned
    ensures Below(r, owned[r]) == owned[r]
  {
  }

  lemma OwnedAreCounted(refs: Refs, owned: Owned, leaked: multiset<string>, r: string)
    requires Balanced(refs, owned, leaked) && r in owned
    ensures owned[r] <= refs.Keys
  {
    forall d | d in owned[r] ensures d in refs {
      assert r in Owners(owned, d) && Ref(refs, d) == |Owners(owned, d)| + leaked[d];
    }
  }

  /** What lies under a covered path is covered. */
  lemma CoversAll(r: CleanPath, path: CleanPath, dirs: set<string>)
    requires Covers(r, path) && Located(path, dirs)
    ensures Located(r, dirs)
  {
    forall d | d in dirs ensures Covers(r, d) {
      CoversIff(r, path);
      CoversIff(path, d);
      CoversIff(r, d);
    }
  }

  lemma LoggedByNone(failed: multiset<string>, none: set<string>)
    requires forall d :: d !in none
    ensures Logged(failed, none, failed)
  {
    forall d ensures failed[d] == failed[d] + One(d in none) {
      assert d !in none;
    }
  }

  lemma LoggedTwice(a: multiset<string>, b: multiset<string>, c: multiset<string>,
                    first: set<string>, second: set<string>)
    requires Logged(a, first, b) && Logged(b, second, c) && first !! second
    ensures Logged(a, first + second, c)
  {
    forall d ensures c[d] == a[d] + One(d in first + second) {
      assert c[d] == b[d] + One(d in second) && b[d] == a[d] + One(d in first);
    }
  }

  lemma RaisedByNone(refs: Refs, none: set<string>)
    requires forall d :: d !in none
    ensures Raised(refs, refs, none)
  {
    forall d ensures Ref(refs, d) == Ref(refs, d) + One(d in none) {
      assert d !in none;
    }
  }

  lemma RaisedTwice(a: Refs, b: Refs, c: Refs, first: set<string>, second: set<string>)
    requires Raised(a, b, first) && Raised(b, c, second) && first !! second
    ensures Raised(a, c, first + second)
  {
  }

  /** Taking back all but the stuck directories leaves those raised; none of them was counted before. */
  lemma RolledBack(start: Refs, full: Refs, end: Refs, added: set<string>, stuck: set<string>)
    requires Raised(start, full, added) && Raised(end, full, added - stuck) && stuck <= added
    requires forall d :: d in stuck ==> d in full && full[d] == 1
    requires forall d :: d in start ==> start[d] >= 1
    ensures Raised(start, end, stuck) && stuck !! start.Keys
  {
    forall d ensures Ref(end, d) == Ref(start, d) + One(d in stuck) {
      assert Ref(full, d) == Ref(start, d) + One(d in added);
      assert Ref(full, d) == Ref(end, d) + One(d in added - stuck);
    }
    forall d | d in stuck ensures d !in start {
      assert Ref(full, d) == Ref(start, d) + One(d in added);
    }
  }

  // ---- The backend ----

  datatype AddResult = AlreadyMonitored | Added | Refused(stuck: set<string>)

  /** What roots own after a tree appeared: those not in `rest` that watch everything below themselves and cover
      it own all its directories too, and nothing else changed. */
  ghost predicate Grew(before: Owned, after: Owned, roots: map<string, Root>, rest: set<string>, path: string,
                       dirs: seq<string>)
    requires before.Keys <= roots.Keys
  {
    && after.Keys == before.Keys
    && forall r :: r in after ==>
         after[r] == if r !in rest && roots[r].depth == WatchNested && Covers(r, path) then before[r] + Elements(dirs)
                     else before[r]
  }

  lemma GrewOne(start: Owned, before: Owned, after: Owned, roots: map<string, Root>, rest: set<string>,
                path: string, dirs: seq<string>, r: string)
    requires start.Keys <= roots.Keys && Grew(start, before, roots, rest, path, dirs) && r in rest && r in before
    requires after == if roots[r].depth == WatchNested && Covers(r, path) then before[r := before[r] + Elements(dirs)]
                      else before
    ensures Grew(start, after, roots, rest - {r}, path, dirs)
  {
  }

  lemma GrowthStopped(start: Owned, before: Owned, after: Owned, roots: map<string, Root>, rest: set<string>,
                      path: string, dirs: seq<string>, r: string, stuck: set<string>)
    requires start.Keys <= roots.Keys && Grew(start, before, roots, rest, path, dirs) && r in rest && r in before
    requires after == before[r := before[r] + stuck]
    ensures after[r] == start[r] + stuck
    ensures Grew(start, after[r := start[r]], roots, rest, path, dirs)
  {
  }

  lemma GrewAll(before: Owned, after: Owned, roots: map<string, Root>, path: string, dirs: seq<string>)
    requires before.Keys <= roots.Keys && Grew(before, after, roots, {}, path, dirs)
    ensures forall r :: r in after ==>
      after[r] == before[r] + if roots[r].depth.WatchNested? && Covers(r, path) then Elements(dirs) else {}
  {
    forall r | r in after
      ensures after[r] == before[r] + if roots[r].depth.WatchNested? && Covers(r, path) then Elements(dirs) else {}
    {
      assert r !in {};
    }
  }

  /** Roots gave up nothing but directories at or under a path. */
  ghost predicate Trimmed(before: Owned, after: Owned, path: string) {
    && after.Keys == before.Keys
    && forall r :: r in after ==> before[r] - Below(path, before[r]) <= after[r] <= before[r]
  }

  /** Roots not in `rest` own nothing at or under a path but directories whose removal failed meanwhile. */
  ghost predicate Excused(owned: Owned, path: string, rest: set<string>, before: multiset<string>,
                          after: multiset<string>) {
    && (forall d {:trigger after[d]} :: before[d] <= after[d])
    && forall r, d :: r in owned && r !in rest && d in owned[r] && Covers(path, d) ==> after[d] > before[d]
  }

  lemma ExcusedOne(before: Owned, after: Owned, rest: set<string>, path: string, r: string, stuck: set<string>,
                   start: multiset<string>, failed: multiset<string>, now: multiset<string>)
    requires Excused(before, path, rest, start, failed) && Logged(failed, stuck, now)
    requires r in before && after == before[r := before[r] - (Below(path, before[r]) - stuck)]
    ensures Excused(after, path, rest - {r}, start, now)
  {
    forall d ensures start[d] <= now[d] {
      assert now[d] == failed[d] + One(d in stuck);
    }
    forall s, d | s in after && s !in rest - {r} && d in after[s] && Covers(path, d) ensures now[d] > start[d] {
      assert now[d] == failed[d] + One(d in stuck);
      assert start[d] <= failed[d];
    }
  }

  /** All roots but those in `rest` gave up everything at or under a path. */
  ghost predicate Cleared(owned: Owned, path: string, rest: set<string>) {
    forall r :: r in owned && r !in rest ==> Below(path, owned[r]) == {}
  }

  lemma TrimmedExactly(before: Owned, after: Owned, path: string)
    requires Trimmed(before, after, path)
    ensures after.Keys == before.Keys && forall r :: r in after ==> after[r] <= before[r]
    ensures forall r, d :: r in after && d in before[r] && !Covers(path, d) ==> d in after[r]
    ensures Cleared(after, path, {}) <==> forall r, d :: r in after && d in after[r] ==> !Covers(path, d)
  {
    assert forall r, d :: r in after && d in after[r] && Covers(path, d) ==> d in Below(path, after[r]);
    assert Cleared(after, path, {}) <==> forall r :: r in after ==> Below(path, after[r]) == {};
  }

  lemma TrimmedOne(start: Owned, before: Owned, after: Owned, rest: set<string>, path: string, r: string,
                   stuck: set<string>)
    requires Trimmed(start, before, path) && r in before && r in rest && stuck <= Below(path, before[r])
    requires after == before[r := before[r] - (Below(path, before[r]) - stuck)]
    ensures Trimmed(start, after, path)
    ensures Cleared(after, path, rest - {r}) <==> Cleared(before, path, rest) && stuck == {}
  {
  }

  /** What a root owns after a scan: what it owned and the scan found, what it could not give up, and either
      everything found or what is stuck. */
  ghost function AfterScan(mine: set<string>, found: set<string>, kept: set<string>, ok: bool, stuck: set<string>)
      : set<string>
  {
    mine * found + kept + if ok then found else stuck
  }

  lemma Reconciled(start: Owned, between: Owned, after: Owned, r: string, found: set<string>, kept: set<string>,
                   ok: bool, stuck: set<string>)
    requires r in start && kept <= start[r] - found
    requires between == start[r := start[r] - ((start[r] - found) - kept)]
    requires after == between[r := between[r] + if ok then found else stuck]
    ensures after == start[r := AfterScan(start[r], found, kept, ok, stuck)]
  {
    assert between[r] == start[r] * found + kept;
  }

  class Backend {
    const kernel: Kernel
    var roots: map<string, Root>
    var markRefs: Refs
    var paths: set<string>
    /** What each registered root owns, and the references that failed registrations left behind. */
    ghost var owned: Owned
    ghost var leaked: multiset<string>

    constructor (kernel: Kernel)
      requires kernel.marks == {}
      ensures Valid() && owned == map[] && leaked == multiset{} && this.kernel == kernel
    {
      this.kernel := kernel;
      roots, markRefs, paths, owned, leaked := map[], map[], {}, map[], multiset{};
    }

    ghost predicate Registered()
      reads this`roots, this`paths, this`owned, roots.Values`dirs
    {
      && roots.Keys == owned.Keys == paths
      && forall r :: r in roots ==> roots[r].path == r && roots[r].dirs == owned[r]
    }

    /** While the directories of one root are being changed. */
    ghost predicate RegisteredBut(r: string)
      reads this`roots, this`paths, this`owned, roots.Values`dirs
    {
      && r in roots && roots.Keys == owned.Keys == paths
      && forall s :: s in roots ==> roots[s].path == s && (s != r ==> roots[s].dirs == owned[s])
    }

    ghost predicate Valid()
      reads this, kernel, roots.Values`dirs
    {
      && Registered()
      && Inside(owned)
      && Balanced(markRefs, owned, leaked)
      && Consistent(markRefs, kernel.marks)
    }

    /** Releases one directory of a root; it fails only if the mark was the last one and cannot be removed. */
    method ReleaseDirectoryLocked(root: Root, dir: string) returns (ok: bool)
      requires Consistent(markRefs, kernel.marks) && root.dirs <= markRefs.Keys
      modifies this`markRefs, kernel, root`dirs
      ensures Consistent(markRefs, kernel.marks) && root.dirs <= markRefs.Keys
      ensures ok ==> root.dirs == old(root.dirs) - {dir} && Raised(markRefs, old(markRefs), {dir} * old(root.dirs))
      ensures !ok ==> root.dirs == old(root.dirs) && markRefs == old(markRefs)
                      && dir in root.dirs && markRefs[dir] == 1
      ensures Logged(old(kernel.failedRemovals), if ok then {} else {dir}, kernel.failedRemovals)
      ensures kernel.failedAdds == old(kernel.failedAdds)
      ensures if dir in old(root.dirs) && old(markRefs)[dir] == 1
        then kernel.calls == old(kernel.calls) + 1 && (ok <==> !kernel.script(old(kernel.calls)).MarkFailed?)
        else kernel.calls == old(kernel.calls) && ok
      ensures old(kernel.Removes()) ==> kernel.Removes() && ok
    {
      if dir !in root.dirs {
        assert root.dirs == root.dirs - {dir} && {dir} * root.dirs == {};
        return true;
      }
      var refs := markRefs[dir];
      if refs <= 1 {
        var removed := kernel.RemoveMark(dir);
        if !removed {
          return false;
        }
        markRefs := markRefs - {dir};
      } else {
        markRefs := markRefs[dir := refs - 1];
      }
      root.dirs := root.dirs - {dir};
      ok := true;
    }

    /** Releases directories one by one whatever fails, and names those that stay: each has no other owner. */
    method ReleaseEach(root: Root, dirs: seq<string>) returns (stuck: set<string>)
      requires Consistent(markRefs, kernel.marks) && root.dirs <= markRefs.Keys
      requires Distinct(dirs) && Elements(dirs) <= root.dirs
      modifies this`markRefs, kernel, root`dirs
      ensures Consistent(markRefs, kernel.marks) && root.dirs <= markRefs.Keys
      ensures stuck <= Elements(dirs) && root.dirs == old(root.dirs) - (Elements(dirs) - stuck)
      ensures Raised(markRefs, old(markRefs), Elements(dirs) - stuck)
      ensures forall d :: d in stuck ==> old(markRefs)[d] == 1
      ensures Logged(old(kernel.failedRemovals), stuck, kernel.failedRemovals)
      ensures kernel.failedAdds == old(kernel.failedAdds)
      ensures old(kernel.Removes()) ==> kernel.Removes() && stuck == {}
    {
      ghost var gone: set<string> := {};
      stuck := {};
      var i := |dirs|;
      RaisedByNone(markRefs, gone);
      while i > 0
        invariant 0 <= i <= |dirs|
        invariant Consistent(markRefs, kernel.marks) && root.dirs <= markRefs.Keys
        invariant gone + stuck == Elements(dirs[i..]) && gone !! stuck && root.dirs == old(root.dirs) - gone
        invariant Raised(markRefs, old(markRefs), gone)
        invariant forall d :: d in stuck ==> old(markRefs)[d] == 1
        invariant Logged(old(kernel.failedRemovals), stuck, kernel.failedRemovals)
        invariant kernel.failedAdds == old(kernel.failedAdds)
        invariant old(kernel.Removes()) ==> kernel.Removes() && stuck == {}
      {
        i := i - 1;
        ghost var before, failed := markRefs, kernel.failedRemovals;
        ElementsFrom(dirs, i);
        var ok := ReleaseDirectoryLocked(root, dirs[i]);
        if ok {
          RaisedTwice(markRefs, before, old(markRefs), {dirs[i]}, gone);
          gone := {dirs[i]} + gone;
        } else {
          assert Ref(old(markRefs), dirs[i]) == Ref(before, dirs[i]) + One(dirs[i] in gone);
          LoggedTwice(old(kernel.failedRemovals), failed, kernel.failedRemovals, stuck, {dirs[i]});
          stuck := stuck + {dirs[i]};
        }
      }
      assert dirs[0..] == dirs && gone == Elements(dirs) - stuck;
    }

    /** Takes a directory the root does not own yet; it fails only if the mark is new and cannot be set. */
    method AddDirectoryLocked(root: Root, dir: string) returns (ok: bool)
      requires Consistent(markRefs, kernel.marks) && root.dirs <= markRefs.Keys && dir !in root.dirs
      modifies this`markRefs, kernel, root`dirs
      ensures Consistent(markRefs, kernel.marks) && root.dirs <= markRefs.Keys
      ensures ok ==> root.dirs == old(root.dirs) + {dir} && Raised(old(markRefs), markRefs, {dir})
      ensures !ok ==> root.dirs == old(root.dirs) && markRefs == old(markRefs) && dir !in markRefs
      ensures kernel.failedAdds == old(kernel.failedAdds) + One(!ok)
      ensures kernel.failedRemovals == old(kernel.failedRemovals)
      ensures if dir in old(markRefs) then kernel.calls == old(kernel.calls) && ok
        else kernel.calls == old(kernel.calls) + 1 && (ok <==> kernel.script(old(kernel.calls)).MarkOk?)
    {
      if dir !in markRefs {
        var marked := kernel.AddMark(dir);
        if !marked {
          return false;
        }
      }
      markRefs := markRefs[dir := Ref(markRefs, dir) + 1];
      root.dirs := root.dirs + {dir};
      ok := true;
    }

    /** All or nothing: a mark that cannot be set undoes the ones set before it, in reverse order. Only
        directories whose mark then cannot be removed stay recorded. */
    method AddDirectoriesLocked(root: Root, dirs: seq<string>) returns (ok: bool, stuck: set<string>)
      requires Consistent(markRefs, kernel.marks) && root.dirs <= markRefs.Keys
      modifies this`markRefs, kernel, root`dirs
      ensures Consistent(markRefs, kernel.marks) && root.dirs <= markRefs.Keys
      ensures ok <==> kernel.failedAdds == old(kernel.failedAdds)
      ensures Logged(old(kernel.failedRemovals), stuck, kernel.failedRemovals)
      ensures stuck <= Elements(dirs)
      ensures ok ==> stuck == {} && kernel.failedRemovals == old(kernel.failedRemovals)
      ensures ok ==> root.dirs == old(root.dirs) + Elements(dirs)
                     && Raised(old(markRefs), markRefs, Elements(dirs) - old(root.dirs))
      ensures !ok ==> root.dirs == old(root.dirs) + stuck && Raised(old(markRefs), markRefs, stuck)
                      && stuck !! old(markRefs).Keys
      ensures !ok && stuck == {} ==> markRefs == old(markRefs) && kernel.marks == old(kernel.marks)
      ensures old(kernel.Removes()) ==> kernel.Removes() && stuck == {}
      ensures old(kernel.Accepts()) ==> kernel.Accepts() && ok
    {
      var added: seq<string> := [];
      ghost var taken: set<string> := {};
      stuck := {};
      RaisedByNone(markRefs, taken);
      for i := 0 to |dirs|
        invariant Consistent(markRefs, kernel.marks) && root.dirs <= markRefs.Keys
        invariant kernel.failedAdds == old(kernel.failedAdds) && kernel.failedRemovals == old(kernel.failedRemovals)
        invariant kernel.calls >= old(kernel.calls)
        invariant Distinct(added) && Elements(added) == taken
        invariant taken == Elements(dirs[..i]) - old(root.dirs) && root.dirs == old(root.dirs) + taken
        invariant Raised(old(markRefs), markRefs, taken)
      {
        var dir := dirs[i];
        ElementsUpTo(dirs, i);
        if dir in root.dirs {
          continue;
        }
        ghost var before := markRefs;
        ok := AddDirectoryLocked(root, dir);
        if !ok {
          stuck := ReleaseEach(root, added);
          RolledBack(old(markRefs), before, markRefs, taken, stuck);
          if stuck == {} {
            RefsDetermined(old(markRefs), markRefs, old(kernel.marks), kernel.marks);
          }
          return;
        }
        RaisedTwice(old(markRefs), before, markRefs, taken, {dir});
        ElementsAppended(added, dir);
        added, taken := added + [dir], taken + {dir};
      }
      assert dirs[..|dirs|] == dirs;
      ok := true;
    }

    /** The same over a set, in whatever order the map of directories is visited. */
    method ReleaseAll(root: Root, dirs: set<string>) returns (stuck: set<string>)
      requires Consistent(markRefs, kernel.marks) && root.dirs <= markRefs.Keys && dirs <= root.dirs
      modifies this`markRefs, kernel, root`dirs
      ensures Consistent(markRefs, kernel.marks) && root.dirs <= markRefs.Keys
      ensures stuck <= dirs && root.dirs == old(root.dirs) - (dirs - stuck)
      ensures Raised(markRefs, old(markRefs), dirs - stuck)
      ensures Logged(old(kernel.failedRemovals), stuck, kernel.failedRemovals)
      ensures kernel.failedAdds == old(kernel.failedAdds)
      ensures old(kernel.Removes()) ==> kernel.Removes() && stuck == {}
      ensures old(kernel.Accepts()) ==> kernel.Accepts()
    {
      ghost var gone: set<string> := {};
      stuck := {};
      var rest := dirs;
      RaisedByNone(markRefs, gone);
      while rest != {}
        invariant rest <= dirs
        invariant Consistent(markRefs, kernel.marks) && root.dirs <= markRefs.Keys
        invariant gone + stuck == dirs - rest && gone !! stuck && root.dirs == old(root.dirs) - gone
        invariant Raised(markRefs, old(markRefs), gone)
        invariant Logged(old(kernel.failedRemovals), stuck, kernel.failedRemovals)
        invariant kernel.failedAdds == old(kernel.failedAdds) && kernel.calls >= old(kernel.calls)
        invariant old(kernel.Removes()) ==> kernel.Removes() && stuck == {}
        decreases rest
      {
        var dir := Pick(rest);
        rest := rest - {dir};
        ghost var before, failed := markRefs, kernel.failedRemovals;
        var ok := ReleaseDirectoryLocked(root, dir);
        if ok {
          RaisedTwice(markRefs, before, old(markRefs), {dir}, gone);
          gone := {dir} + gone;
        } else {
          LoggedTwice(old(kernel.failedRemovals), failed, kernel.failedRemovals, stuck, {dir});
          stuck := stuck + {dir};
        }
      }
      assert gone == dirs - stuck;
    }

    // ---- The same on a registered root ----

    ghost method Credit(r: string, before: Refs, more: set<string>)
      requires RegisteredBut(r) && Inside(owned) && Consistent(markRefs, kernel.marks)
      requires Balanced(before, owned, leaked) && Raised(before, markRefs, more)
      requires more !! owned[r] && roots[r].dirs == owned[r] + more && Located(r, more)
      modifies this`owned
      ensures Valid() && owned == old(owned)[r := old(owned)[r] + more]
    {
      BalancedTake(before, markRefs, owned, leaked, r, more);
      InsideGrown(owned, r, more, more);
      owned := owned[r := owned[r] + more];
    }

    /** A registered root takes directories at or under itself: all of them, or none but the stuck ones. */
    method Take(r: string, root: Root, dirs: seq<string>) returns (ok: bool, stuck: set<string>)
      requires Valid() && r in roots && roots[r] == root && Located(r, Elements(dirs))
      modifies this`markRefs, this`owned, kernel, root`dirs
      ensures Valid() && stuck <= Elements(dirs)
      ensures owned == old(owned)[r := old(owned)[r] + if ok then Elements(dirs) else stuck]
      ensures ok <==> kernel.failedAdds == old(kernel.failedAdds)
      ensures ok ==> stuck == {} && kernel.failedRemovals == old(kernel.failedRemovals)
      ensures Logged(old(kernel.failedRemovals), stuck, kernel.failedRemovals)
      ensures !ok && stuck == {} ==> markRefs == old(markRefs) && kernel.marks == old(kernel.marks)
      ensures old(kernel.Removes()) ==> kernel.Removes() && stuck == {}
      ensures old(kernel.Accepts()) ==> kernel.Accepts() && ok
    {
      OwnedAreCounted(markRefs, owned, leaked, r);
      ghost var before, mine := markRefs, owned[r];
      ok, stuck := AddDirectoriesLocked(root, dirs);
      ghost var more := if ok then Elements(dirs) - mine else stuck;
      assert mine + more == mine + if ok then Elements(dirs) else stuck;
      Credit(r, before, more);
    }

    ghost method Debit(r: string, before: Refs, gone: set<string>)
      requires RegisteredBut(r) && Inside(owned) && Consistent(markRefs, kernel.marks)
      requires Balanced(before, owned, leaked) && Raised(markRefs, before, gone)
      requires gone <= owned[r] && roots[r].dirs == owned[r] - gone
      modifies this`owned
      ensures Valid() && owned == old(owned)[r := old(owned)[r] - gone]
    {
      BalancedGive(before, markRefs, owned, leaked, r, gone);
      InsideShrunk(owned, r, gone);
      owned := owned[r := owned[r] - gone];
    }

    /** A registered root gives directories up, except those whose mark cannot be removed. */
    method Give(r: string, root: Root, dirs: set<string>) returns (stuck: set<string>)
      requires Valid() && r in roots && roots[r] == root && dirs <= root.dirs
      modifies this`markRefs, this`owned, kernel, root`dirs
      ensures Valid() && stuck <= dirs
      ensures owned == old(owned)[r := old(owned)[r] - (dirs - stuck)]
      ensures Logged(old(kernel.failedRemovals), stuck, kernel.failedRemovals)
      ensures kernel.failedAdds == old(kernel.failedAdds)
      ensures old(kernel.Removes()) ==> kernel.Removes() && stuck == {}
      ensures old(kernel.Accepts()) ==> kernel.Accepts()
    {
      OwnedAreCounted(markRefs, owned, leaked, r);
      ghost var before := markRefs;
      stuck := ReleaseAll(root, dirs);
      Debit(r, before, dirs - stuck);
    }

    // ---- Operations ----

    ghost method Leak(before: Refs, stuck: set<string>)
      requires Registered() && Inside(owned) && Consistent(markRefs, kernel.marks)
      requires Balanced(before, owned, leaked) && Raised(before, markRefs, stuck)
      modifies this`leaked
      ensures Valid() && leaked == old(leaked) + multiset(stuck)
    {
      BalancedLeak(before, markRefs, owned, leaked, stuck);
      leaked := leaked + multiset(stuck);
    }

    /** Records a root and its path; what it owns counts from the next step on. */
    method RecordRoot(path: CleanPath, root: Root)
      requires path !in roots && root.path == path && Registered()
      modifies this`roots, this`paths, this`owned
      ensures Registered() && owned == old(owned)[path := root.dirs] && roots == old(roots)[path := root]
    {
      roots := roots[path := root];
      paths := paths + {path};
      owned := owned[path := root.dirs];
    }

    method Register(path: CleanPath, root: Root, ghost before: Refs)
      requires Registered() && Inside(owned) && Consistent(markRefs, kernel.marks)
      requires Balanced(before, owned, leaked) && Raised(before, markRefs, root.dirs)
      requires path !in roots && root.path == path && Located(path, root.dirs)
      modifies this`roots, this`paths, this`owned
      ensures Valid()
      ensures owned == old(owned)[path := root.dirs] && roots == old(roots)[path := root]
    {
      BalancedNewRoot(before, markRefs, owned, leaked, path, root.dirs);
      InsideChange(owned, path, root.dirs);
      RecordRoot(path, root);
    }

    /** A new root with its directories, not registered yet; if it cannot take all of them, what is stuck leaks. */
    method Equip(path: CleanPath, depth: WatchDepth, dirs: seq<string>)
        returns (root: Root, ok: bool, stuck: set<string>)
      requires Valid() && Located(path, Elements(dirs))
      modifies this`markRefs, this`leaked, kernel
      ensures fresh(root) && root.depth == depth && root.path == path
      ensures Registered() && Inside(owned) && Consistent(markRefs, kernel.marks)
      ensures ok ==> root.dirs == Elements(dirs) && leaked == old(leaked)
                     && Balanced(old(markRefs), owned, leaked) && Raised(old(markRefs), markRefs, root.dirs)
      ensures !ok ==> Valid() && leaked == old(leaked) + multiset(stuck) && kernel.failedAdds != old(kernel.failedAdds)
      ensures !ok && stuck == {} ==>
        markRefs == old(markRefs) && kernel.marks == old(kernel.marks) && leaked == old(leaked)
      ensures Logged(old(kernel.failedRemovals), stuck, kernel.failedRemovals)
      ensures old(kernel.Removes()) ==> stuck == {}
      ensures old(kernel.Accepts()) ==> ok
    {
      root := new Root(depth, path);
      assert Elements(dirs) - root.dirs == Elements(dirs) == root.dirs + Elements(dirs);
      ok, stuck := AddDirectoriesLocked(root, dirs);
      if !ok {
        Leak(old(markRefs), stuck);
      }
    }

    /** Registers a root with the directories found below it. A failed registration leaves nothing behind but
        the references of directories that could not be rolled back. */
    method AddWatch(path: CleanPath, depth: WatchDepth, dirs: seq<string>) returns (r: AddResult)
      requires Valid() && Located(path, Elements(dirs))
      modifies this`roots, this`markRefs, this`paths, this`owned, this`leaked, kernel
      ensures Valid()
      ensures r.AlreadyMonitored? <==> path in old(roots)
      ensures !r.Added? ==> roots == old(roots) && owned == old(owned)
      ensures r.AlreadyMonitored? || (r.Refused? && r.stuck == {}) ==>
        markRefs == old(markRefs) && kernel.marks == old(kernel.marks) && leaked == old(leaked)
      ensures r.Added? ==> owned == old(owned)[path := Elements(dirs)] && roots[path].depth == depth
                           && roots == old(roots)[path := roots[path]] && leaked == old(leaked)
      ensures r.Refused? ==> leaked == old(leaked) + multiset(r.stuck) && kernel.failedAdds != old(kernel.failedAdds)
                             && Logged(old(kernel.failedRemovals), r.stuck, kernel.failedRemovals)
      ensures old(kernel.Removes()) && r.Refused? ==> r.stuck == {}
      ensures old(kernel.Accepts()) ==> !r.Refused?
    {
      if path in roots {
        return AlreadyMonitored;
      }
      var root, ok, stuck := Equip(path, depth, dirs);
      if !ok {
        return Refused(stuck);
      }
      Register(path, root, old(markRefs));
      r := Added;
    }

    /** A root takes the directories of a new tree if it watches everything below itself and covers it. */
    method GrowRoot(r: string, root: Root, path: CleanPath, dirs: seq<string>) returns (ok: bool, stuck: set<string>)
      requires Valid() && r in roots && roots[r] == root && Located(path, Elements(dirs))
      modifies this`markRefs, this`owned, kernel, root`dirs
      ensures Valid() && (ok <==> kernel.failedAdds == old(kernel.failedAdds))
      ensures ok ==> stuck == {} && kernel.failedRemovals == old(kernel.failedRemovals)
      ensures Logged(old(kernel.failedRemovals), stuck, kernel.failedRemovals)
      ensures ok ==> owned == if root.depth == WatchNested && Covers(r, path)
                              then old(owned)[r := old(owned)[r] + Elements(dirs)] else old(owned)
      ensures !ok ==> owned == old(owned)[r := old(owned)[r] + stuck]
      ensures old(kernel.Removes()) ==> kernel.Removes() && stuck == {}
      ensures old(kernel.Accepts()) ==> kernel.Accepts() && ok
    {
      ok, stuck := true, {};
      if root.depth == WatchNested && Covers(r, path) {
        CoversAll(root.path, path, Elements(dirs));
        ok, stuck := Take(r, root, dirs);
      } else {
        LoggedByNone(kernel.failedRemovals, stuck);
      }
    }

    /** The roots one after the other, up to the first that cannot take a directory; it is then in `rest`. */
    method GrowEach(path: CleanPath, dirs: seq<string>)
        returns (failed: Option<string>, stuck: set<string>, ghost rest: set<string>)
      requires Valid() && Located(path, Elements(dirs))
      modifies this`markRefs, this`owned, kernel, roots.Values`dirs
      ensures Valid() && owned.Keys == old(owned).Keys
      ensures failed.None? <==> kernel.failedAdds == old(kernel.failedAdds)
      ensures Logged(old(kernel.failedRemovals), stuck, kernel.failedRemovals)
      ensures failed.None? ==> Grew(old(owned), owned, roots, {}, path, dirs)
      ensures failed.Some? ==>
        && failed.value in owned && failed.value in rest && owned[failed.value] == old(owned)[failed.value] + stuck
        && Grew(old(owned), owned[failed.value := old(owned)[failed.value]], roots, rest, path, dirs)
      ensures old(kernel.Removes()) ==> stuck == {}
      ensures old(kernel.Accepts()) ==> failed.None?
    {
      stuck := {};
      var left := roots.Keys;
      while left != {}
        invariant left <= roots.Keys && Valid() && owned.Keys == old(owned).Keys
        invariant kernel.failedAdds == old(kernel.failedAdds) && kernel.failedRemovals == old(kernel.failedRemovals)
        invariant stuck == {} && Grew(old(owned), owned, roots, left, path, dirs)
        invariant old(kernel.Removes()) ==> kernel.Removes()
        invariant old(kernel.Accepts()) ==> kernel.Accepts()
        decreases left
      {
        var r := Pick(left);
        ghost var before := owned;
        var ok;
        ok, stuck := GrowRoot(r, roots[r], path, dirs);
        if !ok {
          GrowthStopped(old(owned), before, owned, roots, left, path, dirs, r, stuck);
          return Some(r), stuck, left;
        }
        GrewOne(old(owned), before, owned, roots, left, path, dirs, r);
        left := left - {r};
      }
      failed, rest := None, {};
    }

    /** A directory tree appeared: every root watching everything below itself and covering it takes all its
        directories, up to the first that cannot. That one is left as it was, but for what is stuck. */
    method AddDirectoryTree(path: CleanPath, dirs: seq<string>)
        returns (failed: Option<string>, stuck: set<string>, ghost rest: set<string>)
      requires Valid() && Located(path, Elements(dirs))
      modifies this`markRefs, this`owned, kernel, roots.Values`dirs
      ensures Valid() && owned.Keys == old(owned).Keys
      ensures failed.None? <==> kernel.failedAdds == old(kernel.failedAdds)
      ensures Logged(old(kernel.failedRemovals), stuck, kernel.failedRemovals)
      ensures failed.Some? ==>
        && failed.value in owned && failed.value in rest && owned[failed.value] == old(owned)[failed.value] + stuck
        && Grew(old(owned), owned[failed.value := old(owned)[failed.value]], roots, rest, path, dirs)
      ensures failed.None? ==> forall r :: r in owned ==>
        owned[r] == old(owned)[r] + if roots[r].depth.WatchNested? && Covers(r, path) then Elements(dirs) else {}
      ensures old(kernel.Removes()) ==> stuck == {}
      ensures old(kernel.Accepts()) ==> failed.None?
    {
      failed, stuck, rest := GrowEach(path, dirs);
      if failed.None? {
        GrewAll(old(owned), owned, roots, path, dirs);
      }
    }

    /** A directory tree went away: every root gives up what it owns at or under it, whatever fails; only
        directories whose mark cannot be removed remain. */
    method RemoveDirectoryTree(path: CleanPath) returns (ok: bool)
      requires Valid()
      modifies this`markRefs, this`owned, kernel, roots.Values`dirs
      ensures Valid()
      ensures Excused(owned, path, {}, old(kernel.failedRemovals), kernel.failedRemovals)
      ensures Trimmed(old(owned), owned, path)
      ensures ok <==> forall r, d :: r in owned && d in owned[r] ==> !Covers(path, d)
      ensures owned.Keys == old(owned).Keys && forall r :: r in owned ==> owned[r] <= old(owned)[r]
      ensures forall r, d :: r in owned && d in old(owned)[r] && !Covers(path, d) ==> d in owned[r]
      ensures old(kernel.Removes()) ==> ok
    {
      ok := true;
      var rest := roots.Keys;
      while rest != {}
        invariant rest <= roots.Keys && Valid() && Trimmed(old(owned), owned, path)
        invariant Excused(owned, path, rest, old(kernel.failedRemovals), kernel.failedRemovals)
        invariant ok <==> Cleared(owned, path, rest)
        invariant old(kernel.Removes()) ==> kernel.Removes() && ok
        decreases rest
      {
        var r := Pick(rest);
        ghost var before := owned;
        ghost var failed := kernel.failedRemovals;
        var stuck := Give(r, roots[r], Below(path, roots[r].dirs));
        ExcusedOne(before, owned, rest, path, r, stuck, old(kernel.failedRemovals), failed, kernel.failedRemovals);
        TrimmedOne(old(owned), before, owned, rest, path, r, stuck);
        rest := rest - {r};
        ok := ok && stuck == {};
      }
      TrimmedExactly(old(owned), owned, path);
    }

    /** After lost events: a root still registered gives up what a new scan no longer finds, then takes what it
        finds, in one critical section. */
    method ReconcileRoot(path: CleanPath, dirs: seq<string>) returns (ok: bool, kept: set<string>, stuck: set<string>)
      requires Valid() && Located(path, Elements(dirs))
      modifies this`markRefs, this`owned, kernel, roots.Values`dirs
      ensures Valid()
      ensures path !in roots ==> owned == old(owned) && markRefs == old(markRefs)
      ensures path in roots ==>
        && kept <= old(owned)[path] - Elements(dirs) && stuck <= Elements(dirs)
        && owned == old(owned)[path := AfterScan(old(owned)[path], Elements(dirs), kept, ok, stuck)]
        && (ok <==> kernel.failedAdds == old(kernel.failedAdds))
        && Logged(old(kernel.failedRemovals), kept + stuck, kernel.failedRemovals)
      ensures path in roots ==> owned.Keys == old(owned).Keys && forall d :: d in owned[path] <==>
        (d in old(owned)[path] && d in dirs) || d in kept || if ok then d in dirs else d in stuck
      ensures old(kernel.Removes()) ==> kept == stuck == {}
      ensures old(kernel.Accepts()) ==> ok && (path in roots ==> forall d :: d in owned[path] <==> d in dirs)
    {
      ok, kept, stuck := true, {}, {};
      if path in roots {
        kept := Give(path, roots[path], roots[path].dirs - Elements(dirs));
        ghost var between := owned;
        ok, stuck := Take(path, roots[path], dirs);
        Reconciled(old(owned), between, owned, path, Elements(dirs), kept, ok, stuck);
      }
    }

    method Unregister(path: string)
      requires Valid() && path in roots && owned[path] == {}
      modifies this`roots, this`paths, this`owned
      ensures Valid() && roots == old(roots) - {path} && owned == old(owned) - {path}
    {
      BalancedDropRoot(markRefs, owned, leaked, path);
      roots := roots - {path};
      paths := paths - {path};
      owned := owned - {path};
    }

    /** Stops watching a root. If a mark cannot be removed, the root stays registered with what is left. */
    method RemoveWatch(path: CleanPath) returns (ok: bool)
      requires Valid()
      modifies this`roots, this`markRefs, this`paths, this`owned, kernel, roots.Values`dirs
      ensures Valid()
      ensures ok ==> Logged(old(kernel.failedRemovals), {}, kernel.failedRemovals)
      ensures !ok ==> path in owned && Logged(old(kernel.failedRemovals), owned[path], kernel.failedRemovals)
      ensures ok ==> roots == old(roots) - {path} && owned == old(owned) - {path}
      ensures !ok ==> path in roots && roots == old(roots)
      ensures !ok ==> owned[path] <= old(owned)[path] && owned[path] != {} && owned == old(owned)[path := owned[path]]
      ensures old(kernel.Removes()) ==> ok && path !in roots
    {
      if path !in roots {
        NothingLess(roots, path);
        NothingLess(owned, path);
        return true;
      }
      AllBelow(owned, path);
      var stuck := Give(path, roots[path], Below(path, roots[path].dirs));
      if stuck != {} {
        return false;
      }
      GaveAll(old(owned), owned, path);
      Unregister(path);
      ok := true;
    }

    /** Shutdown: one attempt to remove every mark, then nothing is recorded any more. */
    method CloseMarks()
      requires Valid()
      modifies this, kernel
      ensures Registered() && roots == map[] && markRefs == map[] && leaked == multiset{}
      ensures kernel.marks <= old(kernel.marks)
      ensures Logged(old(kernel.failedRemovals), kernel.marks, kernel.failedRemovals)
      ensures old(kernel.Removes()) ==> kernel.marks == {}
    {
      var rest := markRefs.Keys;
      ghost var left: set<string> := {};
      LoggedByNone(kernel.failedRemovals, left);
      while rest != {}
        invariant rest <= markRefs.Keys == old(kernel.marks) && markRefs == old(markRefs)
        invariant left !! rest && left <= markRefs.Keys && kernel.marks == left + rest
        invariant Logged(old(kernel.failedRemovals), left, kernel.failedRemovals)
        invariant old(kernel.Removes()) ==> kernel.Removes() && left == {}
        decreases rest
      {
        var dir := Pick(rest);
        rest := rest - {dir};
        ghost var failed := kernel.failedRemovals;
        var ok := kernel.RemoveMark(dir);
        if !ok {
          LoggedTwice(old(kernel.failedRemovals), failed, kernel.failedRemovals, left, {dir});
          left := left + {dir};
        }
      }
      paths, roots, markRefs, owned, leaked := {}, map[], map[], map[], multiset{};
    }
  }
}
