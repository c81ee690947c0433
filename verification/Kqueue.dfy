/**
 The descriptor tables of the kqueue backend: one open descriptor per watched path, found from either side. The
 kernel answers from an arbitrary script; which descriptors it has open is its own state.
 */
module Kqueue {
  import opened Paths
  import opened RootIndex
  import opened Sets
  import opened Watcher
  import opened Wrappers

  class Kernel {
    /** What the n-th open yields, unless that descriptor is in use; whether the n-th registration succeeds. */
    const opens: nat -> Option<int>
    const registers: nat -> bool
    var calls: nat
    var open: set<int>
    /** The paths that some attempt to open failed for, and how many registrations failed. */
    ghost var refused: set<string>
    ghost var failedRegistrations: nat

    constructor (opens: nat -> Option<int>, registers: nat -> bool)
      ensures open == {} && calls == 0 && this.opens == opens && this.registers == registers
    {
      this.opens, this.registers, calls, open := opens, registers, 0, {};
      refused, failedRegistrations := {}, 0;
    }

    /** From now on the kernel refuses nothing. */
    ghost predicate Generous()
      reads this
    {
      && (forall n: nat :: n >= calls ==> opens(n) == Some(n) && registers(n))
      && forall fd :: fd in open ==> fd < calls
    }

    /** The n-th answer is a descriptor that is not in use. */
    predicate Fits(n: nat, used: set<int>) {
      opens(n).Some? && opens(n).value !in used
    }

    /** A descriptor that was not open before, or none. */
    method Open(path: string) returns (fd: Option<int>)
      modifies this
      ensures fd.None? ==> open == old(open)
      ensures fd.Some? ==> fd.value !in old(open) && open == old(open) + {fd.value}
      ensures refused == (if fd.None? then old(refused) + {path} else old(refused))
      ensures failedRegistrations == old(failedRegistrations)
      ensures calls == old(calls) + 1
      ensures fd == if Fits(old(calls), old(open)) then opens(old(calls)) else None
      ensures old(Generous()) ==> Generous() && fd.Some?
    {
      fd := opens(calls);
      calls := calls + 1;
      if fd.Some? && fd.value in open {
        fd := None;
      }
      if fd.Some? {
        open := open + {fd.value};
      } else {
        refused := refused + {path};
      }
    }

    /** Only open descriptors may be closed. */
    method Close(fd: int)
      requires fd in open
      modifies this`open
      ensures open == old(open) - {fd} && (old(Generous()) ==> Generous())
    {
      open := open - {fd};
    }

    method Register(fds: set<int>) returns (ok: bool)
      requires fds <= open
      modifies this`calls, this`failedRegistrations
      ensures failedRegistrations == old(failedRegistrations) + (if ok then 0 else 1)
      ensures calls == old(calls) + 1 && ok == registers(old(calls))
      ensures old(Generous()) ==> Generous() && ok
    {
      ok := registers(calls);
      calls := calls + 1;
      failedRegistrations := failedRegistrations + (if ok then 0 else 1);
    }
  }

  datatype Entry = Entry(path: string, isDir: bool)

  datatype Opened = Opened(fd: int, entry: Entry)

  // ---- The two tables ----

  /** Each path's descriptor is known by that path. */
  ghost predicate Known(wds: map<int, string>, paths: map<string, int>) {
    forall p :: p in paths ==> paths[p] in wds && wds[paths[p]] == p
  }

  /** Each descriptor is the one of its path. */
  ghost predicate Current(wds: map<int, string>, paths: map<string, int>) {
    forall fd :: fd in wds ==> wds[fd] in paths && paths[wds[fd]] == fd
  }

  function WdsAfter(wds: map<int, string>, added: seq<Opened>): map<int, string> {
    if added == [] then wds
    else WdsAfter(wds, added[..|added| - 1])[added[|added| - 1].fd := added[|added| - 1].entry.path]
  }

  function PathsAfter(paths: map<string, int>, added: seq<Opened>): map<string, int> {
    if added == [] then paths
    else PathsAfter(paths, added[..|added| - 1])[added[|added| - 1].entry.path := added[|added| - 1].fd]
  }

  function DirsAfter(dirs: set<string>, added: seq<Opened>): set<string> {
    dirs + set a | a in added && a.entry.isDir :: a.entry.path
  }

  /** Exactly the directories among what was opened are recorded as such. */
  lemma DirsExactly(dirs: set<string>, added: seq<Opened>, path: string)
    ensures path in DirsAfter(dirs, added) <==>
      path in dirs || exists i :: 0 <= i < |added| && added[i].entry.path == path && added[i].entry.isDir
  {
    if path in DirsAfter(dirs, added) && path !in dirs {
      var a :| a in added && a.entry.isDir && a.entry.path == path;
      var i :| 0 <= i < |added| && added[i] == a;
    }
    if i :| 0 <= i < |added| && added[i].entry.path == path && added[i].entry.isDir {
      assert added[i] in added;
    }
  }

  ghost predicate DistinctPaths(added: seq<Opened>) {
    forall i, j :: 0 <= i < j < |added| ==> added[i].entry.path != added[j].entry.path
  }

  /** Descriptors just opened: distinct and not in the table. */
  ghost predicate FreshFds(wds: map<int, string>, added: seq<Opened>) {
    && (forall i :: 0 <= i < |added| ==> added[i].fd !in wds)
    && forall i, j :: 0 <= i < j < |added| ==> added[i].fd != added[j].fd
  }

  function Fds(added: seq<Opened>): set<int> {
    set a | a in added :: a.fd
  }

  ghost function NewPaths(added: seq<Opened>): set<string> {
    set a | a in added :: a.entry.path
  }

  lemma LastAdded(wds: map<int, string>, added: seq<Opened>)
    requires FreshFds(wds, added) && added != []
    ensures var init, last := added[..|added| - 1], added[|added| - 1];
      && FreshFds(wds, init) && last.fd !in wds.Keys + Fds(init)
      && Fds(added) == Fds(init) + {last.fd} && NewPaths(added) == NewPaths(init) + {last.entry.path}
  {
  }

  lemma KnownStep(wds: map<int, string>, paths: map<string, int>, fd: int, path: string)
    requires Known(wds, paths) && fd !in wds
    ensures Known(wds[fd := path], paths[path := fd])
    ensures Current(wds, paths) && path !in paths ==> Current(wds[fd := path], paths[path := fd])
  {
  }

  lemma KeysUpdate<K, V>(m: map<K, V>, k: K, v: V)
    ensures m[k := v].Keys == m.Keys + {k}
  {
  }

  lemma {:induction false} KeysAfter(wds: map<int, string>, paths: map<string, int>, added: seq<Opened>)
    requires FreshFds(wds, added)
    ensures WdsAfter(wds, added).Keys == wds.Keys + Fds(added)
    ensures PathsAfter(paths, added).Keys == paths.Keys + NewPaths(added)
  {
    if added != [] {
      var init, last := added[..|added| - 1], added[|added| - 1];
      LastAdded(wds, added);
      KeysAfter(wds, paths, init);
      KeysUpdate(WdsAfter(wds, init), last.fd, last.entry.path);
      KeysUpdate(PathsAfter(paths, init), last.entry.path, last.fd);
    }
  }

  lemma {:induction false} TablesAfter(wds: map<int, string>, paths: map<string, int>, added: seq<Opened>)
    requires Known(wds, paths) && FreshFds(wds, added)
    ensures Known(WdsAfter(wds, added), PathsAfter(paths, added))
    ensures WdsAfter(wds, added).Keys == wds.Keys + Fds(added)
    ensures PathsAfter(paths, added).Keys == paths.Keys + NewPaths(added)
  {
    KeysAfter(wds, paths, added);
    if added != [] {
      var init, last := added[..|added| - 1], added[|added| - 1];
      LastAdded(wds, added);
      TablesAfter(wds, paths, init);
      KnownStep(WdsAfter(wds, init), PathsAfter(paths, init), last.fd, last.entry.path);
    }
  }

  lemma {:induction false} RecordedAs(wds: map<int, string>, added: seq<Opened>, i: nat)
    requires FreshFds(wds, added) && i < |added|
    ensures added[i].fd in WdsAfter(wds, added) && WdsAfter(wds, added)[added[i].fd] == added[i].entry.path
  {
    if i < |added| - 1 {
      LastAdded(wds, added);
      RecordedAs(wds, added[..|added| - 1], i);
    }
  }

  /** Recording opened paths leaves every other descriptor and every other path alone. */
  lemma {:induction false} OthersKept(wds: map<int, string>, paths: map<string, int>, added: seq<Opened>, fd: int,
                                      path: string)
    requires FreshFds(wds, added)
    ensures fd in wds ==> fd in WdsAfter(wds, added) && WdsAfter(wds, added)[fd] == wds[fd]
    ensures path in paths && path !in NewPaths(added) ==>
      path in PathsAfter(paths, added) && PathsAfter(paths, added)[path] == paths[path]
  {
    if added != [] {
      LastAdded(wds, added);
      OthersKept(wds, paths, added[..|added| - 1], fd, path);
    }
  }

  /** A path ends with the descriptor that was opened for it last. */
  lemma {:induction false} LastOpenedWins(paths: map<string, int>, added: seq<Opened>, i: nat)
    requires i < |added| && forall j :: i < j < |added| ==> added[j].entry.path != added[i].entry.path
    ensures added[i].entry.path in PathsAfter(paths, added)
    ensures PathsAfter(paths, added)[added[i].entry.path] == added[i].fd
  {
    if i < |added| - 1 {
      LastOpenedWins(paths, added[..|added| - 1], i);
    }
  }

  lemma LastIsNew(added: seq<Opened>)
    requires DistinctPaths(added) && added != []
    ensures added[|added| - 1].entry.path !in NewPaths(added[..|added| - 1])
  {
  }

  lemma {:induction false} DistinctStaysCurrent(wds: map<int, string>, paths: map<string, int>, added: seq<Opened>)
    requires Known(wds, paths) && Current(wds, paths) && FreshFds(wds, added) && NewPaths(added) !! paths.Keys
    requires DistinctPaths(added)
    ensures Current(WdsAfter(wds, added), PathsAfter(paths, added))
  {
    if added != [] {
      var init, last := added[..|added| - 1], added[|added| - 1];
      LastAdded(wds, added);
      DistinctStaysCurrent(wds, paths, init);
      TablesAfter(wds, paths, init);
      LastIsNew(added);
      KnownStep(WdsAfter(wds, init), PathsAfter(paths, init), last.fd, last.entry.path);
    }
  }

  /** Adding new paths keeps the tables inverse to each other exactly if no path is added twice. */
  lemma InverseIff(wds: map<int, string>, paths: map<string, int>, added: seq<Opened>)
    requires Known(wds, paths) && Current(wds, paths) && FreshFds(wds, added) && NewPaths(added) !! paths.Keys
    ensures Current(WdsAfter(wds, added), PathsAfter(paths, added)) <==> DistinctPaths(added)
  {
    if DistinctPaths(added) {
      DistinctStaysCurrent(wds, paths, added);
    } else {
      var i, j :| 0 <= i < j < |added| && added[i].entry.path == added[j].entry.path;
      RecordedAs(wds, added, i);
      RecordedAs(wds, added, j);
    }
  }

  // ---- What a batch asks for and what of it is opened ----

  /** The entries neither recorded nor ignored, in order. */
  function Usable(entries: seq<Entry>, paths: map<string, int>, ignored: string -> bool): seq<Entry> {
    if entries == [] then []
    else
      var init, last := entries[..|entries| - 1], entries[|entries| - 1];
      Usable(init, paths, ignored) + if last.path in paths || ignored(last.path) then [] else [last]
  }

  lemma UsableUpTo(entries: seq<Entry>, i: nat, paths: map<string, int>, ignored: string -> bool)
    requires i < |entries|
    ensures Usable(entries[..i + 1], paths, ignored) ==
            Usable(entries[..i], paths, ignored)
            + if entries[i].path in paths || ignored(entries[i].path) then [] else [entries[i]]
  {
    assert entries[..i + 1][..i] == entries[..i];
  }

  lemma {:induction false} UsableIff(entries: seq<Entry>, paths: map<string, int>, ignored: string -> bool, e: Entry)
    ensures e in Usable(entries, paths, ignored) <==> e in entries && e.path !in paths && !ignored(e.path)
  {
    if entries != [] {
      var init, last := entries[..|entries| - 1], entries[|entries| - 1];
      UsableIff(init, paths, ignored, e);
      assert entries == init + [last];
    }
  }

  /** `usable` are the entries at ascending positions, which are exactly those with paths neither recorded nor
      ignored. */
  ghost predicate UsedAt(entries: seq<Entry>, paths: map<string, int>, ignored: string -> bool, usable: seq<Entry>,
                         at: seq<nat>) {
    && |at| == |usable|
    && (forall i :: 0 <= i < |at| ==> at[i] < |entries| && usable[i] == entries[at[i]])
    && (forall i, j :: 0 <= i < j < |at| ==> at[i] < at[j])
    && (forall k :: 0 <= k < |entries| ==> (k in at <==> entries[k].path !in paths && !ignored(entries[k].path)))
  }

  lemma UsedNext(entries: seq<Entry>, paths: map<string, int>, ignored: string -> bool, usable: seq<Entry>,
                 at: seq<nat>, e: Entry)
    requires UsedAt(entries, paths, ignored, usable, at)
    ensures if e.path in paths || ignored(e.path) then UsedAt(entries + [e], paths, ignored, usable, at)
      else UsedAt(entries + [e], paths, ignored, usable + [e], at + [|entries|])
  {
    var more := entries + [e];
    assert forall k :: 0 <= k < |entries| ==> more[k] == entries[k];
    assert forall k :: k in at + [|entries|] <==> k in at || k == |entries|;
    assert |entries| !in at;
  }

  lemma {:induction false} UsableAt(entries: seq<Entry>, paths: map<string, int>, ignored: string -> bool)
      returns (at: seq<nat>)
    ensures UsedAt(entries, paths, ignored, Usable(entries, paths, ignored), at)
  {
    at := [];
    if entries != [] {
      var init, last := entries[..|entries| - 1], entries[|entries| - 1];
      var usable := Usable(init, paths, ignored);
      var before := UsableAt(init, paths, ignored);
      UsedNext(init, paths, ignored, usable, before, last);
      assert entries == init + [last];
      if last.path in paths || ignored(last.path) {
        assert usable + [] == usable;
        at := before;
      } else {
        at := before + [|init|];
      }
    }
  }

  ghost predicate DistinctEntries(entries: seq<Entry>) {
    forall i, j :: 0 <= i < j < |entries| ==> entries[i].path != entries[j].path
  }

  function EntriesOf(added: seq<Opened>): seq<Entry> {
    seq(|added|, i requires 0 <= i < |added| => added[i].entry)
  }

  ghost predicate NoneMissed(usable: seq<Entry>, missed: set<string>) {
    forall e :: e in usable ==> e.path !in missed
  }

  /** What was opened of the usable entries: all but missed ones, each once, and all of them if none was missed. */
  ghost predicate Served(usable: seq<Entry>, missed: set<string>, added: seq<Opened>) {
    && (forall a :: a in added ==> a.entry in usable)
    && (forall e :: e in usable ==> e.path in missed || e in EntriesOf(added))
    && (NoneMissed(usable, missed) ==> EntriesOf(added) == usable)
    && (DistinctEntries(usable) ==> DistinctPaths(added))
  }

  lemma ServedOpened(usable: seq<Entry>, missed: set<string>, added: seq<Opened>, o: Opened)
    requires Served(usable, missed, added)
    ensures Served(usable + [o.entry], missed, added + [o])
  {
    var more := usable + [o.entry];
    assert EntriesOf(added + [o]) == EntriesOf(added) + [o.entry];
    assert forall e :: e in more <==> e in usable || e == o.entry;
    if DistinctEntries(more) {
      assert forall i :: 0 <= i < |usable| ==> more[i] == usable[i];
      assert DistinctEntries(usable);
      forall k | 0 <= k < |added| ensures added[k].entry.path != o.entry.path {
        assert added[k] in added;
        var i :| 0 <= i < |usable| && usable[i] == added[k].entry;
        assert more[i].path != more[|usable|].path;
      }
    }
  }

  lemma ServedMissed(usable: seq<Entry>, missed: set<string>, added: seq<Opened>, e: Entry)
    requires Served(usable, missed, added)
    ensures Served(usable + [e], missed + {e.path}, added)
  {
    var more := usable + [e];
    assert forall f :: f in more <==> f in usable || f == e;
    assert forall i :: 0 <= i < |usable| ==> more[i] == usable[i];
    assert e in more;
  }

  lemma FdsAppended(wds: map<int, string>, added: seq<Opened>, o: Opened)
    requires FreshFds(wds, added) && o.fd !in wds && o.fd !in Fds(added)
    ensures FreshFds(wds, added + [o]) && Fds(added + [o]) == Fds(added) + {o.fd}
  {
  }

  /** If nothing was missed, no path was opened twice exactly if no usable path occurs twice. */
  lemma ServedDistinctIff(usable: seq<Entry>, missed: set<string>, added: seq<Opened>)
    requires Served(usable, missed, added) && NoneMissed(usable, missed)
    ensures DistinctPaths(added) <==> DistinctEntries(usable)
  {
    assert |added| == |EntriesOf(added)| == |usable|;
    assert forall i :: 0 <= i < |added| ==> EntriesOf(added)[i] == added[i].entry;
  }

  lemma NewPathsUnknown(entries: seq<Entry>, paths: map<string, int>, ignored: string -> bool, missed: set<string>,
                        added: seq<Opened>)
    requires Served(Usable(entries, paths, ignored), missed, added)
    ensures NewPaths(added) !! paths.Keys
  {
    forall a | a in added ensures a.entry.path !in paths {
      UsableIff(entries, paths, ignored, a.entry);
    }
  }

  // ---- The backend ----

  class Backend {
    const kernel: Kernel
    /** Whether opening is tried a second time with plain read access. */
    const retries: bool
    var wds: map<int, string>
    var paths: map<string, int>
    var dirs: set<string>

    constructor (kernel: Kernel, retries: bool)
      requires kernel.open == {}
      ensures Valid() && paths == map[] && wds == map[] && this.kernel == kernel
    {
      this.kernel, this.retries, wds, paths, dirs := kernel, retries, map[], map[], {};
    }

    /** No descriptor is lost: those open are the ones in the table, and every path has one of them. */
    ghost predicate Tracked()
      reads this, kernel
    {
      kernel.open == wds.Keys && Known(wds, paths) && dirs <= paths.Keys
    }

    ghost predicate Valid()
      reads this, kernel
    {
      Tracked() && Current(wds, paths)
    }

    method OpenPath(path: string) returns (fd: Option<int>)
      modifies kernel
      ensures fd.None? ==> kernel.open == old(kernel.open)
      ensures fd.Some? ==> fd.value !in old(kernel.open) && kernel.open == old(kernel.open) + {fd.value}
      ensures old(kernel.refused) <= kernel.refused && (fd.None? ==> path in kernel.refused)
      ensures kernel.failedRegistrations == old(kernel.failedRegistrations)
      ensures old(kernel.Generous()) ==> kernel.Generous() && fd.Some?
      ensures var n, used := old(kernel.calls), old(kernel.open);
        if kernel.Fits(n, used) then fd == kernel.opens(n) && kernel.calls == n + 1
        else if retries then
          kernel.calls == n + 2 && fd == if kernel.Fits(n + 1, used) then kernel.opens(n + 1) else None
        else fd == None && kernel.calls == n + 1
    {
      fd := kernel.Open(path);
      if fd.None? && retries {
        fd := kernel.Open(path);
      }
    }

    /** Watches a path unless it is watched or ignored; without success nothing stays open. */
    method AddSingleWatchLocked(path: string, ignored: string -> bool, isDir: bool) returns (ok: bool)
      requires Tracked()
      modifies this`wds, this`paths, this`dirs, kernel
      ensures Tracked() && (old(Valid()) ==> Valid())
      ensures path in old(paths) || ignored(path) ==> ok && wds == old(wds) && paths == old(paths) && dirs == old(dirs)
      ensures !ok ==> wds == old(wds) && paths == old(paths) && dirs == old(dirs)
      ensures !ok ==> path in kernel.refused || kernel.failedRegistrations > old(kernel.failedRegistrations)
      ensures ok && path !in old(paths) && !ignored(path) ==>
        && path in paths && paths[path] !in old(wds)
        && paths == old(paths)[path := paths[path]] && wds == old(wds)[paths[path] := path]
        && dirs == old(dirs) + if isDir then {path} else {}
    {
      if path in paths || ignored(path) {
        return true;
      }
      var fd := OpenPath(path);
      if fd.None? {
        return false;
      }
      ok := kernel.Register({fd.value});
      if !ok {
        kernel.Close(fd.value);
        assert kernel.open == wds.Keys;
        return;
      }
      wds := wds[fd.value := path];
      paths := paths[path := fd.value];
      if isDir {
        dirs := dirs + {path};
      }
    }

    /** Opens one descriptor per usable entry; entries that cannot be opened are skipped. */
    method OpenEntries(entries: seq<Entry>, ignored: string -> bool)
        returns (added: seq<Opened>, ghost missed: set<string>)
      requires kernel.open == wds.Keys
      modifies kernel
      ensures kernel.open == wds.Keys + Fds(added) && FreshFds(wds, added)
      ensures Served(Usable(entries, paths, ignored), missed, added) && missed <= kernel.refused
      ensures kernel.failedRegistrations == old(kernel.failedRegistrations)
      ensures old(kernel.Generous()) ==> kernel.Generous() && missed == {}
    {
      added, missed := [], {};
      for i := 0 to |entries|
        invariant kernel.open == wds.Keys + Fds(added) && FreshFds(wds, added)
        invariant Served(Usable(entries[..i], paths, ignored), missed, added) && missed <= kernel.refused
        invariant kernel.failedRegistrations == old(kernel.failedRegistrations)
        invariant old(kernel.Generous()) ==> kernel.Generous() && missed == {}
      {
        var e := entries[i];
        UsableUpTo(entries, i, paths, ignored);
        if e.path in paths || ignored(e.path) {
          assert Usable(entries[..i + 1], paths, ignored) == Usable(entries[..i], paths, ignored);
          continue;
        }
        var fd := OpenPath(e.path);
        if fd.None? {
          ServedMissed(Usable(entries[..i], paths, ignored), missed, added, e);
          missed := missed + {e.path};
          continue;
        }
        FdsAppended(wds, added, Opened(fd.value, e));
        ServedOpened(Usable(entries[..i], paths, ignored), missed, added, Opened(fd.value, e));
        added := added + [Opened(fd.value, e)];
      }
      assert entries[..|entries|] == entries;
    }

    method CloseAll(added: seq<Opened>)
      requires FreshFds(wds, added) && kernel.open == wds.Keys + Fds(added)
      modifies kernel`open
      ensures kernel.open == wds.Keys && (old(kernel.Generous()) ==> kernel.Generous())
    {
      for i := 0 to |added|
        invariant kernel.open == wds.Keys + Fds(added[i..]) && (old(kernel.Generous()) ==> kernel.Generous())
      {
        assert added[i..] == [added[i]] + added[i + 1..];
        assert Fds(added[i..]) == {added[i].fd} + Fds(added[i + 1..]);
        assert added[i].fd !in Fds(added[i + 1..]);
        kernel.Close(added[i].fd);
      }
      assert Fds(added[|added|..]) == {};
    }

    method RecordAll(added: seq<Opened>)
      modifies this`wds, this`paths, this`dirs
      ensures wds == WdsAfter(old(wds), added) && paths == PathsAfter(old(paths), added)
      ensures dirs == DirsAfter(old(dirs), added)
    {
      for i := 0 to |added|
        invariant wds == WdsAfter(old(wds), added[..i]) && paths == PathsAfter(old(paths), added[..i])
        invariant dirs == DirsAfter(old(dirs), added[..i])
      {
        var a := added[i];
        assert added[..i + 1] == added[..i] + [a] && added[..i + 1][..i] == added[..i];
        wds := wds[a.fd := a.entry.path];
        paths := paths[a.entry.path := a.fd];
        if a.entry.isDir {
          dirs := dirs + {a.entry.path};
        }
      }
      assert added[..|added|] == added;
    }

    /** The batch itself; whether the tables stay inverse is a matter of the paths opened. */
    method Attempt(entries: seq<Entry>, ignored: string -> bool)
        returns (ok: bool, added: seq<Opened>, ghost missed: set<string>)
      requires Tracked()
      modifies this`wds, this`paths, this`dirs, kernel
      ensures Tracked()
      ensures Served(Usable(entries, old(paths), ignored), missed, added) && missed <= kernel.refused
      ensures ok <==> kernel.failedRegistrations == old(kernel.failedRegistrations)
      ensures old(kernel.Generous()) ==> kernel.Generous() && ok && missed == {}
      ensures !ok ==> wds == old(wds) && paths == old(paths) && dirs == old(dirs)
      ensures ok ==> wds == WdsAfter(old(wds), added) && paths == PathsAfter(old(paths), added)
                     && dirs == DirsAfter(old(dirs), added) && FreshFds(old(wds), added)
      ensures old(Valid()) ==> (Valid() <==> !ok || DistinctPaths(added))
    {
      added, missed := OpenEntries(entries, ignored);
      if added == [] {
        assert kernel.open == wds.Keys;
        return true, [], missed;
      }
      ok := kernel.Register(Fds(added));
      if !ok {
        CloseAll(added);
        return;
      }
      TablesAfter(wds, paths, added);
      NewPathsUnknown(entries, paths, ignored, missed, added);
      if Current(wds, paths) {
        InverseIff(wds, paths, added);
      }
      RecordAll(added);
    }

    /** Opens what is neither watched nor ignored; a failed registration closes all of it again. The tables stay
        inverse if no usable path occurs twice, and exactly then if everything goes well. */
    method BatchAddWatchesLocked(entries: seq<Entry>, ignored: string -> bool)
        returns (ok: bool, added: seq<Opened>, ghost missed: set<string>)
      requires Tracked()
      modifies this`wds, this`paths, this`dirs, kernel
      ensures Tracked()
      ensures Served(Usable(entries, old(paths), ignored), missed, added) && missed <= kernel.refused
      ensures ok <==> kernel.failedRegistrations == old(kernel.failedRegistrations)
      ensures old(kernel.Generous()) ==> kernel.Generous() && ok && missed == {}
      ensures !ok ==> wds == old(wds) && paths == old(paths) && dirs == old(dirs)
      ensures ok ==> wds == WdsAfter(old(wds), added) && paths == PathsAfter(old(paths), added)
                     && dirs == DirsAfter(old(dirs), added) && FreshFds(old(wds), added)
      ensures old(Valid()) ==> (Valid() <==> !ok || DistinctPaths(added))
      ensures old(Valid()) && DistinctEntries(Usable(entries, old(paths), ignored)) ==> Valid()
      ensures old(Valid()) && ok && NoneMissed(Usable(entries, old(paths), ignored), missed) ==>
        (Valid() <==> DistinctEntries(Usable(entries, old(paths), ignored)))
    {
      ok, added, missed := Attempt(entries, ignored);
      if NoneMissed(Usable(entries, old(paths), ignored), missed) {
        ServedDistinctIff(Usable(entries, old(paths), ignored), missed, added);
      }
    }

    /** Closes and forgets one path. */
    method Drop(path: string)
      requires Tracked() && path in paths
      modifies this`wds, this`paths, this`dirs, kernel
      ensures Tracked() && (old(Valid()) ==> Valid()) && paths == old(paths) - {path}
      ensures wds == old(wds) - {old(paths)[path]} && dirs == old(dirs) - {path}
    {
      var fd := paths[path];
      wds := wds - {fd};
      paths := paths - {path};
      dirs := dirs - {path};
      kernel.Close(fd);
    }

    /** Forgets exactly what lies at or under a path. */
    method RemoveKqueuePathLocked(path: string)
      requires Tracked()
      modifies this`wds, this`paths, this`dirs, kernel
      ensures Tracked() && (old(Valid()) ==> Valid())
      ensures forall p :: p in paths <==> p in old(paths) && !Covers(Clean(path), p)
      ensures forall p :: p in paths ==> paths[p] == old(paths)[p]
      ensures forall p :: p in dirs <==> p in old(dirs) && !Covers(Clean(path), p)
    {
      var cleaned := Clean(path);
      var rest := paths.Keys;
      while rest != {}
        invariant Tracked() && (old(Valid()) ==> Valid()) && rest <= paths.Keys
        invariant forall p :: p in paths <==> p in old(paths) && (p in rest || !Covers(Clean(path), p))
        invariant forall p :: p in paths ==> paths[p] == old(paths)[p]
        invariant forall p :: p in dirs <==> p in old(dirs) && p in paths
        decreases rest
      {
        var watched := Pick(rest);
        rest := rest - {watched};
        if watched == cleaned || IsSubpath(cleaned, watched) {
          Drop(watched);
        }
      }
    }

    /** Stops watching a root: forgets exactly what lies at or under it and no other root needs. */
    method RemoveWatch(path: string, roots: Roots)
      requires Tracked() && Keyed(roots)
      modifies this`wds, this`paths, this`dirs, kernel
      ensures Tracked() && (old(Valid()) ==> Valid())
      ensures forall p :: p in paths <==>
        p in old(paths) && (Covers(Clean(path), p) ==> NativeNeeded(roots, p, Clean(path), true))
      ensures forall p :: p in paths ==> paths[p] == old(paths)[p]
      ensures forall p :: p in dirs <==> p in old(dirs) && p in paths
    {
      var cleaned := Clean(path);
      var rest := paths.Keys;
      while rest != {}
        invariant Tracked() && (old(Valid()) ==> Valid()) && rest <= paths.Keys
        invariant forall p :: p in paths <==>
          p in old(paths) && (p in rest || (Covers(Clean(path), p) ==> NativeNeeded(roots, p, Clean(path), true)))
        invariant forall p :: p in paths ==> paths[p] == old(paths)[p]
        invariant forall p :: p in dirs <==> p in old(dirs) && p in paths
        decreases rest
      {
        var watched := Pick(rest);
        rest := rest - {watched};
        if watched == cleaned || IsSubpath(cleaned, watched) {
          var needed := NativeWatchNeeded(roots, watched, cleaned, true);
          if !needed {
            Drop(watched);
          }
        }
      }
    }

    /** Shutdown: closes every descriptor, each exactly once, even after a path was added twice. */
    method Cleanup()
      requires Tracked()
      modifies this`wds, this`paths, this`dirs, kernel
      ensures kernel.open == {} && Valid() && paths == map[]
    {
      var rest := wds.Keys;
      while rest != {}
        invariant rest <= wds.Keys && wds == old(wds) && kernel.open == rest
        decreases rest
      {
        var fd := Pick(rest);
        rest := rest - {fd};
        kernel.Close(fd);
      }
      wds, paths, dirs := map[], map[], {};
    }
  }

  lemma TwiceUsable(e: Entry, paths: map<string, int>, ignored: string -> bool)
    requires e.path !in paths && !ignored(e.path)
    ensures Usable([e, e], paths, ignored) == [e, e] && !DistinctEntries([e, e])
  {
    var one, two := [e], [e, e];
    assert one[..0] == [] && two[..1] == one;
    assert Usable(one, paths, ignored) == one;
    assert two[0].path == two[1].path;
  }

  /** A batch that fails: the same new entry twice, with a kernel that refuses nothing. */
  method RepeatedEntry(e: Entry) returns (b: Backend)
    ensures b.Tracked() && !b.Valid()
  {
    var kernel := new Kernel(n => Some(n), n => true);
    b := new Backend(kernel, false);
    var none := (p: string) => false;
    TwiceUsable(e, b.paths, none);
    ghost var usable := Usable([e, e], b.paths, none);
    var ok, added, missed := b.BatchAddWatchesLocked([e, e], none);
    assert ok && NoneMissed(usable, missed) && !DistinctEntries(usable);
  }
}
