/**
 Callers queueing scans, the scan worker and shutdown, interleaved. A caller checks for shutdown and registers a
 worker in one critical section, so passing through the lock once after raising the flag is a barrier.
 */
module ScanQueueRuns {
  import opened Paths
  import opened ScanQueue
  import opened Sets
  import opened Wrappers

  datatype Worker = NoWorker | Ready | Scanning(path: string)

  datatype Phase = Open | Barriered | Waited

  datatype Action =
    | Enter(path: string) | Commit | Take(path: string) | FinishScan | Exit | RaiseFlag | PassBarrier | Wait

  /**
   The queue, its worker and the workers that still have to sign off; the caller past the shutdown check, if one
   holds the lock; how far shutdown is. `owed` are the accepted paths for which no scan has started since, and
   `sawEmpty` whether the empty string was ever accepted.
   */
  datatype State = State(pending: set<string>, scanWorker: bool, worker: Worker, exiting: nat, registered: nat,
                         holder: Option<string>, shuttingDown: bool, phase: Phase, owed: set<string>, sawEmpty: bool)

  const INITIAL: State := State({}, false, NoWorker, 0, 0, None, false, Open, {}, false)

  /** What a scan of a path leaves owed. */
  function NotIn(owed: set<string>, path: string): set<string> {
    set q | q in owed && !Covers(path, q)
  }

  ghost function Committed(s: State, path: string): State {
    var start := !CoveredBy(s.pending, path) && !s.scanWorker;
    s.(pending := AfterQueue(s.pending, path), holder := None, owed := s.owed + {path},
       sawEmpty := s.sawEmpty || path == "",
       scanWorker := s.scanWorker || start,
       worker := if start then Ready else s.worker,
       registered := if start then s.registered + 1 else s.registered)
  }

  ghost function Taken(s: State, next: string): State {
    if next == "" then s.(pending := s.pending - {""}, scanWorker := false,
                        worker := NoWorker, exiting := s.exiting + 1)
    else s.(pending := s.pending - {next}, worker := Scanning(next), owed := NotIn(s.owed, next))
  }

  ghost predicate Enabled(s: State, a: Action) {
    match a
    case Enter(path) => s.holder.None?
    case Commit => s.holder.Some?
    case Take(next) => s.holder.None? && s.worker.Ready? && if s.pending == {} then next == "" else next in s.pending
    case FinishScan => s.worker.Scanning?
    case Exit => s.exiting > 0 && s.registered > 0
    case RaiseFlag => true
    case PassBarrier => s.holder.None? && s.shuttingDown && s.phase.Open?
    case Wait => s.phase.Barriered? && s.registered == 0
  }

  ghost function Apply(s: State, a: Action): State
    requires Enabled(s, a)
  {
    match a
    case Enter(path) => if s.shuttingDown then s else s.(holder := Some(path))
    case Commit => Committed(s, s.holder.value)
    case Take(next) => Taken(s, next)
    case FinishScan => s.(worker := Ready)
    case Exit => s.(exiting := s.exiting - 1, registered := s.registered - 1)
    case RaiseFlag => s.(shuttingDown := true)
    case PassBarrier => s.(phase := Barriered)
    case Wait => s.(phase := Waited)
  }

  /** The state after a list of actions; those not enabled do nothing. */
  ghost function Run(actions: seq<Action>): State {
    if actions == [] then INITIAL
    else
      var before, last := Run(actions[..|actions| - 1]), actions[|actions| - 1];
      if Enabled(before, last) then Apply(before, last) else before
  }

  /** A path that the empty string cannot take the place of: it covers relative paths only. */
  ghost predicate Protected(s: State, path: string) {
    path != "" && (Rooted(path) || !s.sawEmpty)
  }

  ghost predicate Inv(s: State) {
    && Antichain(s.pending)
    && (forall q :: q in s.owed && Protected(s, q) ==> CoveredBy(s.pending, q))
    && (s.scanWorker <==> !s.worker.NoWorker?)
    && s.registered == s.exiting + One(s.scanWorker)
    && (!s.sawEmpty ==> "" !in s.pending && (s.pending != {} ==> s.scanWorker))
    && (!s.phase.Open? ==> s.shuttingDown && s.holder.None?)
    && (s.phase.Waited? ==> s.registered == 0)
  }

  lemma CommittedKeepsInv(s: State, path: string)
    requires Inv(s) && s.holder == Some(path)
    ensures Inv(Committed(s, path))
  {
    QueueKeepsAntichain(s.pending, path);
    forall q | q in s.owed + {path} && Protected(Committed(s, path), q)
      ensures CoveredBy(AfterQueue(s.pending, path), q)
    {
      QueueCovers(s.pending, path, q);
    }
  }

  /** A path that is still owed stays covered, unless the empty string that covered it is taken. */
  lemma TakenKeepsCover(s: State, next: string, path: string)
    requires Enabled(s, Take(next)) && CoveredBy(s.pending, path) && path in Taken(s, next).owed
    requires next == "" ==> path != "" && Rooted(path)
    ensures CoveredBy(Taken(s, next).pending, path)
  {
    var p :| p in s.pending && Covers(p, path);
    assert p != next;
  }

  lemma TakenKeepsInv(s: State, next: string)
    requires Inv(s) && Enabled(s, Take(next))
    ensures Inv(Taken(s, next))
  {
    var after := Taken(s, next);
    forall q | q in after.owed && Protected(after, q) ensures CoveredBy(after.pending, q) {
      TakenKeepsCover(s, next, q);
    }
  }

  lemma StepKeepsInv(s: State, a: Action)
    requires Inv(s) && Enabled(s, a)
    ensures Inv(Apply(s, a))
  {
    match a
    case Commit => CommittedKeepsInv(s, s.holder.value);
    case Take(next) => TakenKeepsInv(s, next);
    case _ =>
  }

  lemma {:induction false} RunInv(actions: seq<Action>)
    ensures Inv(Run(actions))
  {
    if actions != [] {
      var before, last := Run(actions[..|actions| - 1]), actions[|actions| - 1];
      RunInv(actions[..|actions| - 1]);
      if Enabled(before, last) {
        StepKeepsInv(before, last);
      }
    }
  }

  // ---- Main results ----

  /** Pending paths never lie inside one another, and whatever absolute path was accepted stays covered by one of
      them until a scan of it or of one above it starts; so does a relative one unless the empty string was queued. */
  lemma AcceptedStaysCovered(actions: seq<Action>, s: State, path: string)
    requires s == Run(actions) && path in s.owed && Protected(s, path)
    ensures Antichain(s.pending) && CoveredBy(s.pending, path)
  {
    RunInv(actions);
  }

  /** Unless the empty string was ever queued, a non-empty queue has a worker. */
  lemma PendingHasWorker(actions: seq<Action>, s: State)
    requires s == Run(actions) && !s.sawEmpty
    ensures s.pending != {} ==> s.scanWorker && !s.worker.NoWorker? && s.registered > 0
  {
    RunInv(actions);
  }

  /** A worker's next step can lose a path, leaving it owed and no longer covered, exactly if only the empty
      string covers it: taking that starts no scan. */
  lemma LosesIff(s: State, path: string)
    requires s.worker.Ready? && s.holder.None? && path in s.owed && CoveredBy(s.pending, path)
    ensures (exists next :: Enabled(s, Take(next)) && path in Apply(s, Take(next)).owed
                            && !CoveredBy(Apply(s, Take(next)).pending, path)) <==>
              "" in s.pending && !CoveredBy(s.pending - {""}, path)
  {
    if "" in s.pending && !CoveredBy(s.pending - {""}, path) {
      assert Enabled(s, Take("")) && path in Apply(s, Take("")).owed;
    }
    if next :| Enabled(s, Take(next)) && path in Apply(s, Take(next)).owed
               && !CoveredBy(Apply(s, Take(next)).pending, path) {
      var q :| q in s.pending && Covers(q, path);
      assert q == next == "";
    }
  }

  /** A run in which that happens, for any path the empty string covers; these are relative. */
  lemma EmptyPathLoses(p: string)
    requires IsSubpath("", p)
    ensures !Rooted(p)
    ensures var s := Run([Enter(p), Commit, Enter(""), Commit, Take("")]); p in s.owed && s.pending == {}
  {
    var run := [Enter(p), Commit, Enter(""), Commit, Take("")];
    var s1 := INITIAL.(holder := Some(p));
    var s2 := State({p}, true, Ready, 0, 1, None, false, Open, {p}, false);
    var s3 := s2.(holder := Some(""));
    SubpathIrreflexive("");
    assert run[..1] == [Enter(p)] && [Enter(p)][..0] == [];
    assert Run(run[..1]) == s1;
    assert run[..2][..1] == run[..1];
    assert Run(run[..2]) == Committed(s1, p) == s2;
    assert run[..3][..2] == run[..2];
    assert Run(run[..3]) == s3;
    assert run[..4][..3] == run[..3];
    assert !CoveredBy({p}, "") by {
      if IsSubpath(p, "") {
        SubpathTransitive("", p, "");
      }
    }
    assert Run(run[..4]) == Committed(s3, "");
    assert AfterQueue({p}, "") == {""};
    assert run[..4] == run[..|run| - 1];
  }

  /** The queue is left without a worker. */
  ghost predicate Stalled(s: State) {
    s.pending != {} && !s.scanWorker
  }

  /** A worker's next step can leave the queue without a worker exactly if the empty string is queued beside
      another path: taking it looks like finding the queue empty. */
  lemma StallsIff(s: State)
    requires Inv(s) && s.worker.Ready? && s.holder.None?
    ensures (exists next :: Enabled(s, Take(next)) && Stalled(Apply(s, Take(next)))) <==>
              "" in s.pending && s.pending != {""}
  {
    if "" in s.pending && s.pending != {""} {
      assert Enabled(s, Take(""));
      assert s.pending == (s.pending - {""}) + {""};
      assert Stalled(Apply(s, Take("")));
    }
    if next :| Enabled(s, Take(next)) && Stalled(Apply(s, Take(next))) {
      assert next == "" && s.pending - {""} != {};
    }
  }

  /** A run in which that happens, for any path. */
  lemma EmptyPathStalls(p: CleanPath)
    ensures Stalled(Run([Enter(""), Commit, Enter(p), Commit, Take("")]))
  {
    var run := [Enter(""), Commit, Enter(p), Commit, Take("")];
    var s1 := INITIAL.(holder := Some(""));
    var s2 := State({""}, true, Ready, 0, 1, None, false, Open, {""}, true);
    var s3 := s2.(holder := Some(p));
    assert run[..1] == [Enter("")] && [Enter("")][..0] == [];
    assert Run(run[..1]) == s1;
    assert run[..2][..1] == run[..1];
    assert Run(run[..2]) == Committed(s1, "") == s2;
    assert run[..3][..2] == run[..2];
    assert Run(run[..3]) == s3;
    assert run[..4][..3] == run[..3];
    assert Run(run[..4]) == Committed(s3, p);
    assert AfterQueue({""}, p) == {"", p};
    assert run[..4] == run[..|run| - 1];
    assert p in Taken(Committed(s3, p), "").pending;
  }

  /** Once shutdown has passed the barrier no worker is ever registered again. */
  lemma NoRegistrationAfterBarrier(actions: seq<Action>, s: State, a: Action)
    requires s == Run(actions) && !s.phase.Open? && Enabled(s, a)
    ensures Apply(s, a).registered <= s.registered && Apply(s, a).pending <= s.pending && !Apply(s, a).phase.Open?
    ensures s.worker.NoWorker? ==> Apply(s, a).worker.NoWorker?
  {
    RunInv(actions);
  }

  /** When shutdown has waited, no worker is left, and none comes back. */
  lemma NothingScansAfterWait(actions: seq<Action>, s: State)
    requires s == Run(actions) && s.phase.Waited?
    ensures s.registered == 0 && s.worker.NoWorker?
    ensures forall a :: Enabled(s, a) ==> Apply(s, a).worker.NoWorker? && Apply(s, a).phase.Waited?
  {
    RunInv(actions);
  }

  /** What the workers still have to do. */
  function Rank(s: State): nat {
    2 * |s.pending| + s.exiting + (match s.worker case NoWorker => 0 case Ready => 2 case Scanning(_) => 3)
  }

  ghost predicate IsWorkerStep(a: Action) {
    a.Take? || a.FinishScan? || a.Exit?
  }

  /** Waiting ends: past the barrier some worker can go on as long as one is registered, every step of a worker
      leaves less to do, and nothing leaves more. */
  lemma WaitTerminates(actions: seq<Action>, s: State)
    requires s == Run(actions) && s.phase.Barriered?
    ensures s.registered > 0 ==> exists a :: IsWorkerStep(a) && Enabled(s, a)
    ensures forall a :: Enabled(s, a) ==> Rank(Apply(s, a)) <= Rank(s)
    ensures forall a :: Enabled(s, a) && IsWorkerStep(a) ==> Rank(Apply(s, a)) < Rank(s)
  {
    RunInv(actions);
    if s.registered > 0 {
      if s.exiting > 0 {
        assert Enabled(s, Exit);
      } else if s.worker.Scanning? {
        assert Enabled(s, FinishScan);
      } else if s.pending == {} {
        assert Enabled(s, Take(""));
      } else {
        var next :| next in s.pending;
        assert Enabled(s, Take(next));
      }
    }
    forall a | Enabled(s, a) ensures Rank(Apply(s, a)) <= Rank(s) && (IsWorkerStep(a) ==> Rank(Apply(s, a)) < Rank(s)) {
      if a.Take? {
        assert s.pending == (s.pending - {a.path}) + (if s.pending == {} then {} else {a.path});
      }
    }
  }
}
