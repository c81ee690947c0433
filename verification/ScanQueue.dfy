/**
 The queue of recovery scans. A scan covers everything below its path, so pending paths are kept an antichain: a
 new path is dropped if a pending one covers it, and replaces the pending ones it covers.
 */
module ScanQueue {
  import opened Paths
  import opened Sets

  /** No path lies inside another. */
  ghost predicate Antichain(pending: set<string>) {
    forall p, q :: p in pending && q in pending ==> !IsSubpath(p, q)
  }

  ghost predicate CoveredBy(pending: set<string>, path: string) {
    exists q :: q in pending && Covers(q, path)
  }

  /** The pending paths not inside a new one. */
  function Outside(pending: set<string>, path: string): set<string> {
    set q | q in pending && !IsSubpath(path, q)
  }

  ghost function AfterQueue(pending: set<string>, path: string): set<string> {
    if CoveredBy(pending, path) then pending else Outside(pending, path) + {path}
  }

  lemma CoversTransitive(p: string, q: string, r: string)
    requires Covers(p, q) && Covers(q, r)
    ensures Covers(p, r)
  {
    if p != q && q != r {
      SubpathTransitive(p, q, r);
    }
  }

  lemma QueueKeepsAntichain(pending: set<string>, path: string)
    requires Antichain(pending)
    ensures Antichain(AfterQueue(pending, path))
  {
    SubpathIrreflexive(path);
  }

  /** Queueing covers the new path and loses nothing covered before. */
  lemma QueueCovers(pending: set<string>, path: string, other: string)
    requires Antichain(pending)
    requires other == path || CoveredBy(pending, other)
    ensures CoveredBy(AfterQueue(pending, path), other)
  {
    var after := AfterQueue(pending, path);
    if other == path {
      if !CoveredBy(pending, path) {
        assert path in after && Covers(path, other);
      }
    } else {
      var q :| q in pending && Covers(q, other);
      if q in after {
      } else {
        CoversTransitive(path, q, other);
        assert path in after;
      }
    }
  }

  /** In an antichain a path that covers a pending one is itself covered by none: stopping early loses nothing. */
  lemma NothingBetween(pending: set<string>, q: string, path: string, inner: string)
    requires Antichain(pending) && q in pending && inner in pending && Covers(q, path)
    ensures !IsSubpath(path, inner)
  {
    if IsSubpath(path, inner) && q != path {
      SubpathTransitive(q, path, inner);
    }
  }

  class Queue {
    var scanPending: set<string>
    var scanWorker: bool

    ghost predicate Valid()
      reads this
    {
      Antichain(scanPending)
    }

    constructor ()
      ensures Valid() && scanPending == {} && !scanWorker
    {
      scanPending, scanWorker := {}, false;
    }

    /** Queues a path unless shutting down; whether a worker is to be started for it. The loop deletes from the
        map it ranges over and may return in the middle. */
    method QueueScan(path: string, shuttingDown: bool) returns (start: bool)
      requires Valid()
      modifies this
      ensures Valid()
      ensures scanPending == if shuttingDown then old(scanPending) else AfterQueue(old(scanPending), path)
      ensures var covered := exists q :: q in old(scanPending) && (q == path || IsSubpath(q, path));
        && (shuttingDown || covered ==> scanPending == old(scanPending))
        && (!shuttingDown && !covered ==>
              forall q :: q in scanPending <==> q == path || (q in old(scanPending) && !IsSubpath(path, q)))
        && (start <==> !shuttingDown && !covered && !old(scanWorker))
      ensures start <==> !shuttingDown && !CoveredBy(old(scanPending), path) && !old(scanWorker)
      ensures scanWorker == (old(scanWorker) || start)
    {
      if shuttingDown {
        return false;
      }
      var rest := scanPending;
      while rest != {}
        invariant rest <= old(scanPending) && scanWorker == old(scanWorker)
        invariant scanPending == rest + Outside(old(scanPending), path)
        invariant forall q :: q in old(scanPending) && q !in rest ==> !Covers(q, path)
        decreases rest
      {
        var q := Pick(rest);
        rest := rest - {q};
        if q == path || IsSubpath(q, path) {
          forall inner | inner in old(scanPending) ensures !IsSubpath(path, inner) {
            NothingBetween(old(scanPending), q, path, inner);
          }
          assert scanPending == old(scanPending);
          return false;
        }
        if IsSubpath(path, q) {
          scanPending := scanPending - {q};
        }
      }
      QueueKeepsAntichain(old(scanPending), path);
      assert !CoveredBy(old(scanPending), path);
      scanPending := scanPending + {path};
      if scanWorker {
        return false;
      }
      scanWorker := true;
      start := true;
    }

    /** The worker takes some pending path; the empty string tells it to stop. */
    method TakeNext() returns (next: string)
      requires Valid()
      modifies this
      ensures Valid()
      ensures if old(scanPending) == {} then next == "" else next in old(scanPending)
      ensures scanPending == old(scanPending) - {next}
      ensures scanWorker == (old(scanWorker) && next != "")
    {
      next := "";
      if scanPending != {} {
        next := Pick(scanPending);
        scanPending := scanPending - {next};
      }
      if next == "" {
        scanWorker := false;
      }
    }
  }
}
