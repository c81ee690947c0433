/** When the timer worker can go on, and that it comes to every due event after finitely many steps of its own. */
module ProtocolProgress {
  import opened Events
  import opened Protocol
  import opened ProtocolSafety
  import opened ProtocolTheorems
  import opened Wrappers

  /** The worker that is not running, is blocked or waits for its delivery has no step. */
  lemma IdleHasNoStep(s: State, t: State)
    requires Idle(s)
    ensures !WorkerStep(s, t)
  {
  }

  /** In every run the worker can step unless it is not running, its delivery is not finished, or it is blocked with
      neither token nor shutdown and its timer still to come. */
  lemma WorkerCanStepIff(c: Setup, r: seq<State>, i: nat)
    requires Run(c, r) && i < |r|
    ensures (exists t :: WorkerStep(r[i], t)) <==> !Idle(r[i])
  {
    if Idle(r[i]) {
      forall t ensures !WorkerStep(r[i], t) {
        IdleHasNoStep(r[i], t);
      }
    } else {
      RunInv(c, r, i);
      var t := WorkerMove(r[i]);
    }
  }

  /** By how much the timer that the worker is blocked on was armed too late. */
  function Lag(w: Worker): int {
    if w.Waiting? && w.alarm.Some? then w.alarm.value.lag else 0
  }

  /** The timer of a blocked worker is the least queued deadline plus its lag, so a path due for that long
      unblocks it. */
  lemma DuePathIsNotMissed(s: State, p: Path)
    requires SleepOk(s) && ShutdownOk(s) && !s.closed && IsDue(s.agg, p, s.clock - Lag(s.worker))
    ensures !WorkerDone(s) && !Blocked(s)
  {
  }

  lemma IdleOnlyDelivering(c: Setup, r: seq<State>, i: nat, p: Path)
    requires Run(c, r) && i < |r| && !r[i].closed
    requires IsDue(r[i].agg, p, r[i].clock - Lag(r[i].worker))
    ensures Idle(r[i]) <==> r[i].worker.Delivering? && r[i].worker.id in r[i].inflight
  {
    RunInv(c, r, i);
    DuePathIsNotMissed(r[i], p);
  }

  /** Before close, a queued path whose deadline has passed by the lag of the timer leaves the worker only its own
      delivery to wait for. */
  lemma DuePathEnablesWorker(c: Setup, r: seq<State>, i: nat, p: Path)
    requires Run(c, r) && i < |r| && !r[i].closed
    requires IsDue(r[i].agg, p, r[i].clock - Lag(r[i].worker))
    ensures (exists t :: WorkerStep(r[i], t)) <==> !(r[i].worker.Delivering? && r[i].worker.id in r[i].inflight)
  {
    IdleOnlyDelivering(c, r, i, p);
    WorkerCanStepIff(c, r, i);
  }

  /** How far the worker is from popping the due path `p`: whether it is about to pop by a clock read too early,
      then how many of its steps remain. */
  function PopRank(s: State, p: Path): (nat, nat)
    requires p in s.agg.entries
  {
    match s.worker
    case Unborn => (0, 0)
    case Exited => (0, 0)
    case Due(now) => (if s.agg.entries[p].deadline <= now then 0 else 1, 0)
    case Deciding(next) => (0, if next <= s.clock then 1 else 6)
    case Reading => (0, 2)
    case LoopTop => (0, 3)
    case Waiting(_) => (0, 4)
    case Arming(_, _) => (0, 5)
    case Flushing(ready) => (0, 4 + 2 * |ready|)
    case Delivering(ready, _) => (0, 5 + 2 * |ready|)
  }

  /** Lexicographic order on the two components. */
  predicate Nearer(x: (nat, nat), y: (nat, nat)) {
    x.0 < y.0 || (x.0 == y.0 && x.1 < y.1)
  }

  /** The worker that reads the least deadline finds one that has passed. */
  lemma ReadComesCloser(s: State, t: State, p: Path)
    requires s.worker.Reading? && IsDue(s.agg, p, s.clock) && WorkerLoop(s, t)
    ensures t == s.(worker := t.worker) && t.worker.Deciding? && t.worker.next <= s.clock
  {
  }

  lemma LoopComesCloser(s: State, t: State, p: Path)
    requires !s.closed && IsDue(s.agg, p, s.clock) && (WorkerLoop(s, t) || WorkerDelivered(s, t))
    ensures IsDue(t.agg, p, t.clock) && Nearer(PopRank(t, p), PopRank(s, p))
  {
    if s.worker.Reading? {
      ReadComesCloser(s, t, p);
    } else {
      LoopFrame(s, t);
    }
  }

  lemma PopComesCloser(s: State, t: State, p: Path)
    requires !s.closed && IsDue(s.agg, p, s.clock) && WorkerPop(s, t)
    ensures if s.agg.entries[p].deadline <= s.worker.now
      then !Queued(t.agg, p) && Item(p, s.agg.entries[p].version) in Ready(t.worker)
      else IsDue(t.agg, p, t.clock) && Nearer(PopRank(t, p), PopRank(s, p))
  {
  }

  /** The second phase takes no path that is queued again. */
  lemma FlushComesCloser(s: State, t: State, p: Path, w: WatchEvent)
    requires VersionsOk(s) && !s.closed && IsDue(s.agg, p, s.clock) && WorkerFlush(s, t, w)
    ensures IsDue(t.agg, p, t.clock) && Nearer(PopRank(t, p), PopRank(s, p))
  {
    assert s.worker.ready != [] ==> Ready(s.worker)[0] == s.worker.ready[0];
  }

  /** A step of the worker pops a due path or brings the worker nearer to popping it: so it is popped after finitely
      many of them. */
  lemma DuePathComesCloser(s: State, t: State, p: Path)
    requires VersionsOk(s) && !s.closed && IsDue(s.agg, p, s.clock) && WorkerStep(s, t)
    ensures if s.worker.Due? && s.agg.entries[p].deadline <= s.worker.now
      then !Queued(t.agg, p) && Item(p, s.agg.entries[p].version) in Ready(t.worker)
      else IsDue(t.agg, p, t.clock) && Nearer(PopRank(t, p), PopRank(s, p))
  {
    if WorkerPop(s, t) {
      PopComesCloser(s, t, p);
    } else if w :| WorkerFlush(s, t, w) {
      FlushComesCloser(s, t, p, w);
    } else {
      LoopComesCloser(s, t, p);
    }
  }

  lemma AddKeepsWorker(c: Setup, s: State, t: State, event: WatchEvent, victim: Option<Path>, w: WatchEvent)
    requires Add(c, s, t, event, victim, w)
    ensures s.clock == t.clock && (t.worker == s.worker || s.worker.Unborn?)
  {
  }

  /** Whatever else happens, the worker stays where it is, or is started, and the clock does not go back. */
  lemma OthersKeepWorker(c: Setup, s: State, t: State)
    requires Next(c, s, t) && !WorkerStep(s, t)
    ensures s.clock <= t.clock && (t.worker == s.worker || s.worker.Unborn?)
  {
    if event, victim, w :| Add(c, s, t, event, victim, w) {
      AddKeepsWorker(c, s, t, event, victim, w);
    } else if w :| Close(s, t, w) {
      CloseFrame(s, t, w);
    } else if id :| Deliver(c, s, t, id) {
      assert t.worker == s.worker && t.clock == s.clock;
    } else {
      assert Tick(s, t) || Filter(s, t) || Refuse(s, t) || Receive(s, t);
    }
  }

  /** While nothing touches the entry of a due path, no other step puts the pop off. */
  lemma DuePathIsNotPutOff(c: Setup, s: State, t: State, p: Path)
    requires ShutdownOk(s) && !s.closed && IsDue(s.agg, p, s.clock) && Next(c, s, t) && !WorkerStep(s, t)
    requires p in t.agg.entries && t.agg.entries[p] == s.agg.entries[p]
    ensures IsDue(t.agg, p, t.clock) && !Nearer(PopRank(s, p), PopRank(t, p))
  {
    OthersKeepWorker(c, s, t);
  }
}
