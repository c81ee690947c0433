/**
 Any interleaving of lookups, invalidations and changes of the file system. An answer always comes from a lookup
 begun after the last invalidation covering its path, so it is right unless the attribute changed since then.
 */
module HiddenCacheRuns {
  import opened HiddenCache
  import opened Wrappers

  /** Where a caller of the cache is: between calls, about to probe, or looking the attribute up. */
  datatype Caller = Idle | Asking(path: string) | Looking(path: string, stamp: Stamp, begun: nat, read: Option<bool>)

  datatype Action =
    | Call(who: nat, path: string) | Probe(who: nat) | Read(who: nat) | Settle(who: nat)
    | Invalidate(path: string) | InvalidateAll | Change(path: string)

  /** What a caller is told, and when the lookup it comes from began. */
  datatype Answer = Answer(path: string, hidden: bool, begun: nat)

  /**
   The cache, its callers, and what the cache cannot see: the time, which paths are hidden, when each path last
   changed and was last invalidated, and when the lookup behind each entry began.
   */
  datatype State = State(cache: Cache, callers: map<nat, Caller>, now: nat, hidden: set<string>,
                         changed: map<string, nat>, invalidated: map<string, nat>, allInvalidated: nat,
                         since: map<string, nat>)

  const INITIAL: State := State(Cache(map[], map[], 0), map[], 1, {}, map[], map[], 0, map[])

  function At(times: map<string, nat>, path: string): nat {
    if path in times then times[path] else 0
  }

  /** When an invalidation last covered a path. */
  function Covered(s: State, path: string): nat {
    if At(s.invalidated, path) > s.allInvalidated then At(s.invalidated, path) else s.allInvalidated
  }

  function CallerOf(s: State, who: nat): Caller {
    if who in s.callers then s.callers[who] else Idle
  }

  /** One locked section, one reading of the attribute, or one change of the file system. */
  function Effect(s: State, a: Action): State {
    match a
    case Call(who, path) =>
      if CallerOf(s, who).Idle? then s.(callers := s.callers[who := Asking(path)]) else s
    case Probe(who) =>
      var c := CallerOf(s, who);
      if !c.Asking? then s
      else if Probed(s.cache, c.path).Some? then s.(callers := s.callers[who := Idle])
      else s.(callers := s.callers[who := Looking(c.path, StampOf(s.cache, c.path), s.now, None)])
    case Read(who) =>
      var c := CallerOf(s, who);
      if c.Looking? && c.read.None? then s.(callers := s.callers[who := c.(read := Some(c.path in s.hidden))]) else s
    case Settle(who) =>
      var c := CallerOf(s, who);
      if !(c.Looking? && c.read.Some?) then s
      else
        (match Stored(s.cache, c.path, c.stamp, c.read.value)
         case None => s.(callers := s.callers[who := Asking(c.path)])
         case Some(after) => s.(cache := after, callers := s.callers[who := Idle], since := s.since[c.path := c.begun]))
    case Invalidate(path) => s.(cache := Invalidated(s.cache, path), invalidated := s.invalidated[path := s.now])
    case InvalidateAll => s.(cache := InvalidatedAll(s.cache), allInvalidated := s.now)
    case Change(path) =>
      s.(hidden := if path in s.hidden then s.hidden - {path} else s.hidden + {path},
         changed := s.changed[path := s.now])
  }

  function Apply(s: State, a: Action): State {
    Effect(s, a).(now := s.now + 1)
  }

  /** The answer an action gives: a cached one, or the caller's own. */
  function AnswerTo(s: State, a: Action): Option<Answer> {
    match a
    case Probe(who) =>
      var c := CallerOf(s, who);
      if c.Asking? && Probed(s.cache, c.path).Some?
      then Some(Answer(c.path, Probed(s.cache, c.path).value, At(s.since, c.path))) else None
    case Settle(who) =>
      var c := CallerOf(s, who);
      if c.Looking? && c.read.Some? && Stored(s.cache, c.path, c.stamp, c.read.value).Some?
      then Some(Answer(c.path, c.read.value, c.begun)) else None
    case _ => None
  }

  function Run(actions: seq<Action>): State {
    if actions == [] then INITIAL else Apply(Run(actions[..|actions| - 1]), actions[|actions| - 1])
  }

  /** A lookup of `path` begun at `begun` under `stamp`: fresh if the stamp is current, right if nothing changed
      since it began. */
  ghost predicate Sound(s: State, path: string, stamp: Stamp, begun: nat, value: Option<bool>) {
    && !Earlier(StampOf(s.cache, path), stamp)
    && (stamp == StampOf(s.cache, path) ==> begun > Covered(s, path))
    && begun < s.now
    && (value.Some? && At(s.changed, path) < begun ==> value.value == (path in s.hidden))
  }

  ghost predicate EntrySound(s: State, path: string)
    requires path in s.cache.values
  {
    Sound(s, path, s.cache.values[path].stamp, At(s.since, path), Some(s.cache.values[path].hidden))
  }

  ghost predicate CallerSound(s: State, c: Caller) {
    c.Looking? ==> Sound(s, c.path, c.stamp, c.begun, c.read)
  }

  ghost predicate Dated(times: map<string, nat>, now: nat) {
    forall p :: p in times ==> times[p] < now
  }

  ghost predicate Inv(s: State) {
    && Sane(s.cache)
    && Dated(s.changed, s.now) && Dated(s.invalidated, s.now) && s.allInvalidated < s.now
    && (forall p :: p in s.cache.values ==> EntrySound(s, p))
    && (forall w :: w in s.callers ==> CallerSound(s, s.callers[w]))
  }

  /** One action: stamps stay or grow, and grow where an invalidation covers. */
  lemma StampStep(s: State, a: Action, path: string)
    requires Past(s.cache)
    ensures Grows(s.cache, Apply(s, a).cache, path)
    ensures (a.Invalidate? && a.path == path) || a.InvalidateAll? ==>
      Earlier(StampOf(s.cache, path), StampOf(Apply(s, a).cache, path))
  {
    match a
    case Settle(who) =>
      var c := CallerOf(s, who);
      if c.Looking? && c.read.Some? && c.stamp == StampOf(s.cache, c.path) {
        StoredIsFound(s.cache, c.path, c.read.value, path);
      }
    case Invalidate(p) => InvalidationAdvances(s.cache, p, path);
    case InvalidateAll => InvalidationAdvances(s.cache, path, path);
    case _ =>
  }

  /** One action: what is invalidated or changes is dated now, and all else stays as it was. */
  lemma WorldStep(s: State, a: Action, path: string)
    ensures Covered(Apply(s, a), path) == Covered(s, path) || (a.Invalidate? && a.path == path) || a.InvalidateAll?
    ensures At(Apply(s, a).changed, path) == s.now
            || (At(Apply(s, a).changed, path) == At(s.changed, path)
                && (path in Apply(s, a).hidden <==> path in s.hidden))
  {
  }

  /** Whatever happens next, a lookup stays sound: its stamp is overtaken whenever its path is invalidated. */
  lemma SoundKept(s: State, a: Action, path: string, stamp: Stamp, begun: nat, value: Option<bool>)
    requires Sound(s, path, stamp, begun, value) && Past(s.cache)
    ensures Sound(Apply(s, a), path, stamp, begun, value)
  {
    StampStep(s, a, path);
    WorldStep(s, a, path);
  }

  lemma DatesKept(s: State, a: Action)
    requires Dated(s.changed, s.now) && Dated(s.invalidated, s.now) && s.allInvalidated < s.now
    ensures var after := Apply(s, a);
      Dated(after.changed, after.now) && Dated(after.invalidated, after.now) && after.allInvalidated < after.now
  {
  }

  lemma CacheKeepsInv(s: State, a: Action)
    requires Sane(s.cache)
    ensures Sane(Apply(s, a).cache)
  {
    match a
    case Settle(who) =>
      var c := CallerOf(s, who);
      if c.Looking? && c.read.Some? && c.stamp == StampOf(s.cache, c.path) {
        StoredKeeps(s.cache, c.path, c.read.value);
      }
    case Invalidate(p) => InvalidatedKeeps(s.cache, p);
    case InvalidateAll => InvalidatedKeeps(s.cache, "");
    case _ =>
  }

  /** The action by which a caller's answer enters the cache. */
  ghost predicate Stores(s: State, a: Action, path: string) {
    && a.Settle? && CallerOf(s, a.who).Looking? && CallerOf(s, a.who).path == path && CallerOf(s, a.who).read.Some?
    && CallerOf(s, a.who).stamp == StampOf(s.cache, path)
  }

  /** Entries are old ones, or the one being stored. */
  lemma EntryOrigin(s: State, a: Action, p: string)
    requires p in Apply(s, a).cache.values
    ensures var after := Apply(s, a);
      if Stores(s, a, p) then
        && after.cache.values[p] == Entry(CallerOf(s, a.who).read.value, StampOf(after.cache, p))
        && At(after.since, p) == CallerOf(s, a.who).begun
      else
        && p in s.cache.values && after.cache.values[p] == s.cache.values[p] && At(after.since, p) == At(s.since, p)
  {
  }

  lemma EntryKeepsInv(s: State, a: Action, p: string)
    requires Inv(s) && p in Apply(s, a).cache.values
    ensures EntrySound(Apply(s, a), p)
  {
    EntryOrigin(s, a, p);
    if Stores(s, a, p) {
      var c := CallerOf(s, a.who);
      assert CallerSound(s, c);
    } else {
      assert EntrySound(s, p);
      SoundKept(s, a, p, s.cache.values[p].stamp, At(s.since, p), Some(s.cache.values[p].hidden));
    }
  }

  /** A caller's lookup is an old one, possibly just read, or begins now. */
  lemma CallerOrigin(s: State, a: Action, w: nat)
    requires w in Apply(s, a).callers && Apply(s, a).callers[w].Looking?
    ensures var c, d := Apply(s, a).callers[w], CallerOf(s, w);
      if d.Looking? then
        c == d || (a.Read? && d.read.None? && c == d.(read := Some(d.path in s.hidden)))
      else
        a.Probe? && d.Asking? && c == Looking(d.path, StampOf(s.cache, d.path), s.now, None)
  {
  }

  /** A lookup that begins now is younger than any invalidation. */
  lemma SoundBegins(s: State, a: Action, path: string)
    requires Dated(s.invalidated, s.now) && s.allInvalidated < s.now && a.Probe?
    ensures Sound(Apply(s, a), path, StampOf(s.cache, path), s.now, None)
  {
  }

  lemma CallerKeepsInv(s: State, a: Action, w: nat)
    requires Inv(s) && w in Apply(s, a).callers
    ensures CallerSound(Apply(s, a), Apply(s, a).callers[w])
  {
    var c, d := Apply(s, a).callers[w], CallerOf(s, w);
    if c.Looking? {
      CallerOrigin(s, a, w);
      if d.Looking? {
        assert CallerSound(s, d);
        SoundKept(s, a, d.path, d.stamp, d.begun, d.read);
      } else {
        SoundBegins(s, a, d.path);
      }
    }
  }

  lemma StepKeepsInv(s: State, a: Action)
    requires Inv(s)
    ensures Inv(Apply(s, a))
  {
    var after := Apply(s, a);
    CacheKeepsInv(s, a);
    DatesKept(s, a);
    forall p | p in after.cache.values ensures EntrySound(after, p) {
      EntryKeepsInv(s, a, p);
    }
    forall w | w in after.callers ensures CallerSound(after, after.callers[w]) {
      CallerKeepsInv(s, a, w);
    }
  }

  lemma {:induction false} RunInv(actions: seq<Action>)
    ensures Inv(Run(actions))
  {
    if actions != [] {
      RunInv(actions[..|actions| - 1]);
      StepKeepsInv(Run(actions[..|actions| - 1]), actions[|actions| - 1]);
    }
  }

  /** Every answer in every run comes from a lookup begun after the last invalidation covering its path. If the
      attribute has not changed since that invalidation, the answer is right. */
  lemma AnswersAreFresh(actions: seq<Action>, a: Action)
    requires AnswerTo(Run(actions), a).Some?
    ensures var s, answer := Run(actions), AnswerTo(Run(actions), a).value;
            && Covered(s, answer.path) < answer.begun < s.now
            && (At(s.changed, answer.path) <= Covered(s, answer.path) ==> answer.hidden == (answer.path in s.hidden))
  {
    RunInv(actions);
    var s, answer := Run(actions), AnswerTo(Run(actions), a).value;
    if a.Probe? {
      assert EntrySound(s, answer.path);
    } else {
      assert CallerSound(s, CallerOf(s, a.who));
    }
  }

  /** In every run both maps stay within their bound. */
  lemma CacheIsBounded(actions: seq<Action>)
    ensures |Run(actions).cache.values| <= 8192 && |Run(actions).cache.pathGenerations| <= 8192
  {
    RunInv(actions);
  }

  /** Stamps never fall back, and an invalidation raises the stamp of every path it covers. */
  lemma StampsOnlyGrow(actions: seq<Action>, a: Action, path: string)
    ensures Grows(Run(actions).cache, Apply(Run(actions), a).cache, path)
    ensures (a.Invalidate? && a.path == path) || a.InvalidateAll? ==>
      Earlier(StampOf(Run(actions).cache, path), StampOf(Apply(Run(actions), a).cache, path))
  {
    RunInv(actions);
    StampStep(Run(actions), a, path);
  }
}
