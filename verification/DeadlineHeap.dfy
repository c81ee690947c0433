/**
 The deadline heap: a binary min-heap of pending events that carry their own position,
 with the sift algorithms of `container/heap` running over `Swap`, `Push` and `Pop`.
 */
module DeadlineHeap {
  import opened Events
  import opened Sorting

  function Bit(t: EventType): bv8
    requires t <= EVENT_OVERFLOW
  {
    (1 as bv8) << t
  }

  predicate HasBit(mask: bv8, t: EventType) {
    t <= EVENT_OVERFLOW && mask & Bit(t) != 0
  }

  lemma BitDisjoint(t: EventType, u: EventType)
    requires t <= EVENT_OVERFLOW && u <= EVENT_OVERFLOW
    ensures Bit(t) & Bit(u) != 0 <==> t == u
  {
  }

  /** Setting one type bit adds exactly that type. */
  lemma SetBit(mask: bv8, t: EventType, u: EventType)
    requires t <= EVENT_OVERFLOW
    ensures HasBit(mask | Bit(t), u) <==> HasBit(mask, u) || u == t
  {
    if u <= EVENT_OVERFLOW {
      BitDisjoint(t, u);
      var b, d := Bit(t), Bit(u);
      assert (mask | b) & d == (mask & d) | (b & d);
    }
  }

  lemma OnlyElement(s: set<EventType>, t: EventType, u: EventType)
    requires |s| <= 1 && t in s && u in s
    ensures t == u
  {
    var others := s - {t};
    assert s == others + {t} && |others| == 0;
  }

  /** At most one larger type behind the masked ones needs no sorting. */
  lemma AppendedIncreasing(masked: seq<EventType>, types: seq<EventType>, extra: set<EventType>)
    requires Increasing(TypeLess, masked) && masked <= types && Distinct(types) && |extra| <= 1
    requires forall t, u :: t in masked && u in extra ==> t < u
    requires forall i :: |masked| <= i < |types| ==> types[i] in extra
    ensures Increasing(TypeLess, types)
  {
    forall i, j | 0 <= i < j < |types| ensures TypeLess(types[i], types[j]) {
      if i >= |masked| {
        OnlyElement(extra, types[i], types[j]);
      } else {
        assert types[i] == masked[i] && masked[i] in masked;
      }
    }
  }

  lemma AppendedOne(s: seq<EventType>, r: seq<EventType>, more: set<EventType>, rest: set<EventType>, t: EventType)
    requires t in rest && rest <= more && (forall u :: u in s ==> u !in more)
    requires Distinct(r) && Elements(r) == Elements(s) + (more - rest)
    ensures Distinct(r + [t]) && Elements(r + [t]) == Elements(s) + (more - (rest - {t}))
  {
    assert t !in Elements(r);
    assert Elements(r + [t]) == Elements(r) + {t};
  }

  /** Appends the members of a set in whatever order they come; none twice. */
  method AppendAll(s: seq<EventType>, more: set<EventType>) returns (r: seq<EventType>)
    requires Distinct(s) && forall t :: t in s ==> t !in more
    ensures Distinct(r) && Elements(r) == Elements(s) + more
    ensures s <= r && forall i :: |s| <= i < |r| ==> r[i] in more
  {
    r := s;
    var rest := more;
    while rest != {}
      invariant rest <= more && Distinct(r) && Elements(r) == Elements(s) + (more - rest)
      invariant s <= r && forall i :: |s| <= i < |r| ==> r[i] in more
      decreases rest
    {
      var t :| t in rest;
      AppendedOne(s, r, more, rest, t);
      r, rest := r + [t], rest - {t};
    }
  }

  /** Merged data for the events of one path. */
  class AggregatedEvent {
    const path: Path
    const firstSeen: Time
    var typeMask: bv8
    var extraTypes: set<EventType>
    var flags: set<string>
    var lastSeen: Time
    var eventID: nat
    var deadline: Time
    var version: nat
    var heapIndex: int

    constructor (path: Path, now: Time, id: nat, deadline: Time, version: nat)
      ensures this.path == path && firstSeen == lastSeen == now
      ensures eventID == id && this.deadline == deadline && this.version == version
      ensures Types() == {} && flags == {} && Extras() && heapIndex == -1
    {
      this.path, firstSeen, lastSeen := path, now, now;
      typeMask, extraTypes, flags := 0, {}, {};
      eventID, this.deadline, this.version, heapIndex := id, deadline, version, -1;
    }

    /** Only types above the mask's range are kept in the overflow set. */
    ghost predicate Extras()
      reads this`extraTypes
    {
      forall t :: t in extraTypes ==> t > EVENT_OVERFLOW
    }

    ghost function Masked(): set<EventType>
      reads this`typeMask
    {
      set t: EventType | 0 <= t <= EVENT_OVERFLOW && HasBit(typeMask, t)
    }

    ghost function Types(): set<EventType>
      reads this`typeMask, this`extraTypes
    {
      Masked() + extraTypes
    }

    /** The node carries the data of entry `x`; its place in the heap is not part of that. */
    ghost predicate Holds(x: Entry)
      reads this`typeMask, this`extraTypes, this`flags, this`lastSeen, this`eventID, this`deadline, this`version
    {
      && Extras()
      && Types() == x.types && flags == x.flags && eventID == x.id
      && firstSeen == x.first && lastSeen == x.last && deadline == x.deadline && version == x.version
    }

    method AddTypes(types: seq<EventType>)
      requires Extras()
      modifies this`typeMask, this`extraTypes
      ensures Extras()
      ensures Types() == old(Types()) + Elements(types)
    {
      for i := 0 to |types|
        invariant Extras()
        invariant Types() == old(Types()) + Elements(types[..i])
      {
        var t := types[i];
        assert types[..i + 1] == types[..i] + [t];
        assert Elements(types[..i + 1]) == Elements(types[..i]) + {t};
        if t <= EVENT_OVERFLOW {
          forall u: EventType ensures HasBit(typeMask | Bit(t), u) <==> HasBit(typeMask, u) || u == t {
            SetBit(typeMask, t, u);
          }
          typeMask := typeMask | Bit(t);
        } else {
          extraTypes := extraTypes + {t};
        }
      }
      assert types[..|types|] == types;
    }

    method AddFlags(more: seq<string>)
      modifies this`flags
      ensures flags == old(flags) + Elements(more)
    {
      for i := 0 to |more|
        invariant flags == old(flags) + Elements(more[..i])
      {
        assert more[..i + 1] == more[..i] + [more[i]];
        flags := flags + {more[i]};
      }
      assert more[..|more|] == more;
    }

    /** Folds one more raw event in; the position in the heap is the caller's business. */
    method Coalesce(event: WatchEvent, now: Time, deadline: Time, version: nat, ghost x: Entry)
      requires Holds(x)
      modifies this`typeMask, this`extraTypes, this`flags, this`lastSeen, this`deadline, this`version, this`eventID
      ensures Holds(Entry(x.types + Elements(event.types), x.flags + Elements(event.flags), Max(x.id, event.id),
                          x.first, now, deadline, version, true))
    {
      lastSeen := now;
      this.deadline := deadline;
      this.version := version;
      if event.id > eventID {
        eventID := event.id;
      }
      AddTypes(event.types);
      AddFlags(event.flags);
    }

    /** The types recorded in the mask, in enumeration order. */
    method MaskedTypes() returns (types: seq<EventType>)
      ensures Increasing(TypeLess, types)
      ensures forall u: EventType :: u in types <==> HasBit(typeMask, u)
    {
      types := [];
      for t := 0 to EVENT_OVERFLOW + 1
        invariant forall i, j :: 0 <= i < j < |types| ==> types[i] < types[j]
        invariant forall i :: 0 <= i < |types| ==> types[i] < t && HasBit(typeMask, types[i])
        invariant forall u: EventType :: u < t && HasBit(typeMask, u) ==> u in types
      {
        if HasBit(typeMask, t) {
          types := types + [t];
        }
      }
    }

    /** The merged types in strictly increasing order, including those beyond the mask. */
    method EventTypes() returns (types: seq<EventType>)
      requires Extras()
      ensures Increasing(TypeLess, types)
      ensures Elements(types) == Types()
    {
      var masked := MaskedTypes();
      assert forall t :: t in masked ==> HasBit(typeMask, t) && t !in extraTypes;
      types := AppendAll(masked, extraTypes);
      assert Elements(masked) == Masked();
      if |extraTypes| > 1 {
        TypeOrder();
        SortDistinct(TypeLess, types);
        types := Sort(TypeLess, types);
      } else {
        AppendedIncreasing(masked, types, extraTypes);
      }
    }
  }

  function Parent(i: nat): (p: nat)
    requires i > 0
    ensures p < i
  {
    (i - 1) / 2
  }

  /** The children of position `i` among the first `n`. */
  lemma Children(i: nat, n: nat)
    ensures forall k: nat {:trigger Parent(k)} ::
      0 < k < n && Parent(k) == i <==> k < n && (k == 2 * i + 1 || k == 2 * i + 2)
  {
  }

  class Heap {
    var items: seq<AggregatedEvent>
    /** The nodes of the heap, whatever their order. */
    ghost var nodes: set<AggregatedEvent>

    constructor ()
      ensures items == [] && nodes == {}
    {
      items, nodes := [], {};
    }

    /** Every node knows its exact position; so no node occurs twice. */
    ghost predicate Indexed()
      reads this, items, nodes
    {
      && (forall i :: 0 <= i < |items| ==> items[i].heapIndex == i && items[i] in nodes)
      && (forall e :: e in nodes ==> 0 <= e.heapIndex < |items| && items[e.heapIndex] == e)
    }

    ghost predicate OrderedUpTo(n: nat)
      requires n <= |items|
      reads this, items
    {
      forall i: nat {:trigger Parent(i)} :: 0 < i < n ==> items[Parent(i)].deadline <= items[i].deadline
    }

    ghost predicate Ordered()
      reads this, items
    {
      OrderedUpTo(|items|)
    }

    /** The first `n` nodes are ordered but for the edges at `hole`, whose children may still replace it. */
    ghost predicate OrderedAround(hole: nat, n: nat)
      requires hole < n <= |items|
      reads this, items
    {
      forall i: nat {:trigger Parent(i)} :: 0 < i < n ==>
        && (i != hole && Parent(i) != hole ==> items[Parent(i)].deadline <= items[i].deadline)
        && (Parent(i) == hole && hole > 0 ==> items[Parent(hole)].deadline <= items[i].deadline)
    }

    ghost predicate ChildrenAbove(hole: nat, n: nat)
      requires n <= |items|
      reads this, items
    {
      forall i: nat {:trigger Parent(i)} :: 0 < i < n && Parent(i) == hole ==> items[hole].deadline <= items[i].deadline
    }

    predicate Less(i: nat, j: nat)
      requires i < |items| && j < |items|
      reads this, items
    {
      items[i].deadline < items[j].deadline
    }

    method Swap(i: nat, j: nat)
      requires i < |items| && j < |items| && Indexed()
      modifies this, nodes`heapIndex
      ensures Indexed()
      ensures items == old(items)[i := old(items[j])][j := old(items[i])]
      ensures nodes == old(nodes)
    {
      items := items[i := items[j]][j := items[i]];
      items[i].heapIndex := i;
      items[j].heapIndex := j;
    }

    /** One exchange of a node at `j` with its later parent. */
    method RiseOnce(j: nat, n: nat)
      requires 0 < j < n <= |items| && Indexed()
      requires OrderedAround(j, n) && ChildrenAbove(j, n) && Less(j, Parent(j))
      modifies this, nodes`heapIndex
      ensures Indexed() && nodes == old(nodes) && |items| == old(|items|)
      ensures forall k :: n <= k < |items| ==> items[k] == old(items[k])
      ensures OrderedAround(Parent(j), n) && ChildrenAbove(Parent(j), n)
    {
      Swap(Parent(j), j);
    }

    method Up(start: nat, n: nat)
      requires start < n <= |items| && Indexed()
      requires OrderedAround(start, n) && ChildrenAbove(start, n)
      modifies this, nodes`heapIndex
      ensures Indexed() && nodes == old(nodes) && |items| == old(|items|)
      ensures forall k :: n <= k < |items| ==> items[k] == old(items[k])
      ensures OrderedUpTo(n)
    {
      var j: nat := start;
      while true
        invariant j < n <= |items| == old(|items|) && Indexed() && nodes == old(nodes)
        invariant forall k :: n <= k < |items| ==> items[k] == old(items[k])
        invariant OrderedAround(j, n) && ChildrenAbove(j, n)
        decreases j
      {
        var i: nat := if j == 0 then 0 else Parent(j);
        if i == j || !Less(j, i) {
          break;
        }
        RiseOnce(j, n);
        j := i;
      }
    }

    ghost predicate LeastChild(i: nat, j: nat, n: nat)
      requires n <= |items|
      reads this, items
    {
      && 0 < j < n && Parent(j) == i
      && forall k: nat {:trigger Parent(k)} :: 0 < k < n && Parent(k) == i ==> items[j].deadline <= items[k].deadline
    }

    /** The child to compare with: the right one only if it exists and is strictly earlier. */
    method EarlierChild(i: nat, n: nat) returns (j: nat)
      requires 2 * i + 1 < n <= |items|
      ensures i < j < n && LeastChild(i, j, n)
    {
      Children(i, n);
      var j1 := 2 * i + 1;
      j := j1;
      var j2 := j1 + 1;
      if j2 < n && Less(j2, j1) {
        j := j2;
      }
    }

    /** One exchange of a too late node at `i` with its least child. */
    method SinkOnce(i: nat, j: nat, n: nat)
      requires i < n <= |items| && Indexed()
      requires OrderedAround(i, n) && LeastChild(i, j, n) && Less(j, i)
      modifies this, nodes`heapIndex
      ensures Indexed() && nodes == old(nodes) && |items| == old(|items|)
      ensures forall k :: n <= k < |items| ==> items[k] == old(items[k])
      ensures OrderedAround(j, n) && items[i].deadline <= items[j].deadline
    {
      Swap(i, j);
    }

    method Down(start: nat, n: nat) returns (moved: bool)
      requires start < n <= |items| && Indexed()
      requires OrderedAround(start, n)
      modifies this, nodes`heapIndex
      ensures Indexed() && nodes == old(nodes) && |items| == old(|items|)
      ensures forall k :: n <= k < |items| ==> items[k] == old(items[k])
      ensures moved ==> OrderedUpTo(n)
      ensures !moved ==> OrderedAround(start, n) && ChildrenAbove(start, n)
    {
      var i: nat := start;
      while true
        invariant start <= i < n <= |items| == old(|items|) && Indexed() && nodes == old(nodes)
        invariant forall k :: n <= k < |items| ==> items[k] == old(items[k])
        invariant OrderedAround(i, n)
        invariant i > start ==> items[Parent(i)].deadline <= items[i].deadline
        decreases n - i
      {
        if 2 * i + 1 >= n {
          Children(i, n);
          break;
        }
        var j := EarlierChild(i, n);
        if !Less(j, i) {
          break;
        }
        SinkOnce(i, j, n);
        i := j;
      }
      moved := i > start;
      if moved {
        assert OrderedUpTo(n);
      }
    }

    method PushLast(e: AggregatedEvent)
      requires Indexed() && e !in nodes
      modifies this, e`heapIndex
      ensures Indexed() && items == old(items) + [e] && nodes == old(nodes) + {e}
    {
      e.heapIndex := |items|;
      items, nodes := items + [e], nodes + {e};
    }

    method PopLast() returns (e: AggregatedEvent)
      requires Indexed() && items != []
      modifies this, nodes`heapIndex
      ensures Indexed() && items == old(items)[..|old(items)| - 1] && nodes == old(nodes) - {e}
      ensures e == old(items)[|old(items)| - 1] && e.heapIndex == -1
    {
      var last := |items| - 1;
      e := items[last];
      e.heapIndex := -1;
      items, nodes := items[..last], nodes - {e};
    }

    method Push(e: AggregatedEvent)
      requires Indexed() && Ordered() && e !in nodes
      modifies this, nodes`heapIndex, e`heapIndex
      ensures Indexed() && Ordered() && nodes == old(nodes) + {e}
    {
      PushLast(e);
      Up(|items| - 1, |items|);
    }

    /** Restores the order after the deadline at `i` has changed either way. */
    method Fix(i: nat)
      requires i < |items| && Indexed() && OrderedAround(i, |items|)
      modifies this, nodes`heapIndex
      ensures Indexed() && Ordered() && nodes == old(nodes)
    {
      var moved := Down(i, |items|);
      if !moved {
        Up(i, |items|);
      }
    }

    /** Moves the node at `i` behind the first `n` and restores their order. */
    method MoveLast(i: nat, n: nat)
      requires i < n == |items| - 1 && Indexed() && Ordered()
      modifies this, nodes`heapIndex
      ensures Indexed() && nodes == old(nodes) && |items| == n + 1
      ensures items[n] == old(items[i]) && OrderedUpTo(n)
    {
      Swap(i, n);
      assert OrderedAround(i, n);
      var moved := Down(i, n);
      if !moved {
        Up(i, n);
      }
    }

    method Remove(i: nat) returns (e: AggregatedEvent)
      requires i < |items| && Indexed() && Ordered()
      modifies this, nodes`heapIndex
      ensures Indexed() && Ordered()
      ensures e == old(items[i]) && e.heapIndex == -1
      ensures nodes == old(nodes) - {e}
    {
      var n := |items| - 1;
      if n != i {
        MoveLast(i, n);
      }
      e := PopLast();
    }

    method PopMin() returns (e: AggregatedEvent)
      requires items != [] && Indexed() && Ordered()
      modifies this, nodes`heapIndex
      ensures Indexed() && Ordered()
      ensures e == old(items[0]) && e.heapIndex == -1 && |items| == |old(items)| - 1
      ensures nodes == old(nodes) - {e}
    {
      var n := |items| - 1;
      Swap(0, n);
      if n > 0 {
        var _ := Down(0, n);
      }
      e := PopLast();
    }

    /** The root has a least deadline. */
    lemma {:induction false} RootIsMin(i: nat)
      requires Ordered() && i < |items|
      ensures items[0].deadline <= items[i].deadline
      decreases i
    {
      if i > 0 {
        RootIsMin(Parent(i));
      }
    }
  }
}
