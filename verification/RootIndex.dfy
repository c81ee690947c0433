/** The index of watch roots by path components and the lookup of the most specific root of a path. */
module RootIndex {
  import opened Events
  import opened PathTrie
  import opened Paths
  import opened Wrappers

  datatype WatchDepth = WatchNested | WatchTopLevel

  datatype WatchPath = WatchPath(path: CleanPath, requestedPath: string, depth: WatchDepth,
                                 filter: Option<string -> bool>, eventMask: set<EventType>)

  type Roots = map<string, WatchPath>

  /** Every root is stored under its own path. */
  ghost predicate Keyed(roots: Roots) {
    forall p :: p in roots ==> roots[p].path == p
  }

  lemma TokenAt(path: string, begin: nat, end: nat)
    requires begin < end <= |path| && (forall i :: begin <= i < end ==> path[i] != SEPARATOR)
    requires end < |path| ==> path[end] == SEPARATOR
    ensures Tokens(path[begin..]) == [path[begin..end]] + Tokens(path[end..])
  {
    var component := path[begin..end];
    FirstSegment(component, path[end..]);
    assert path[begin..] == component + path[end..];
    assert path[begin..][..|component|] == component;
    assert path[begin..][|component|..] == path[end..];
  }

  /** The next component at or after `start` and where it ends. */
  method PathComponent(path: string, start: nat) returns (component: string, end: nat)
    requires start <= |path|
    ensures start <= end <= |path|
    ensures component == "" ==> Tokens(path[start..]) == []
    ensures component != "" ==> Tokens(path[start..]) == [component] + Tokens(path[end..]) && start < end
  {
    var begin := start;
    while begin < |path| && path[begin] == SEPARATOR
      invariant start <= begin <= |path|
      invariant Tokens(path[begin..]) == Tokens(path[start..])
    {
      assert path[begin..][1..] == path[begin + 1..];
      begin := begin + 1;
    }
    end := begin;
    while end < |path| && path[end] != SEPARATOR
      invariant begin <= end <= |path|
      invariant forall i :: begin <= i < end ==> path[i] != SEPARATOR
    {
      end := end + 1;
    }
    component := path[begin..end];
    if begin < end {
      TokenAt(path, begin, end);
    }
  }

  /** The index holds exactly the roots, each under its components. */
  ghost predicate Indexes(contents: map<Key, WatchPath>, roots: Roots) {
    && (forall p :: p in roots ==> Tokens(p) in contents && contents[Tokens(p)] == roots[p])
    && (forall k :: k in contents ==> contents[k].path in roots && Tokens(contents[k].path) == k)
  }

  lemma OneRootLess(roots: Roots, rest: set<string>, path: string)
    requires Keyed(roots) && path in rest && rest <= roots.Keys
    ensures Keyed(roots - rest) && roots[path].path == path && path !in roots - rest
    ensures (roots - rest)[path := roots[path]] == roots - (rest - {path})
  {
  }

  lemma IndexesOneMore(contents: map<Key, WatchPath>, roots: Roots, w: WatchPath)
    requires Keyed(roots) && Indexes(contents, roots) && w.path !in roots
    ensures Indexes(contents[Tokens(w.path) := w], roots[w.path := w])
  {
  }

  /** The component that was read is the next one of the key. */
  lemma NextKey(key: Key, i: nat, component: string, tail: Key)
    requires i <= |key| && key[i..] == [component] + tail
    ensures i < |key| && key[..i + 1] == key[..i] + [component] && key[i + 1..] == tail
    ensures key[..i] + [component] <= key
  {
  }

  /** Walks the components of a root down the index, creating nodes. */
  method Reach(index: Trie<WatchPath>, path: string) returns (node: TrieNode<WatchPath>)
    requires index.Valid()
    modifies index`nodes, index.nodes.Values
    ensures index.Valid() && Tokens(path) in index.nodes && index.nodes[Tokens(path)] == node
    ensures index.nodes.Values >= old(index.nodes.Values) && fresh(index.nodes.Values - old(index.nodes.Values))
  {
    node := index.root;
    var offset := 0;
    ghost var key, i := Tokens(path), 0;
    assert path[0..] == path;
    while offset < |path|
      invariant 0 <= offset <= |path|
      invariant i <= |key| && Tokens(path[offset..]) == key[i..]
      invariant index.Valid() && key[..i] in index.nodes && index.nodes[key[..i]] == node
      invariant index.nodes.Values >= old(index.nodes.Values) && fresh(index.nodes.Values - old(index.nodes.Values))
    {
      var component, next := PathComponent(path, offset);
      offset := next;
      if component == "" {
        break;
      }
      NextKey(key, i, component, Tokens(path[next..]));
      node := index.Child(node, key[..i], component);
      i := i + 1;
    }
    assert key[..i] == key;
  }

  /** Sets a root at its node. */
  method InsertRoot(index: Trie<WatchPath>, path: string, w: WatchPath)
    requires index.Valid()
    modifies index, index.nodes.Values
    ensures index.Valid() && index.contents == old(index.contents)[Tokens(path) := w]
    ensures index.nodes.Values >= old(index.nodes.Values) && fresh(index.nodes.Values - old(index.nodes.Values))
  {
    var node := Reach(index, path);
    index.SetValue(node, Tokens(path), w);
  }

  method RebuildRootIndex(roots: Roots) returns (index: Trie<WatchPath>)
    requires Keyed(roots)
    ensures fresh(index) && fresh(index.nodes.Values) && index.Valid()
    ensures Indexes(index.contents, roots)
  {
    index := new Trie<WatchPath>();
    var rest := roots.Keys;
    while rest != {}
      invariant fresh(index) && fresh(index.nodes.Values) && index.Valid()
      invariant rest <= roots.Keys && Indexes(index.contents, roots - rest)
      decreases rest
    {
      var path :| path in rest;
      OneRootLess(roots, rest, path);
      IndexesOneMore(index.contents, roots - rest, roots[path]);
      InsertRoot(index, path, roots[path]);
      rest := rest - {path};
    }
    assert roots - {} == roots;
  }

  /** `w` is the value at the longest indexed prefix of `key`. */
  ghost predicate LongestPrefix(contents: map<Key, WatchPath>, key: Key, w: Option<WatchPath>) {
    match w
    case None => forall k :: 0 <= k <= |key| ==> key[..k] !in contents
    case Some(v) => exists k :: 0 <= k <= |key| && key[..k] in contents && contents[key[..k]] == v
                                && forall m :: k < m <= |key| ==> key[..m] !in contents
  }

  lemma LongestStep(contents: map<Key, WatchPath>, at: Key, component: string, best: Option<WatchPath>,
                    here: Option<WatchPath>)
    requires LongestPrefix(contents, at, best)
    requires here == if at + [component] in contents then Some(contents[at + [component]]) else None
    ensures LongestPrefix(contents, at + [component], if here != None then here else best)
  {
    var key := at + [component];
    assert key[..|key|] == key;
    assert forall k :: 0 <= k <= |at| ==> key[..k] == at[..k];
  }

  /** One component down the index, or null; the value found there replaces the best so far. */
  method Descend(index: Trie<WatchPath>, n: TrieNode<WatchPath>, ghost at: Key, component: string,
                   best: Option<WatchPath>)
      returns (child: TrieNode?<WatchPath>, better: Option<WatchPath>)
    requires index.Valid() && at in index.nodes && index.nodes[at] == n
    requires LongestPrefix(index.contents, at, best)
    ensures child == null ==> at + [component] !in index.nodes
    ensures child != null ==> at + [component] in index.nodes && index.nodes[at + [component]] == child
    ensures child != null ==> LongestPrefix(index.contents, at + [component], better)
  {
    assert index.Linked(at);
    better := best;
    if component !in n.children {
      return null, better;
    }
    child := n.children[component];
    LongestStep(index.contents, at, component, best, child.value);
    if child.value != None {
      better := child.value;
    }
  }

  /** Below a missing node nothing is indexed, so the best so far stays the best. */
  lemma LeavesIndex(index: Trie<WatchPath>, at: Key, component: string, key: Key, best: Option<WatchPath>)
    requires index.Valid() && LongestPrefix(index.contents, at, best)
    requires at + [component] <= key && at + [component] !in index.nodes
    ensures LongestPrefix(index.contents, key, best)
  {
    assert key[..|at| + 1] == at + [component];
    index.Unreachable(key, |at| + 1);
    assert forall k :: 0 <= k <= |at| ==> key[..k] == at[..k];
  }

  /** Walks the components of a path down the index as far as they lead; the last value passed is the best. */
  method Walk(index: Trie<WatchPath>, path: string) returns (best: Option<WatchPath>)
    requires index.Valid()
    ensures LongestPrefix(index.contents, Tokens(path), best)
  {
    var n := index.root;
    best := n.value;
    var offset := 0;
    ghost var key, i := Tokens(path), 0;
    assert path[0..] == path;
    assert key[..0][..0] == key[..0];
    while offset < |path|
      invariant 0 <= offset <= |path|
      invariant i <= |key| && Tokens(path[offset..]) == key[i..]
      invariant key[..i] in index.nodes && index.nodes[key[..i]] == n
      invariant LongestPrefix(index.contents, key[..i], best)
    {
      var component, next := PathComponent(path, offset);
      offset := next;
      if component == "" {
        break;
      }
      NextKey(key, i, component, Tokens(path[next..]));
      var child, better := Descend(index, n, key[..i], component, best);
      if child == null {
        LeavesIndex(index, key[..i], component, key, best);
        return;
      }
      n, best, i := child, better, i + 1;
    }
    assert key[..i] == key;
  }

  method Find(index: Trie<WatchPath>, path: string) returns (best: Option<WatchPath>)
    requires index.Valid()
    ensures !Rooted(path) ==> best == None
    ensures Rooted(path) ==> LongestPrefix(index.contents, Tokens(Clean(path)), best)
  {
    if !Rooted(path) {
      return None;
    }
    best := Walk(index, Clean(path));
  }

  // ---- The reference: a linear scan of the roots with equality or IsSubpath ----

  /** `w` is the root of `path` that lies inside every other root of it. */
  ghost predicate MostSpecific(roots: Roots, path: string, w: Option<WatchPath>) {
    match w
    case None => forall r :: r in roots ==> !Covers(r, path)
    case Some(v) => exists r :: r in roots && roots[r] == v && Covers(r, path)
                                && forall q :: q in roots && Covers(q, path) ==> Covers(q, r)
  }

  lemma NotIndexed(contents: map<Key, WatchPath>, r: WatchPath, path: CleanPath)
    requires Tokens(r.path) in contents
    requires forall k :: 0 <= k <= |Tokens(path)| ==> Tokens(path)[..k] !in contents
    ensures !Covers(r.path, path)
  {
    CoversIff(r.path, path);
    var m := |Tokens(r.path)|;
    assert m <= |Tokens(path)| ==> Tokens(path)[..m] != Tokens(r.path);
  }

  lemma DeepestInside(contents: map<Key, WatchPath>, q: WatchPath, path: CleanPath, k: nat)
    requires Tokens(q.path) in contents && Covers(q.path, path)
    requires k <= |Tokens(path)| && forall m :: k < m <= |Tokens(path)| ==> Tokens(path)[..m] !in contents
    ensures Tokens(q.path) <= Tokens(path)[..k]
  {
    CoversIff(q.path, path);
    var key := Tokens(path);
    var m := |Tokens(q.path)|;
    assert key[..m] == Tokens(q.path);
    assert m <= k;
    assert key[..k][..m] == key[..m];
  }

  /** The lookup in the index is the linear scan. */
  lemma LongestIsMostSpecific(contents: map<Key, WatchPath>, roots: Roots, path: CleanPath, w: Option<WatchPath>)
    requires Keyed(roots) && Indexes(contents, roots) && LongestPrefix(contents, Tokens(path), w)
    ensures MostSpecific(roots, path, w)
  {
    var key := Tokens(path);
    match w
    case None =>
      forall r | r in roots ensures !Covers(r, path) {
        NotIndexed(contents, roots[r], path);
      }
    case Some(v) =>
      var k :| 0 <= k <= |key| && key[..k] in contents && contents[key[..k]] == v
               && forall m :: k < m <= |key| ==> key[..m] !in contents;
      CoversIff(v.path, path);
      forall q | q in roots && Covers(q, path) ensures Covers(q, v.path) {
        DeepestInside(contents, roots[q], path, k);
        CoversIff(roots[q].path, v.path);
      }
      assert roots[v.path] == v;
  }

  lemma CoversAntisymmetric(p: CleanPath, q: CleanPath)
    requires Covers(p, q) && Covers(q, p)
    ensures p == q
  {
    CoversIff(p, q);
    CoversIff(q, p);
    TokensInjective(p, q);
  }

  /** The scan has only one answer. */
  lemma MostSpecificUnique(roots: Roots, path: CleanPath, v: Option<WatchPath>, w: Option<WatchPath>)
    requires Keyed(roots) && MostSpecific(roots, path, v) && MostSpecific(roots, path, w)
    ensures v == w
  {
    if v.Some? && w.Some? {
      var r :| r in roots && roots[r] == v.value && Covers(r, path)
               && forall q :: q in roots && Covers(q, path) ==> Covers(q, r);
      var t :| t in roots && roots[t] == w.value && Covers(t, path)
               && forall q :: q in roots && Covers(q, path) ==> Covers(q, t);
      CoversAntisymmetric(roots[r].path, roots[t].path);
    }
  }
}
