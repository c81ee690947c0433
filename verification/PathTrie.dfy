/**
 A prefix tree over path components, built from linked nodes. Both indexes of the program have this shape:
 descriptors by directory and watch roots by path. The ghost map `nodes` names every node by its component path.
 */
module PathTrie {
  import opened Wrappers

  type Key = seq<string>

  class TrieNode<V> {
    var children: map<string, TrieNode<V>>
    var value: Option<V>

    constructor ()
      ensures children == map[] && value == None
    {
      children, value := map[], None;
    }
  }

  lemma LastComponent(a: Key, p: string, b: Key, q: string)
    ensures a + [p] == b + [q] <==> a == b && p == q
  {
    if a + [p] == b + [q] {
      assert a == (a + [p])[..|a|] && b == (b + [q])[..|b|];
      assert p == (a + [p])[|a|] && q == (b + [q])[|b|];
    }
  }

  /** Whatever holds a key holds its prefixes. */
  ghost predicate PrefixClosed<V>(m: map<Key, V>) {
    forall a, k :: a in m && 0 <= k <= |a| ==> a[..k] in m
  }

  lemma PrefixesKept<V>(m: map<Key, V>, at: Key, part: string, v: V)
    requires at in m && PrefixClosed(m)
    ensures PrefixClosed(m[at + [part] := v])
  {
    var key := at + [part];
    assert forall k :: 0 <= k <= |key| ==> key[..k] == if k <= |at| then at[..k] else key;
  }

  lemma ValuesExtended<V>(m: map<Key, V>, key: Key, v: V)
    requires key !in m
    ensures m[key := v].Values == m.Values + {v}
  {
    assert m[key := v][key] == v;
    assert forall a :: a in m ==> m[key := v][a] == m[a];
  }

  class Trie<V> {
    const root: TrieNode<V>
    ghost var nodes: map<Key, TrieNode<V>>
    ghost var contents: map<Key, V>

    constructor ()
      ensures Valid() && contents == map[] && fresh(root) && fresh(nodes.Values)
    {
      var node := new TrieNode<V>();
      root := node;
      nodes, contents := map[[] := node], map[];
    }

    /** The children of the node at `at` are exactly the nodes one component further. */
    ghost predicate Linked(at: Key)
      requires at in nodes
      reads this, nodes.Values
    {
      forall part :: (part in nodes[at].children <==> at + [part] in nodes)
                     && (part in nodes[at].children ==> nodes[at].children[part] == nodes[at + [part]])
    }

    /** The values in the nodes are the contents. */
    ghost predicate Labelled()
      reads this`nodes, this`contents, nodes.Values`value
    {
      && contents.Keys <= nodes.Keys
      && forall a :: a in nodes ==> nodes[a].value == if a in contents then Some(contents[a]) else None
    }

    ghost predicate Valid()
      reads this, nodes.Values
    {
      && [] in nodes && nodes[[]] == root
      && PrefixClosed(nodes)
      && (forall a, b :: a in nodes && b in nodes && a != b ==> nodes[a] != nodes[b])
      && (forall a {:trigger Linked(a)} :: a in nodes ==> Linked(a))
      && Labelled()
    }

    method Extend(node: TrieNode<V>, ghost at: Key, part: string, child: TrieNode<V>)
      requires Valid() && at in nodes && nodes[at] == node && at + [part] !in nodes
      requires child !in nodes.Values && child.children == map[] && child.value == None
      modifies this`nodes, node`children
      ensures Valid()
      ensures nodes == old(nodes)[at + [part] := child]
      ensures nodes.Values == old(nodes.Values) + {child}
    {
      ghost var key := at + [part];
      forall more ensures key + [more] !in nodes {
        assert (key + [more])[..|key|] == key;
      }
      node.children := node.children[part := child];
      nodes := nodes[key := child];
      assert Labelled();
      ValuesExtended(old(nodes), key, child);
      assert forall a :: a in old(nodes) ==> nodes[a] == old(nodes)[a] && old(nodes)[a] != child;
      PrefixesKept(old(nodes), at, part, child);
      forall a | a in nodes ensures Linked(a) {
        if a != key {
          assert old(Linked(a));
          forall p ensures a + [p] == key <==> a == at && p == part {
            LastComponent(a, p, at, part);
          }
        }
      }
    }

    /** The child for one component, created if missing. */
    method Child(node: TrieNode<V>, ghost at: Key, part: string) returns (child: TrieNode<V>)
      requires Valid() && at in nodes && nodes[at] == node
      modifies this`nodes, node`children
      ensures Valid()
      ensures nodes == if at + [part] in old(nodes) then old(nodes) else old(nodes)[at + [part] := child]
      ensures at + [part] in nodes && nodes[at + [part]] == child
      ensures nodes.Values >= old(nodes.Values) && fresh(nodes.Values - old(nodes.Values))
    {
      assert Linked(at);
      if part !in node.children {
        child := new TrieNode<V>();
        Extend(node, at, part, child);
      } else {
        child := node.children[part];
      }
    }

    method SetValue(node: TrieNode<V>, ghost at: Key, v: V)
      requires Valid() && at in nodes && nodes[at] == node
      modifies this`contents, node`value
      ensures Valid() && contents == old(contents)[at := v]
    {
      node.value := Some(v);
      contents := contents[at := v];
      forall a | a in nodes ensures Linked(a) {
        assert old(Linked(a));
      }
    }

    /** Follows the components from a node, creating what is missing, and sets the value there. */
    method Insert(parts: Key, v: V)
      requires Valid()
      modifies this, nodes.Values
      ensures Valid() && contents == old(contents)[parts := v]
      ensures nodes.Values >= old(nodes.Values) && fresh(nodes.Values - old(nodes.Values))
    {
      var node := root;
      for i := 0 to |parts|
        invariant Valid() && contents == old(contents)
        invariant parts[..i] in nodes && nodes[parts[..i]] == node
        invariant nodes.Values >= old(nodes.Values) && fresh(nodes.Values - old(nodes.Values))
      {
        assert parts[..i + 1] == parts[..i] + [parts[i]];
        node := Child(node, parts[..i], parts[i]);
      }
      assert parts[..|parts|] == parts;
      SetValue(node, parts, v);
    }

    /** No node lies beyond a missing one. */
    lemma Unreachable(parts: Key, k: nat)
      requires Valid() && k <= |parts| && parts[..k] !in nodes
      ensures forall m :: k <= m <= |parts| ==> parts[..m] !in nodes
      ensures parts !in nodes
    {
      assert forall m | k <= m <= |parts| :: parts[..m][..k] == parts[..k];
      assert parts[..|parts|] == parts;
    }

    /** The node at the end of the components, or null if the path leaves the tree. */
    method FindNode(parts: Key) returns (found: TrieNode?<V>)
      requires Valid()
      ensures found == null <==> parts !in nodes
      ensures found != null ==> found == nodes[parts]
      ensures found == null ==> parts !in contents
      ensures found != null ==> found.value == if parts in contents then Some(contents[parts]) else None
    {
      var node := root;
      for i := 0 to |parts|
        invariant parts[..i] in nodes && nodes[parts[..i]] == node
      {
        assert Linked(parts[..i]);
        assert parts[..i + 1] == parts[..i] + [parts[i]];
        if parts[i] !in node.children {
          Unreachable(parts, i + 1);
          return null;
        }
        node := node.children[parts[i]];
      }
      assert parts[..|parts|] == parts;
      found := node;
    }
  }
}
