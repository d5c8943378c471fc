/**
 * What `Trie::Remove` (trie/src.hpp:161-191) does: the value under the key
 * goes, every other key keeps its value, branches left without values are
 * pruned back toward the root, and the result always has a new root.
 */
module TrieRemove {
  import opened Wrappers
  import opened CowTrie

  /**
   * Below a removal at depth `pos`, the suffix `key[pos..]` holds nothing and
   * every other path holds what it held before.
   */
  lemma {:induction false} RemoveNodeLookup(node: Node, key: string, pos: nat, q: string)
    requires pos <= |key|
    ensures LookupOpt(RemoveNode(node, key, pos), q)
            == if q == key[pos..] then None else Lookup(node, q)
    decreases |key| - pos
  {
    if pos == |key| {
      if q != [] {
        assert Descend(Node(node.children, None), q) == Descend(node, q);
      }
    } else {
      var c := key[pos];
      assert key[pos..][0] == c && key[pos..][1..] == key[pos + 1..];
      if c in node.children {
        var child := node.children[c];
        var cr := RemoveNode(child, key, pos + 1);
        var children := match cr
                        case None => node.children - {c}
                        case Some(x) => node.children[c := x];
        var r := RemoveNode(node, key, pos);
        assert r == if pos != 0 && children == map[] && node.value.None? then None
                    else Some(Node(children, node.value));
        if q != [] && q[0] == c {
          RemoveNodeLookup(child, key, pos + 1, q[1..]);
          assert q == key[pos..] <==> q[1..] == key[pos + 1..] by {
            assert q == [c] + q[1..] && key[pos..] == [c] + key[pos + 1..];
          }
          assert Lookup(node, q) == Lookup(child, q[1..]);
          assert cr.Some? ==> c in children;
          if r.Some? {
            assert Lookup(r.value, q) == LookupOpt(cr, q[1..]);
          }
        } else if q != [] {
          assert q != key[pos..];
          if r.Some? {
            assert Descend(r.value, q) == Descend(node, q);
          } else {
            assert q[0] !in children;
          }
        }
      }
    }
  }

  /** When nothing is stored under `key[pos..]`, the removal gives back the node itself. */
  lemma {:induction false} RemoveNodeAbsent(node: Node, key: string, pos: nat)
    requires pos <= |key| && Lookup(node, key[pos..]) == None
    ensures RemoveNode(node, key, pos) == Some(node)
    decreases |key| - pos
  {
    if pos < |key| {
      var c := key[pos];
      assert key[pos..][0] == c && key[pos..][1..] == key[pos + 1..];
      if c in node.children {
        RemoveNodeAbsent(node.children[c], key, pos + 1);
        assert node.children[c := node.children[c]] == node.children;
      }
    }
  }

  /**
   * Removal keeps the pruning invariant; a non-root node that survives is
   * live, so a node left without value and children is always dropped.
   */
  lemma {:induction false} RemoveNodePruned(node: Node, key: string, pos: nat)
    requires pos <= |key| && Pruned(node) && (pos != 0 ==> Live(node))
    ensures RemoveNode(node, key, pos).Some? ==>
              Pruned(RemoveNode(node, key, pos).value)
              && (pos != 0 ==> Live(RemoveNode(node, key, pos).value))
    decreases |key| - pos
  {
    if pos < |key| {
      var c := key[pos];
      if c in node.children {
        RemoveNodePruned(node.children[c], key, pos + 1);
      }
    }
  }

  /**
   * Removing `key` empties it and leaves every other key (and, through
   * `Get`, every typed read of it) as it was.
   */
  lemma RemoveThenFind(t: Trie, key: string, id: RootId, other: string)
    ensures Find(Remove(t, key, id), other) == if other == key then None else Find(t, other)
    ensures forall tag :: Get(Remove(t, key, id), other, tag)
                         == if other == key then None else Get(t, other, tag)
  {
    assert key[0..] == key;
    assert Find(t, other) == Lookup(RootNode(t), other);
    RemoveNodeLookup(RootNode(t), key, 0, other);
  }

  /**
   * Removing an absent key rebuilds the receiver's tree exactly, under a new
   * root identity: the contents are unchanged.
   */
  lemma RemoveAbsent(t: Trie, key: string, id: RootId)
    requires Find(t, key) == None
    ensures Remove(t, key, id) == Rooted(id, RootNode(t))
  {
    assert key[0..] == key;
    RemoveNodeAbsent(RootNode(t), key, 0);
  }

  /**
   * `Remove` never returns the receiver's version: its root is always a new
   * allocation, even when the key is absent, so the identity test of the
   * versioned store never sees a no-op.
   */
  lemma RemoveNeverSameVersion(t: Trie, key: string, id: RootId)
    requires t.Rooted? ==> t.id != id
    ensures !SameVersion(Remove(t, key, id), t)
    ensures Find(t, key) == None ==> Remove(t, key, id).root == RootNode(t)
  {
    if Find(t, key) == None {
      RemoveAbsent(t, key, id);
    }
  }

  /** `Remove` keeps the pruning invariant. */
  lemma RemovePreservesWellFormed(t: Trie, key: string, id: RootId)
    requires WellFormed(t)
    ensures WellFormed(Remove(t, key, id))
  {
    assert Pruned(RootNode(t));
    RemoveNodePruned(RootNode(t), key, 0);
  }

  /**
   * Pruning undoes a fresh insertion: removing a key just put into a pruned
   * node where it was absent gives back that node, or drops it (`None`) when
   * it is a non-root node the insertion had created.
   */
  lemma {:induction false} RemoveNodeUndoesPutNode(n: Node, key: string, pos: nat, v: Value)
    requires pos < |key| && Pruned(n) && Lookup(n, key[pos..]) == None
    ensures RemoveNode(PutNode(n, key[pos..], v), key, pos)
            == if pos != 0 && !Live(n) then None else Some(n)
    decreases |key| - pos
  {
    var c := key[pos];
    var existing := ChildOrEmpty(n, c);
    assert key[pos..][0] == c && key[pos..][1..] == key[pos + 1..];
    assert Pruned(existing);
    var m := PutNode(n, key[pos..], v);
    var cr := RemoveNode(m.children[c], key, pos + 1);
    assert Lookup(existing, key[pos + 1..]) == None;
    if pos + 1 == |key| {
      assert existing.value == None;
      assert cr == if existing.children == map[] then None
                   else Some(Node(existing.children, None));
    } else {
      RemoveNodeUndoesPutNode(existing, key, pos + 1, v);
    }
    assert cr == if Live(existing) then Some(existing) else None;
    if c in n.children {
      assert Live(existing);
      assert m.children[c := existing] == n.children;
    } else {
      assert m.children - {c} == n.children;
    }
  }

  /**
   * Put followed by Remove of a key that was absent gives back the receiver's
   * tree exactly: every node the insertion created is pruned again.
   */
  lemma RemoveUndoesPut(t: Trie, key: string, v: Value, i: RootId, j: RootId)
    requires WellFormed(t) && Find(t, key) == None
    ensures Remove(Put(t, key, v, i), key, j) == Rooted(j, RootNode(t))
  {
    assert key[0..] == key;
    assert Pruned(RootNode(t));
    if key == [] {
      RemoveNodeAbsent(RootNode(t), key, 0);
    } else {
      RemoveNodeUndoesPutNode(RootNode(t), key, 0, v);
    }
  }

  /**
   * The removal the comments describe: with a fresh identity it yields the
   * receiver's own version exactly when the key is absent, and it has the
   * contents of the source's removal.
   */
  lemma RemoveIntendedSameVersion(t: Trie, key: string, id: RootId)
    requires t.Rooted? ==> t.id != id
    ensures SameVersion(RemoveIntended(t, key, id), t) <==> Find(t, key) == None
    ensures forall other :: Find(RemoveIntended(t, key, id), other)
                           == if other == key then None else Find(t, other)
  {
    forall other
      ensures Find(RemoveIntended(t, key, id), other) == if other == key then None else Find(t, other)
    {
      if Find(t, key) != None {
        RemoveThenFind(t, key, id, other);
      }
    }
  }
}
