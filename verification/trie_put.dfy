/**
 * What `Trie::Put<T>` (trie/src.hpp:135-157) does to the contents and the
 * shape of a trie: the path to the key is rebuilt, everything off the path
 * is shared, and the new value node keeps the children of the node it
 * replaces.
 */
module TriePut {
  import opened Wrappers
  import opened CowTrie

  /** The children of the node at the end of `key`, or none when there is no such node. */
  function ChildrenAt(n: Node, key: string): map<char, Node>
  {
    match Descend(n, key)
    case None => map[]
    case Some(m) => m.children
  }

  /** The node at the end of the path carries the new value and the old node's children. */
  lemma {:induction false} PutNodeTerminal(n: Node, key: string, v: Value)
    requires key != []
    ensures Descend(PutNode(n, key, v), key) == Some(Node(ChildrenAt(n, key), Some(v)))
    decreases |key|
  {
    var existing := ChildOrEmpty(n, key[0]);
    if |key| == 1 {
      assert key[1..] == [];
      assert Descend(n, key) == if key[0] in n.children then Some(existing) else None;
    } else {
      PutNodeTerminal(existing, key[1..], v);
    }
  }

  /** A path that is not a prefix of `key` reaches the very same node as before. */
  lemma {:induction false} PutNodeOffPath(n: Node, key: string, v: Value, other: string)
    requires key != [] && !(other <= key)
    ensures Descend(PutNode(n, key, v), other) == Descend(n, other)
    decreases |key|
  {
    var c := key[0];
    var existing := ChildOrEmpty(n, c);
    if other[0] == c {
      assert other[1..] != [];
      if |key| == 1 {
        assert Descend(Node(existing.children, Some(v)), other[1..]) == Descend(existing, other[1..]);
      } else {
        assert !(other[1..] <= key[1..]);
        PutNodeOffPath(existing, key[1..], v, other[1..]);
      }
    }
  }

  /** A node on the path (above its end) still exists and keeps its value. */
  lemma {:induction false} PutNodeOnPath(n: Node, key: string, v: Value, p: string)
    requires key != [] && p < key
    ensures Descend(PutNode(n, key, v), p).Some?
    ensures Lookup(PutNode(n, key, v), p) == Lookup(n, p)
    decreases |key|
  {
    if p != [] {
      var existing := ChildOrEmpty(n, key[0]);
      assert p[0] == key[0];
      assert p[1..] < key[1..];
      PutNodeOnPath(existing, key[1..], v, p[1..]);
    }
  }

  /** `PutNode` keeps the pruning invariant below the node and leaves the node itself live. */
  lemma {:induction false} PutNodePruned(n: Node, key: string, v: Value)
    requires key != [] && Pruned(n)
    ensures Pruned(PutNode(n, key, v)) && Live(PutNode(n, key, v))
    decreases |key|
  {
    var c := key[0];
    var existing := ChildOrEmpty(n, c);
    assert Pruned(existing);
    if |key| > 1 {
      PutNodePruned(existing, key[1..], v);
    } else {
      assert Pruned(Node(existing.children, Some(v)));
    }
    assert c in PutNode(n, key, v).children;
  }

  /**
   * Round trip, overwrite and type isolation: after `Put(key, v)` with a
   * non-empty key, `key` holds `v` whether or not it was present, `Get` of
   * `v`'s type yields its payload and `Get` of any other type is absent.
   * The node installed there is a value node keeping the children of the
   * node it replaces (none if there was none), so longer keys survive.
   */
  lemma PutThenGet(t: Trie, key: string, v: Value, id: RootId, tag: TypeTag)
    requires key != []
    ensures Find(Put(t, key, v, id), key) == Some(v)
    ensures Get(Put(t, key, v, id), key, tag) == if tag == v.tag then Some(v.payload) else None
    ensures Descend(Put(t, key, v, id).root, key) == Some(Node(ChildrenAt(RootNode(t), key), Some(v)))
  {
    PutNodeTerminal(RootNode(t), key, v);
  }

  /**
   * As coded, `Put` with the empty key stores nothing: the loop does not run
   * and the result is a bare clone of the root, so a later `Get` of the empty
   * key still sees whatever was there before (nothing, in an empty trie).
   */
  lemma PutEmptyKeyStoresNothing(t: Trie, v: Value, id: RootId)
    ensures Put(t, [], v, id).root == RootNode(t)
    ensures Find(Put(t, [], v, id), []) == Find(t, [])
    ensures Get(Put(Empty, [], v, id), [], v.tag) == None
  {
  }

  /**
   * The insertion the comment describes: the round trip holds for every key,
   * the empty one included, and every other key is left as it was.
   */
  lemma PutIntendedThenGet(t: Trie, key: string, v: Value, id: RootId, other: string)
    ensures Find(PutIntended(t, key, v, id), key) == Some(v)
    ensures forall tag :: Get(PutIntended(t, key, v, id), key, tag)
                         == if tag == v.tag then Some(v.payload) else None
    ensures other != key ==> Find(PutIntended(t, key, v, id), other) == Find(t, other)
  {
    if key == [] {
      assert Find(t, other) == Lookup(RootNode(t), other);
      if other != [] {
        assert Descend(Node(RootNode(t).children, Some(v)), other) == Descend(RootNode(t), other);
      }
    } else {
      PutThenGet(t, key, v, id, v.tag);
      if other != key {
        PutKeepsOtherKeys(t, key, v, id, other);
      }
    }
  }

  /**
   * `Put(key, v)` leaves every other key as it was: keys that extend `key`,
   * keys that are prefixes of it, and unrelated keys. With the empty key
   * nothing at all is stored.
   */
  lemma PutKeepsOtherKeys(t: Trie, key: string, v: Value, id: RootId, other: string)
    requires other != key || key == []
    ensures Find(Put(t, key, v, id), other) == Find(t, other)
    ensures forall tag :: Get(Put(t, key, v, id), other, tag) == Get(t, other, tag)
  {
    assert Find(t, other) == Lookup(RootNode(t), other);
    if key != [] {
      if other <= key {
        PutNodeOnPath(RootNode(t), key, v, other);
      } else {
        PutNodeOffPath(RootNode(t), key, v, other);
      }
    }
  }

  /**
   * Structural sharing: at every depth of the path, each edge that leaves
   * the path leads to the same subtree as in the receiver (at depth 0: every
   * root child under a character other than `key[0]` is the old child).
   */
  lemma PutSharesOffPath(t: Trie, key: string, v: Value, id: RootId, i: nat, c: char)
    requires i < |key| && c != key[i]
    ensures Descend(Put(t, key, v, id).root, key[..i] + [c]) == Descend(RootNode(t), key[..i] + [c])
  {
    var other := key[..i] + [c];
    assert other[i] != key[i];
    PutNodeOffPath(RootNode(t), key, v, other);
  }

  /** `Put` keeps the pruning invariant: every non-root node carries a value or has a child. */
  lemma PutPreservesWellFormed(t: Trie, key: string, v: Value, id: RootId)
    requires WellFormed(t)
    ensures WellFormed(Put(t, key, v, id))
  {
    assert Pruned(RootNode(t));
    if key != [] {
      PutNodePruned(RootNode(t), key, v);
    }
  }
}
