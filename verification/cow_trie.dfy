/**
 * The copy-on-write prefix tree of trie/src.hpp: its nodes, the persistent
 * `Trie` handle and the operations `Get`, `Put` and `Remove`.
 *
 * Nodes are immutable values, so "sharing a subtree with the old tree" is
 * equality of subtree values. Only the identity of a root is observable in
 * the source (`Trie::operator==` compares root pointers), so a rooted trie
 * carries the identity of its root node; a caller supplies a fresh identity
 * wherever the source allocates a new root.
 */
module CowTrie {
  import opened Wrappers

  /** The runtime type of a stored value: stands for the `T` of `TrieNodeWithValue<T>`. */
  type TypeTag = nat

  /** The stored object itself; its contents do not matter to the tree. */
  type Payload = int

  /** A type-erased value: what a `TrieNodeWithValue<T>` holds, together with its `T`. */
  datatype Value = Tagged(tag: TypeTag, payload: Payload)

  /**
   * A trie node. `value.None?` is a plain `TrieNode`, `value.Some?` a
   * `TrieNodeWithValue<T>` (its `is_value_node_` flag is `value.Some?`).
   */
  datatype Node = Node(children: map<char, Node>, value: Option<Value>)

  /** `TrieNode()`: no children, no value. */
  const EmptyNode := Node(map[], None)

  /** The identity of an allocated root node (the pointer compared by `operator==`). */
  type RootId = nat

  /** A trie handle: a null root, or a root node together with its identity. */
  datatype Trie = Empty | Rooted(id: RootId, root: Node)

  /** The result of the source's `Get` as written, where a type mismatch dereferences null. */
  datatype Outcome = Found(payload: Payload) | Absent | NullDeref

  // ---------------------------------------------------------------------------
  // Reading

  /** The node reached from `n` by following one child edge per character of `key`. */
  function Descend(n: Node, key: string): Option<Node>
  {
    if key == [] then Some(n)
    else if key[0] in n.children then Descend(n.children[key[0]], key[1..])
    else None
  }

  /** The value stored under `key` below `n`, whatever its type. */
  function Lookup(n: Node, key: string): Option<Value>
  {
    match Descend(n, key)
    case None => None
    case Some(m) => m.value
  }

  /** `Lookup` below a node that may have been pruned away (null). */
  function LookupOpt(o: Option<Node>, key: string): Option<Value>
  {
    match o
    case None => None
    case Some(n) => Lookup(n, key)
  }

  /** The contents of a trie: the value stored under `key`, whatever its type. */
  function Find(t: Trie, key: string): Option<Value>
  {
    match t
    case Empty => None
    case Rooted(_, root) => Lookup(root, key)
  }

  /**
   * `Trie::Get<T>` as documented: the payload stored under `key` when it has
   * type `tag`; absent for a null root, a missing edge, a node without a
   * value, and a value of another type.
   */
  function Get(t: Trie, key: string, tag: TypeTag): Option<Payload>
  {
    match Find(t, key)
    case None => None
    case Some(v) => if v.tag == tag then Some(v.payload) else None
  }

  /**
   * `Trie::Get<T>` as coded: on a type mismatch the failed
   * `dynamic_pointer_cast` yields null and is dereferenced.
   */
  function GetAsWritten(t: Trie, key: string, tag: TypeTag): Outcome
  {
    match Find(t, key)
    case None => Absent
    case Some(v) => if v.tag == tag then Found(v.payload) else NullDeref
  }

  /**
   * The loop of `Trie::Get<T>`: walk one child edge per key character, then
   * inspect the node reached.
   */
  method WalkGet(t: Trie, key: string, tag: TypeTag) returns (r: Option<Payload>)
    ensures r == Get(t, key, tag)
  {
    if t.Empty? {
      return None;
    }
    var node := t.root;
    var i := 0;
    while i < |key|
      invariant 0 <= i <= |key|
      invariant Descend(t.root, key) == Descend(node, key[i..])
    {
      var c := key[i];
      assert key[i..][1..] == key[i + 1..];
      if c !in node.children {
        return None;
      }
      node := node.children[c];
      i := i + 1;
    }
    match node.value
    case None =>
      r := None;
    case Some(v) =>
      r := if v.tag == tag then Some(v.payload) else None;
  }

  /** `Trie::operator==`: the same root pointer (both null, or one allocation). */
  predicate SameVersion(a: Trie, b: Trie)
  {
    match (a, b)
    case (Empty, Empty) => true
    case (Rooted(i, _), Rooted(j, _)) => i == j
    case _ => false
  }

  // ---------------------------------------------------------------------------
  // Cloning and writing

  /** The root node a write starts from: the root, or a fresh `TrieNode()` for a null root. */
  function RootNode(t: Trie): Node
  {
    if t.Empty? then EmptyNode else t.root
  }

  /**
   * `root_ ? root_->Clone() : make_unique<TrieNode>()`: a new root allocation
   * with identity `id`. `Clone` keeps the children map (sharing the children)
   * and the value, so the clone holds exactly the contents of `t`.
   */
  function CloneRoot(t: Trie, id: RootId): (r: Trie)
    ensures r.Rooted? && r.id == id
    ensures forall key :: Find(r, key) == Find(t, key)
  {
    Rooted(id, RootNode(t))
  }

  /** The child under `c`, or a fresh `TrieNode()` when there is none. */
  function ChildOrEmpty(n: Node, c: char): Node
  {
    if c in n.children then n.children[c] else EmptyNode
  }

  /**
   * One step of the `Put` loop and everything below it: the cloned node `n`
   * gets a new child for `key[0]`; on the last character that child is a
   * value node keeping the old child's children, otherwise a clone of the
   * old child (or a fresh node) that the loop continues into.
   */
  function PutNode(n: Node, key: string, v: Value): Node
    requires key != []
    decreases |key|
  {
    var c := key[0];
    var existing := ChildOrEmpty(n, c);
    var child := if |key| == 1 then Node(existing.children, Some(v))
                 else PutNode(existing, key[1..], v);
    Node(n.children[c := child], n.value)
  }

  /**
   * `Trie::Put<T>`: a trie with root identity `id`. With the empty key the
   * loop does not run and the result is just the cloned root.
   */
  function Put(t: Trie, key: string, v: Value, id: RootId): (r: Trie)
    ensures r.Rooted? && r.id == id
  {
    var clone := CloneRoot(t, id);
    if key == [] then clone else Rooted(id, PutNode(clone.root, key, v))
  }

  /**
   * Insertion as its comment promises it ("put a new key-value pair"): for
   * the empty key the cloned root itself becomes a value node keeping its
   * children; every other key goes through the source's `Put`.
   */
  function PutIntended(t: Trie, key: string, v: Value, id: RootId): Trie
  {
    if key == [] then Rooted(id, Node(RootNode(t).children, Some(v))) else Put(t, key, v, id)
  }

  /**
   * The recursive `Trie::Remove(node, pos, key)` on an already cloned node:
   * `None` is the null pointer that tells the parent to drop its edge. The
   * root (`pos == 0`) is never dropped.
   */
  function RemoveNode(node: Node, key: string, pos: nat): (r: Option<Node>)
    requires pos <= |key|
    ensures pos == 0 ==> r.Some?
    decreases |key| - pos
  {
    if pos == |key| then
      if node.value.None? then Some(node)
      else if pos != 0 && node.children == map[] then None
      else Some(Node(node.children, None))
    else
      var c := key[pos];
      if c !in node.children then Some(node)
      else
        var children := match RemoveNode(node.children[c], key, pos + 1)
                        case None => node.children - {c}
                        case Some(child) => node.children[c := child];
        if pos != 0 && children == map[] && node.value.None? then None
        else Some(Node(children, node.value))
  }

  /**
   * `Trie::Remove(key)`: recurse from a clone of the root (a fresh node for a
   * null root) and wrap the result, which is never null, with identity `id`.
   */
  function Remove(t: Trie, key: string, id: RootId): (r: Trie)
    ensures r.Rooted? && r.id == id
  {
    var clone := CloneRoot(t, id);
    Rooted(id, RemoveNode(clone.root, key, 0).value)
  }

  /**
   * Removal as its comments promise it ("if the key does not exist, return
   * the original trie"): the receiver itself when nothing is stored under
   * `key`, otherwise the source's removal.
   */
  function RemoveIntended(t: Trie, key: string, id: RootId): Trie
  {
    if Find(t, key).None? then t else Remove(t, key, id)
  }

  // ---------------------------------------------------------------------------
  // The pruning invariant

  /** A node worth keeping: it carries a value or has a child. */
  predicate Live(n: Node)
  {
    n.value.Some? || n.children != map[]
  }

  /** Every node strictly below `n` is live. */
  ghost predicate Pruned(n: Node)
    decreases n
  {
    forall c :: c in n.children ==> Live(n.children[c]) && Pruned(n.children[c])
  }

  /** Every non-root node of the trie is live. */
  ghost predicate WellFormed(t: Trie)
  {
    t.Rooted? ==> Pruned(t.root)
  }

  // ---------------------------------------------------------------------------
  // Properties of reading

  /** Walking `p` and then `q` reaches the node that walking `p + q` reaches. */
  lemma {:induction false} DescendAppend(n: Node, p: string, q: string)
    ensures Descend(n, p + q) == (match Descend(n, p)
                                  case None => None
                                  case Some(m) => Descend(m, q))
    decreases |p|
  {
    if p == [] {
      assert p + q == q;
    } else {
      assert (p + q)[0] == p[0];
      assert (p + q)[1..] == p[1..] + q;
      if p[0] in n.children {
        DescendAppend(n.children[p[0]], p[1..], q);
      }
    }
  }

  /** The walk for `key` reaches depth `i` but finds no child edge for `key[i]`. */
  predicate MissingEdge(n: Node, key: string, i: nat)
  {
    i < |key| && Descend(n, key[..i]).Some? && key[i] !in Descend(n, key[..i]).value.children
  }

  /**
   * Every way `Get` comes back absent: a null root, a key character without
   * a child edge, a terminal node without a value, a value of another type.
   */
  lemma GetAbsentCases(t: Trie, key: string, tag: TypeTag)
    ensures t.Empty? ==> Get(t, key, tag) == None
    ensures t.Rooted? && (exists i: nat :: MissingEdge(t.root, key, i)) ==> Get(t, key, tag) == None
    ensures t.Rooted? && Descend(t.root, key).Some? && Descend(t.root, key).value.value.None?
            ==> Get(t, key, tag) == None
    ensures Find(t, key).Some? && Find(t, key).value.tag != tag ==> Get(t, key, tag) == None
  {
    if t.Rooted? && exists i: nat :: MissingEdge(t.root, key, i) {
      var i: nat :| MissingEdge(t.root, key, i);
      assert key == key[..i] + key[i..];
      DescendAppend(t.root, key[..i], key[i..]);
    }
  }

  /**
   * The coded `Get` faults exactly on a type mismatch and agrees with the
   * documented `Get` everywhere else.
   */
  lemma GetAsWrittenFaults(t: Trie, key: string, tag: TypeTag)
    ensures GetAsWritten(t, key, tag) == NullDeref
            <==> Find(t, key).Some? && Find(t, key).value.tag != tag
    ensures GetAsWritten(t, key, tag) == Absent ==> Get(t, key, tag) == None
    ensures forall p :: GetAsWritten(t, key, tag) == Found(p) <==> Get(t, key, tag) == Some(p)
  {
  }

  /** A value stored with one type and read back with another makes the coded `Get` fault. */
  lemma GetAsWrittenFaultExample()
    ensures GetAsWritten(Put(Empty, "k", Tagged(0, 7), 0), "k", 1) == NullDeref
  {
  }
}
