# Copy-on-write trie with a versioned snapshot store

This project models `trie/src.hpp`, a persistent (copy-on-write) prefix tree
from strings to values of arbitrary type, and `TrieStore`, a thin wrapper that
keeps every historical version of the tree in an append-only sequence.

- `wrappers.dfy` (module `Wrappers`): `Option`.
- `cow_trie.dfy` (module `CowTrie`): the nodes and operations.
  - A node is the value `Node(children: map<char, Node>, value: Option<Value>)`.
    A plain `TrieNode` has `value == None`. A `TrieNodeWithValue<T>` has
    `value == Some(Tagged(tag, payload))`, where the tag stands for `T`.
  - A `Trie` is `Empty` (null root) or `Rooted(id, root)`. The `id` is the
    identity of the root allocation, which `Trie::operator==` compares.
  - `Get` is the documented lookup. `WalkGet` is the source's loop, proved
    equal to `Get`. `GetAsWritten` is the lookup as coded.
  - `SameVersion` is `Trie::operator==`: both roots null, or the same root
    identity.
  - `Put` and `Remove` are pure functions that rebuild the path to the key.
    `PutNode` and `RemoveNode` mirror the source's loop and recursion.
    `PutIntended` and `RemoveIntended` are the behaviours the comments
    promise where the code differs (see "Findings").
  - `Pruned` and `WellFormed` state the pruning invariant: every non-root node
    carries a value or has a child.
- `trie_put.dfy` (module `TriePut`): lemmas about `Put`. They cover the round
  trip, overwrite, type isolation, every other key being unchanged,
  structural sharing off the path, the value node keeping its children, and
  pruning.
- `trie_remove.dfy` (module `TrieRemove`): lemmas about `Remove`. They cover
  emptying the key, every other key being unchanged, removal of an absent key,
  the fresh root identity, pruning, and `Remove` undoing a fresh `Put`.
- `versioned_store.dfy` (module `VersionedStore`): the class `TrieStore`.
  - It has a `seq<Trie>` field, plus the counter that supplies fresh root
    identities.
  - `Valid()` says that version 0 is empty, that later versions have distinct
    and increasing root identities, and that every snapshot is pruned.
  - `VersioningScenario` is a client that writes "x" twice and reads each
    version back.

`Trie::Put` and `Trie::Remove` are `const` and work on clones. Here they are
functions of immutable values, so the receiver cannot change. At the store
level, the `ensures` of `TrieStore.Put` and `TrieStore.Remove` keep every
earlier snapshot as it was.

Sharing a subtree with an older tree appears here as equality of subtree
values. The only identity the model keeps is the identity of roots, because
the source only observes the identity of roots (trie/src.hpp:195, :260). A
write that allocates a new root takes a fresh identity as a parameter. The
store draws these identities from `nextId`.

The comment on `Trie::Put` promises to insert the pair for any key
(trie/src.hpp:132), but for the empty key the loop never runs and nothing is
stored. The model follows the code here too.

The source's comments say that `Trie::Remove` returns the original trie when
the key is absent (trie/src.hpp:159). They also say that `TrieStore::Remove`
then keeps the version number unchanged (trie/src.hpp:253-254). The code does
neither, and the model follows the code. See "Findings".

## Model

| member | source | states |
|---|---|---|
| `CowTrie.WalkGet` | trie/src.hpp:113-130 | the walk returns exactly the documented lookup: absent for a null root, a missing edge or a node without a value; otherwise the payload when its type matches the requested one |
| `CowTrie.GetAbsentCases` | trie/src.hpp:108-129 | `Get` is absent whenever the walk meets a key character with no child edge at the depth it is reached (the case that needs a proof, through `DescendAppend`); it is also absent, by unfolding, for a null root, a terminal node without a value and a value of another type |
| `CowTrie.GetAsWrittenFaults` | trie/src.hpp:125-128 | the coded `Get` dereferences null exactly when the key holds a value of another type; everywhere else it agrees with the documented `Get` |
| `CowTrie.GetAsWrittenFaultExample` | trie/src.hpp:126-127 | a value stored with one type and read with another makes the coded `Get` fault |
| `CowTrie.DescendAppend` | trie/src.hpp:118-124 | walking `p` and then `q` reaches the same node as walking `p + q` |
| `CowTrie.CloneRoot` | trie/src.hpp:137 | a write's starting root is a new allocation (or a fresh empty node for a null root) whose contents equal the receiver's for every key |
| `CowTrie.Put` | trie/src.hpp:156 | the trie `Put` returns has a non-null root, the clone allocated at :137, with that allocation's identity |
| `CowTrie.RemoveNode` | trie/src.hpp:161-184 | the recursion never returns null at the root (`pos == 0`) |
| `CowTrie.Remove` | trie/src.hpp:185-191 | `Remove` never yields an empty trie, and its root is always a new allocation |
| `TriePut.PutNodeTerminal` | trie/src.hpp:143-150 | the node at the end of the path carries the new value and the children of the node it replaces |
| `TriePut.PutNodeOffPath` | trie/src.hpp:139-155 | every path that is not a prefix of the key reaches the same node (the same shared subtree) as before |
| `TriePut.PutNodeOnPath` | trie/src.hpp:151-152 | every node above the end of the path still exists and keeps its old value, because a clone keeps the value |
| `TriePut.PutNodePruned` | trie/src.hpp:143-153 | the rebuilt path keeps the pruning invariant, and the rebuilt node has a child |
| `TriePut.PutThenGet` | trie/src.hpp:132-156 | for a non-empty key, `Put(k, v)` then `Get(k)` yields `v`, whether or not `k` was present; a read with another type is absent; the node installed at `k` is a value node keeping the old node's children, so longer keys survive |
| `TriePut.PutEmptyKeyStoresNothing` | trie/src.hpp:137-139 | with the empty key the result's root is the receiver's root node unchanged, so the empty key reads as before (absent on an empty trie) |
| `TriePut.PutIntendedThenGet` | trie/src.hpp:132-133 | the insertion the comment describes round-trips for every key, the empty one included, and leaves every other key unchanged |
| `TriePut.PutKeepsOtherKeys` | trie/src.hpp:139-155 | `Put(k, v)` leaves every other key's value and typed read unchanged (extensions, prefixes and unrelated keys alike); with the empty key nothing changes at all |
| `TriePut.PutSharesOffPath` | trie/src.hpp:141-153 | at every depth of the path, an edge leaving the path leads to the old subtree; at depth 0, each root child under a character other than `k[0]` is the old child |
| `TriePut.PutPreservesWellFormed` | trie/src.hpp:135-157 | `Put` keeps the pruning invariant |
| `TrieRemove.RemoveNodeLookup` | trie/src.hpp:161-184 | below a removal, the removed suffix holds nothing and every other path holds its old value |
| `TrieRemove.RemoveNodeAbsent` | trie/src.hpp:163-175 | when the key holds nothing, the recursion gives back the node unchanged |
| `TrieRemove.RemoveNodePruned` | trie/src.hpp:166-182 | the recursion keeps the pruning invariant; a surviving non-root node is live, so a node left without value and children is dropped |
| `TrieRemove.RemoveThenFind` | trie/src.hpp:159-191 | after `Remove(k)`, `k` is absent and every other key's value and typed read are unchanged |
| `TrieRemove.RemoveAbsent` | trie/src.hpp:185-191 | removing an absent key gives the receiver's tree exactly, under a new root identity |
| `TrieRemove.RemoveNeverSameVersion` | trie/src.hpp:193-196 | with a fresh allocation, `Remove`'s result is never `==` to the receiver, even when the key is absent |
| `TrieRemove.RemovePreservesWellFormed` | trie/src.hpp:161-191 | `Remove` keeps the pruning invariant |
| `TrieRemove.RemoveNodeUndoesPutNode` | trie/src.hpp:176-182 | removing a key just put into a pruned node where it was absent gives back that node, or drops it if the insertion created it |
| `TrieRemove.RemoveUndoesPut` | trie/src.hpp:159-191 | in a pruned trie, `Put(k, v)` then `Remove(k)` of an absent key gives back the original tree: every node the insertion created is pruned |
| `TrieRemove.RemoveIntendedSameVersion` | trie/src.hpp:159-160 | the removal the comments describe is `==` to the receiver exactly when the key is absent, and it has the same contents as the coded removal |
| `VersionedStore.TrieStore.constructor` | trie/src.hpp:279-281 | the store starts with exactly one snapshot, the empty trie, at version 0 |
| `VersionedStore.TrieStore.Version` | trie/src.hpp:267-271 | the newest version is the index of the last snapshot |
| `VersionedStore.TrieStore.VersionsDistinct` | trie/src.hpp:193-196 | two snapshots of a valid store are `==` only if they are the same version |
| `VersionedStore.TrieStore.Get` | trie/src.hpp:221-236 | no version means the newest; a version at or above the snapshot count yields nothing; otherwise the result is that snapshot's `Get` |
| `VersionedStore.TrieStore.Put` | trie/src.hpp:238-250 | appends exactly the newest snapshot's `Put`; earlier snapshots are unchanged; returns the old version + 1 |
| `VersionedStore.TrieStore.Remove` | trie/src.hpp:252-265 | appends the newest snapshot's `Remove` and returns the old version + 1, for an absent key too |
| `VersionedStore.TrieStore.RemoveIntended` | trie/src.hpp:252-254 | with a removal that returns the receiver on a miss, an absent key appends nothing and keeps the version; a present key appends one snapshot |

## Findings

| source | as written | input that shows it | evidently intended | confidence | as-written member | corrected member |
|---|---|---|---|---|---|---|
| trie/src.hpp:125-127 | on a type mismatch, `dynamic_pointer_cast` yields null and `value_node->value_` dereferences it | `Put("k", v)` with a value of type A, then `Get<B>("k")` | return `nullptr`, as the comment at :110 says | high (not executed) | `CowTrie.GetAsWritten`, `CowTrie.GetAsWrittenFaults`, `CowTrie.GetAsWrittenFaultExample` | `CowTrie.Get`, `CowTrie.GetAbsentCases`, `CowTrie.WalkGet` |
| trie/src.hpp:132-139 | `Put` with the empty key runs no loop step and returns a bare clone of the root, so nothing is stored | `Put("", v)` on an empty trie, then `Get("")`: absent | the pair is inserted for every key (:132), so `Get("")` yields `v` | medium (not executed) | `TriePut.PutEmptyKeyStoresNothing`, `TriePut.PutKeepsOtherKeys` | `CowTrie.PutIntended`, `TriePut.PutIntendedThenGet` |
| trie/src.hpp:185-191, 259-264 | `Trie::Remove` always returns a freshly cloned root, so the identity test at :260 never succeeds and `TrieStore::Remove` always appends a version | any store, then `Remove` of a key that holds no value | an absent key returns the original trie (:159) and does not increase the version (:254) | high (not executed) | `VersionedStore.TrieStore.Remove`, `TrieRemove.RemoveNeverSameVersion` | `VersionedStore.TrieStore.RemoveIntended`, `TrieRemove.RemoveIntendedSameVersion` |

The rest of the model uses the code's behaviour for all three rows. `Get` is the one
exception: it follows the documented "absent on a type mismatch", and
`GetAsWritten` keeps the fault visible. `TrieStore.Remove` models the code
as written, and `RemoveIntended` stands beside it.

## Left out

- TriePut.PutThenGet: the round trip is stated only for non-empty keys, because the code never writes a value into the root (trie/src.hpp:139); `PutIntendedThenGet` states it for every key about the intended insertion.

- Locking (`write_lock_`, `snapshots_lock_`) and thread safety: each store call is one atomic, sequential step.
- `ValueGuard` exists only to keep a root alive while a reference into it is held. `TrieStore.Get` returns the payload itself.
- `shared_ptr`/`unique_ptr` ownership, `std::move` and `const_pointer_cast` are not modelled. Node sharing is equality of subtree values. Only the identity of roots is modelled.
- The in-place writes of `Trie::Put` (the loop at trie/src.hpp:139-155 writing `children[c]` into fresh clones) and of `Trie::Remove` (`erase` and assignment at :176-183) are modelled as the recursive functions `PutNode` and `RemoveNode`, which rebuild the path as values. The order of those writes is not modelled.
- Templates and RTTI: the type `T` of a value is a natural-number tag, and `dynamic_pointer_cast` is a tag comparison. The stored object is an `int` payload.
- Iteration order of `std::map` is not modelled; a Dafny `map<char, Node>` keeps the same key-to-child association.
- The `size_t version = -1` default of `TrieStore::Get` is `Option.None`. Version numbers are unbounded `nat`s, so `size_t` wrap-around is not modelled.
- Keys are `seq<char>` with plain character equality; the 8-bit signedness of C++ `char` does not matter to the tree.
- The unused local `new_version` in `TrieStore::Remove` (trie/src.hpp:258) has no effect and is left out.
