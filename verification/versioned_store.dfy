/**
 * `TrieStore` (trie/src.hpp:219-282) with its locks dropped: every call is
 * one atomic step on an append-only sequence of trie snapshots, where the
 * index of a snapshot is its version number.
 */
module VersionedStore {
  import opened Wrappers
  import opened CowTrie
  import TriePut
  import TrieRemove

  class TrieStore {
    /** `snapshots_`: every historical version of the trie, version 0 first. */
    var snapshots: seq<Trie>
    /**
     * Identity of the next root a write allocates. The source gets fresh
     * roots from the allocator; the model draws them from this counter.
     */
    var nextId: RootId

    /**
     * Version 0 is the empty trie, every later version has a root allocated
     * by a write (so versions are pairwise distinct roots, each newer than
     * the one before), and every snapshot satisfies the pruning invariant.
     */
    ghost predicate Valid()
      reads this
    {
      && |snapshots| >= 1
      && snapshots[0] == Empty
      && (forall i :: 0 < i < |snapshots| ==> snapshots[i].Rooted? && snapshots[i].id < nextId)
      && (forall i, j :: 0 < i < j < |snapshots| ==> snapshots[i].id < snapshots[j].id)
      && (forall i :: 0 <= i < |snapshots| ==> WellFormed(snapshots[i]))
    }

    /** `snapshots_ { 1 }`: one empty trie, version 0. */
    constructor ()
      ensures Valid()
      ensures snapshots == [Empty] && Version() == 0
    {
      snapshots := [Empty];
      nextId := 0;
    }

    /** `get_version`: the newest version number, the index of the last snapshot. */
    function Version(): (v: nat)
      reads this
      requires Valid()
      ensures v < |snapshots| && v + 1 == |snapshots|
    {
      |snapshots| - 1
    }

    /** `snapshots_.back()`: the newest snapshot, the one writes build on. */
    function Latest(): Trie
      reads this
      requires Valid()
    {
      snapshots[Version()]
    }

    /** Two versions of the store are the same trie (by root identity) only if they are one version. */
    lemma VersionsDistinct(i: nat, j: nat)
      requires Valid() && i < |snapshots| && j < |snapshots|
      ensures SameVersion(snapshots[i], snapshots[j]) <==> i == j
    {
    }

    /**
     * `Get<T>(key, version)`: no version means the newest one; a version at
     * or above the number of snapshots yields nothing; otherwise the answer
     * is that snapshot's `Trie::Get<T>`.
     */
    method Get(key: string, tag: TypeTag, version: Option<nat>) returns (r: Option<Payload>)
      requires Valid()
      ensures version.None? ==> r == CowTrie.Get(Latest(), key, tag)
      ensures version.Some? && version.value >= |snapshots| ==> r == None
      ensures version.Some? && version.value < |snapshots|
              ==> r == CowTrie.Get(snapshots[version.value], key, tag)
    {
      var v := if version.None? then Version() else version.value;
      if v >= |snapshots| {
        return None;
      }
      r := WalkGet(snapshots[v], key, tag);
    }

    /**
     * `Put<T>(key, value)`: build the new trie on the newest snapshot and
     * append it; earlier snapshots are untouched and the result is the new
     * version number, one more than before.
     */
    method Put(key: string, value: Value) returns (version: nat)
      requires Valid()
      modifies this
      ensures Valid()
      ensures snapshots == old(snapshots) + [CowTrie.Put(old(Latest()), key, value, old(nextId))]
      ensures version == Version() == old(Version()) + 1
    {
      var newTrie := CowTrie.Put(Latest(), key, value, nextId);
      TriePut.PutPreservesWellFormed(Latest(), key, value, nextId);
      nextId := nextId + 1;
      snapshots := snapshots + [newTrie];
      version := Version();
    }

    /**
     * `Remove(key)` as coded: the new trie is appended unless it is the
     * newest snapshot by root identity. `Trie::Remove` always returns a new
     * root, so it is always appended, even when the key is absent.
     */
    method Remove(key: string) returns (version: nat)
      requires Valid()
      modifies this
      ensures Valid()
      ensures snapshots == old(snapshots) + [CowTrie.Remove(old(Latest()), key, old(nextId))]
      ensures version == Version() == old(Version()) + 1
    {
      var current := Version();
      var newTrie := CowTrie.Remove(Latest(), key, nextId);
      TrieRemove.RemovePreservesWellFormed(Latest(), key, nextId);
      nextId := nextId + 1;
      if SameVersion(newTrie, snapshots[current]) {
        version := current;
        return;
      }
      snapshots := snapshots + [newTrie];
      version := Version();
    }

    /**
     * `Remove(key)` as its comment promises: when the key is absent the
     * version number does not increase and nothing is appended.
     */
    method RemoveIntended(key: string) returns (version: nat)
      requires Valid()
      modifies this
      ensures Valid()
      ensures Find(old(Latest()), key) == None ==>
                snapshots == old(snapshots) && version == old(Version())
      ensures Find(old(Latest()), key) != None ==>
                snapshots == old(snapshots) + [CowTrie.Remove(old(Latest()), key, old(nextId))]
                && version == old(Version()) + 1
    {
      var current := Version();
      var newTrie := CowTrie.RemoveIntended(Latest(), key, nextId);
      TrieRemove.RemoveIntendedSameVersion(Latest(), key, nextId);
      TrieRemove.RemovePreservesWellFormed(Latest(), key, nextId);
      nextId := nextId + 1;
      if SameVersion(newTrie, snapshots[current]) {
        version := current;
        return;
      }
      snapshots := snapshots + [newTrie];
      version := Version();
    }
  }

  /**
   * The versioning scenario: two writes of "x" give versions 1 and 2, and
   * each version keeps answering with what it held when it was written.
   */
  method VersioningScenario()
  {
    var store := new TrieStore();
    var one, two := Tagged(0, 1), Tagged(0, 2);
    var v1 := store.Put("x", one);
    assert v1 == 1;
    TriePut.PutThenGet(store.snapshots[1], "x", two, store.nextId, 0);
    var v2 := store.Put("x", two);
    assert v2 == 2;
    TriePut.PutThenGet(Empty, "x", one, store.snapshots[1].id, 0);
    var at0 := store.Get("x", 0, Some(0));
    var at1 := store.Get("x", 0, Some(1));
    var at2 := store.Get("x", 0, Some(2));
    var latest := store.Get("x", 0, None);
    var beyond := store.Get("x", 0, Some(3));
    assert at0 == None && at1 == Some(1) && at2 == Some(2) && latest == Some(2) && beyond == None;
  }
}
