/** When the removal of a key leaves the tree that insertions of the remaining keys would build. */
module TrieRemoval {
  import opened Prelude
  import opened Bits
  import opened Trie
  import opened TrieUpdate

  /** The tree after `remove`: only the node that stores the key changes. */
  function Removed<T>(t: Tree<T>, key: Key): (t': Tree<T>)
    requires WellFormed(t) && Exact(t, key).Some?
    ensures WellFormed(t') && IsEndNode(t'.bitmap) == IsEndNode(t.bitmap)
    decreases |key|
  {
    if |key| <= ResultsCapacity(t.bitmap) then
      DropResultUnbinds(t, key);
      DropResult(t, key)
    else
      var nibble, remaining := key[..RESULTS_BITS_END_NODE], key[RESULTS_BITS_END_NODE..];
      var child := Removed(GetChild(t, nibble).value, remaining);
      SetChildPacks(t, nibble, child);
      SetChild(t, nibble, child)
  }

  lemma RemovedHere<T>(t: Tree<T>, key: Key)
    requires WellFormed(t) && Exact(t, key).Some? && |key| <= ResultsCapacity(t.bitmap)
    ensures Removed(t, key) == DropResult(t, key)
  {
  }

  lemma RemovedBelow<T>(t: Tree<T>, key: Key)
    requires WellFormed(t) && |key| > ResultsCapacity(t.bitmap) && GetChild(t, key[..5]).Some?
    requires Exact(GetChild(t, key[..5]).value, key[5..]).Some?
    ensures Exact(t, key).Some?
    ensures Removed(t, key) == SetChild(t, key[..5], Removed(GetChild(t, key[..5]).value, key[5..]))
  {
  }

  lemma {:induction false} RemovedUnbinds<T>(t: Tree<T>, key: Key, k: Key)
    requires WellFormed(t) && Exact(t, key).Some?
    ensures Exact(Removed(t, key), k) == if k == key then None else Exact(t, k)
    decreases |key|
  {
    if |key| <= ResultsCapacity(t.bitmap) {
      DropResultUnbinds(t, key);
    } else {
      var nibble, remaining := key[..5], key[5..];
      var child := GetChild(t, nibble).value;
      assert key == nibble + remaining;
      hide WellFormed;
      SetChildBinds(t, nibble, Removed(child, remaining), k);
      if |k| >= 5 && k[..5] == nibble {
        assert k == nibble + k[5..];
        RemovedUnbinds(child, remaining, k[5..]);
        hide Removed;
        assert |k| > ResultsCapacity(t.bitmap);
      }
    }
  }

  // ---- What must remain --------------------------------------------------------------------

  ghost predicate LongKey(keys: set<Key>, at: Key) {
    exists k :: k in keys && at <= k && |k| > |at| + RESULTS_BITS_END_NODE
  }

  /** The local results of the node at `at`: one bit less if some key below is too long for an end node. */
  ghost function Capacity(keys: set<Key>, at: Key): nat {
    if LongKey(keys, at) then RESULTS_BITS_END_NODE - 1 else RESULTS_BITS_END_NODE
  }

  ghost predicate OtherLocalKey(keys: set<Key>, key: Key, at: Key) {
    exists k :: k in keys && k != key && at <= k && |k| <= |at| + Capacity(keys, at)
  }

  /**
   * What remains besides `key` of the keys that start with `at`: in the node that stores `key` another
   * result, and on the way there below each node a key that is too long for an end node.
   */
  ghost predicate Spares(keys: set<Key>, key: Key, at: Key)
    requires at <= key
    decreases |key| - |at|
  {
    if |key| <= |at| + Capacity(keys, at) then OtherLocalKey(keys, key, at)
    else LongKey(keys - {key}, at) && Spares(keys, key, key[..|at| + RESULTS_BITS_END_NODE])
  }

  /** The tree below `at` stores the keys that start with `at`. */
  ghost predicate Stores<T>(t: Tree<T>, keys: set<Key>, at: Key)
    requires WellFormed(t)
  {
    forall k :: Exact(t, k).Some? <==> at + k in keys
  }

  lemma SplitAt(at: Key, k: Key)
    requires at <= k
    ensures k == at + k[|at|..]
  {
  }

  lemma LongKeys<T>(t: Tree<T>, keys: set<Key>, at: Key)
    requires WellFormed(t) && Stores(t, keys, at)
    ensures HasLongKey(t) <==> LongKey(keys, at)
  {
    hide Exact, WellFormed;
    if k :| |k| > RESULTS_BITS_END_NODE && Exact(t, k).Some? {
      assert at <= at + k && at + k in keys;
    }
    if k :| k in keys && at <= k && |k| > |at| + RESULTS_BITS_END_NODE {
      SplitAt(at, k);
      assert Exact(t, k[|at|..]).Some?;
    }
  }

  lemma CapacityIs<T>(t: Tree<T>, keys: set<Key>, at: Key)
    requires WellFormed(t) && Canonical(t) && Stores(t, keys, at)
    ensures ResultsCapacity(t.bitmap) == Capacity(keys, at)
  {
    hide HasLongKey, LongKey;
    LongKeys(t, keys, at);
    KindFollowsKeys(t);
  }

  lemma StoresLess<T>(t: Tree<T>, keys: set<Key>, at: Key, key: Key)
    requires WellFormed(t) && Stores(t, keys, at) && Exact(t, key).Some?
    ensures Stores(Removed(t, key), keys - {at + key}, at)
  {
    hide Exact, WellFormed, Removed;
    forall k: Key
      ensures Exact(Removed(t, key), k).Some? <==> at + k in keys - {at + key}
    {
      RemovedUnbinds(t, key, k);
      assert k == (at + k)[|at|..] && key == (at + key)[|at|..];
    }
  }

  lemma StoresBelow<T>(t: Tree<T>, keys: set<Key>, at: Key, nibble: Key)
    requires WellFormed(t) && Stores(t, keys, at) && |nibble| == RESULTS_BITS_END_NODE
    requires GetChild(t, nibble).Some?
    ensures Stores(GetChild(t, nibble).value, keys, at + nibble)
  {
    forall k: Key
      ensures Exact(GetChild(t, nibble).value, k).Some? <==> at + nibble + k in keys
    {
      assert (nibble + k)[..5] == nibble && (nibble + k)[5..] == k;
      assert Exact(t, nibble + k) == Exact(GetChild(t, nibble).value, k);
      assert at + nibble + k == at + (nibble + k);
    }
  }

  // ---- The removal that leaves no trace ----------------------------------------------------

  lemma ResultsLeft<T>(t: Tree<T>)
    requires WellFormed(t)
    ensures Items(t.results) != [] <==> exists k: Key :: |k| <= ResultsCapacity(t.bitmap) && Exact(t, k).Some?
  {
    hide Exact, WellFormed, Results;
    ResultsNames(t);
    if Items(t.results) != [] {
      assert Exact(t, Results(t)[0].0).Some?;
    }
    if k: Key :| |k| <= ResultsCapacity(t.bitmap) && Exact(t, k).Some? {
      ResultsComplete(t, k);
    }
  }

  lemma LocalRemoval<T>(t: Tree<T>, key: Key)
    requires WellFormed(t) && Canonical(t) && Exact(t, key).Some? && |key| <= ResultsCapacity(t.bitmap)
    ensures Canonical(Removed(t, key)) <==> Items(Removed(t, key).results) != []
  {
    var t' := Removed(t, key);
    assert t'.children == t.children && t'.results.Allocated?;
    hide WellFormed, Removed, DropResult;
    if !IsEndNode(t.bitmap) {
      var k :| |k| > RESULTS_BITS_END_NODE && Exact(t, k).Some?;
      RemovedUnbinds(t, key, k);
      hide Exact;
      assert HasLongKey(t');
    }
  }

  lemma BelowRemoval<T>(t: Tree<T>, nibble: Key, child: Tree<T>)
    requires WellFormed(t) && Canonical(t) && |nibble| == RESULTS_BITS_END_NODE && GetChild(t, nibble).Some?
    requires WellFormed(child)
    ensures WellFormed(SetChild(t, nibble, child))
    ensures Canonical(SetChild(t, nibble, child)) <==>
            HasLongKey(SetChild(t, nibble, child)) && Canonical(child) && NonEmpty(child)
  {
    hide WellFormed, Exact, HasLongKey, GetChild;
    SetChildPacks(t, nibble, child);
    CanonicalSparesOne(t, nibble);
    SetChildShape(t, nibble, child);
    var t' := SetChild(t, nibble, child);
    if Canonical(t') {
      assert Items(t'.children)[ChildRank(t, nibble)] == child;
    }
  }

  /** A canonical tree stays canonical exactly if the removed key is spared. */
  lemma {:induction false} RemovedIsCanonical<T>(t: Tree<T>, keys: set<Key>, key: Key, at: Key)
    requires WellFormed(t) && Canonical(t) && Exact(t, key).Some? && Stores(t, keys, at)
    ensures Canonical(Removed(t, key)) <==> Spares(keys, at + key, at)
    decreases |key|
  {
    var t' := Removed(t, key);
    CapacityIs(t, keys, at);
    StoresLess(t, keys, at, key);
    if |key| <= ResultsCapacity(t.bitmap) {
      LocalRemoval(t, key);
      ResultsLeft(t');
      LocalKeysLeft(t', keys, key, at, ResultsCapacity(t.bitmap));
    } else {
      var nibble, remaining := key[..5], key[5..];
      var child := GetChild(t, nibble).value;
      assert at + key == at + nibble + remaining && (at + key)[..|at| + 5] == at + nibble;
      StoresBelow(t, keys, at, nibble);
      CanonicalSparesOne(t, nibble);
      CanonicalChild(t, nibble);
      RemovedIsCanonical(child, keys, remaining, at + nibble);
      BelowRemoval(t, nibble, Removed(child, remaining));
      LongKeys(t', keys - {at + key}, at);
      StoresLess(child, keys, at + nibble, remaining);
      if Spares(keys, at + key, at + nibble) {
        SparedIsNotEmpty(Removed(child, remaining), keys, at + key, at + nibble);
      }
    }
  }

  lemma LocalKeysLeft<T>(t': Tree<T>, keys: set<Key>, key: Key, at: Key, capacity: nat)
    requires WellFormed(t') && Stores(t', keys - {at + key}, at) && capacity == Capacity(keys, at)
    ensures OtherLocalKey(keys, at + key, at) <==> exists k: Key :: |k| <= capacity && Exact(t', k).Some?
  {
    hide Exact, WellFormed, Capacity;
    if k: Key :| |k| <= capacity && Exact(t', k).Some? {
      assert at <= at + k && at + k in keys - {at + key};
    }
    if k :| k in keys && k != at + key && at <= k && |k| <= |at| + Capacity(keys, at) {
      SplitAt(at, k);
      assert Exact(t', k[|at|..]).Some?;
    }
  }

  lemma SparedIsNotEmpty<T>(t': Tree<T>, keys: set<Key>, key: Key, at: Key)
    requires WellFormed(t') && Stores(t', keys - {key}, at) && at <= key && Spares(keys, key, at)
    ensures NonEmpty(t')
  {
    hide Exact, WellFormed, Capacity;
    var k :| k in keys && k != key && at <= k by {
      assert OtherLocalKey(keys, key, at) || LongKey(keys - {key}, at);
    }
    SplitAt(at, k);
    assert Exact(t', k[|at|..]).Some?;
  }
}
