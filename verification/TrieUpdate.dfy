/** What one local step of an update does to the bindings and to the shape of a node. */
module TrieUpdate {
  import opened Prelude
  import opened Bits
  import opened Trie

  // ---- Bindings ----------------------------------------------------------------------------

  function PutResult<T>(t: Tree<T>, key: Key, x: T): Tree<T>
    requires WellFormed(t) && |key| <= ResultsCapacity(t.bitmap)
  {
    IndexInBounds(t.bitmap, key);
    var bits, index := ResultsBits(t.bitmap), ToIndex(key);
    RankMonotone(bits, index, |bits|);
    if bits[index] then
      t.(results := Allocated(Items(t.results)[Rank(bits, index) := x]))
    else
      t.(bitmap := SetResultBit(t.bitmap, index, true),
         results := Allocated(InsertAt(Items(t.results), Rank(bits, index), x)))
  }

  function DropResult<T>(t: Tree<T>, key: Key): Tree<T>
    requires WellFormed(t) && |key| <= ResultsCapacity(t.bitmap) && Exact(t, key).Some?
  {
    IndexInBounds(t.bitmap, key);
    var bits, index := ResultsBits(t.bitmap), ToIndex(key);
    RankMonotone(bits, index, |bits|);
    t.(bitmap := SetResultBit(t.bitmap, index, false),
       results := Allocated(RemoveAt(Items(t.results), Rank(bits, index))))
  }

  function ChildRank<T>(t: Tree<T>, key: Key): nat
    requires WellFormed(t) && |key| == RESULTS_BITS_END_NODE && !IsEndNode(t.bitmap)
  {
    IndexInBounds(t.bitmap, key);
    Rank(ChildrenBits(t.bitmap), LoadLe(key))
  }

  function AddChild<T>(t: Tree<T>, key: Key): Tree<T>
    requires WellFormed(t) && |key| == RESULTS_BITS_END_NODE && !IsEndNode(t.bitmap)
  {
    IndexInBounds(t.bitmap, key);
    RankMonotone(ChildrenBits(t.bitmap), LoadLe(key), |ChildrenBits(t.bitmap)|);
    t.(bitmap := SetChildBit(t.bitmap, LoadLe(key)),
       children := Allocated(InsertAt(Items(t.children), ChildRank(t, key), DefaultTree())))
  }

  function SetChild<T>(t: Tree<T>, key: Key, child: Tree<T>): Tree<T>
    requires WellFormed(t) && |key| == RESULTS_BITS_END_NODE && GetChild(t, key).Some?
  {
    IndexInBounds(t.bitmap, key);
    RankMonotone(ChildrenBits(t.bitmap), LoadLe(key), |ChildrenBits(t.bitmap)|);
    t.(children := Allocated(Items(t.children)[ChildRank(t, key) := child]))
  }

  /** Changing result slots leaves every longer key as it was. */
  lemma LongKeysKept<T>(t: Tree<T>, t': Tree<T>, k: Key)
    requires WellFormed(t) && WellFormed(t')
    requires IsEndNode(t.bitmap) == IsEndNode(t'.bitmap)
    requires ChildrenBits(t.bitmap) == ChildrenBits(t'.bitmap) && Items(t.children) == Items(t'.children)
    requires |k| > ResultsCapacity(t.bitmap)
    ensures Exact(t', k) == Exact(t, k)
  {
    assert GetChild(t', k[..RESULTS_BITS_END_NODE]) == GetChild(t, k[..RESULTS_BITS_END_NODE]);
  }

  lemma PutResultBinds<T>(t: Tree<T>, key: Key, x: T)
    requires WellFormed(t) && |key| <= ResultsCapacity(t.bitmap)
    ensures var t' := PutResult(t, key, x);
            && WellFormed(t')
            && IsEndNode(t'.bitmap) == IsEndNode(t.bitmap)
            && forall k :: Exact(t', k) == if k == key then Some(x) else Exact(t, k)
  {
    var t' := PutResult(t, key, x);
    var bits, items, index := ResultsBits(t.bitmap), Items(t.results), ToIndex(key);
    IndexInBounds(t.bitmap, key);
    SetBits(t.bitmap, index, true);
    if bits[index] {
      SlotReplaced(bits, items, index, x);
    } else {
      SlotInserted(bits, items, index, x);
    }
    forall k: Key
      ensures Exact(t', k) == if k == key then Some(x) else Exact(t, k)
    {
      if |k| <= ResultsCapacity(t.bitmap) {
        IndexInBounds(t.bitmap, k);
        IndexOfKey(k, 0);
        IndexOfKey(key, 0);
      } else {
        LongKeysKept(t, t', k);
      }
    }
  }

  /** Storing a local result is an update of the map, and the old slot is its old binding. */
  lemma PutResultRefines<T>(t: Tree<T>, key: Key, x: T, m: map<Key, T>)
    requires WellFormed(t) && |key| <= ResultsCapacity(t.bitmap) && Refines(t, m)
    ensures WellFormed(PutResult(t, key, x)) && Refines(PutResult(t, key, x), m[key := x])
    ensures ToIndex(key) < |ResultsBits(t.bitmap)|
    ensures Slot(ResultsBits(t.bitmap), Items(t.results), ToIndex(key)) == Get(m, key)
    ensures Rank(ResultsBits(t.bitmap), ToIndex(key)) + Bit(ResultsBits(t.bitmap)[ToIndex(key)]) <=
            |Items(t.results)|
  {
    PutResultBinds(t, key, x);
    IndexInBounds(t.bitmap, key);
    RankMonotone(ResultsBits(t.bitmap), ToIndex(key), |ResultsBits(t.bitmap)|);
    assert Exact(t, key) == Get(m, key);
    forall k: Key
      ensures Exact(PutResult(t, key, x), k) == Get(m[key := x], k)
    {
      assert Exact(t, k) == Get(m, k);
    }
  }

  lemma DropResultRefines<T>(t: Tree<T>, key: Key, m: map<Key, T>)
    requires WellFormed(t) && |key| <= ResultsCapacity(t.bitmap) && Refines(t, m)
    ensures ToIndex(key) < |ResultsBits(t.bitmap)|
    ensures Slot(ResultsBits(t.bitmap), Items(t.results), ToIndex(key)) == Get(m, key)
    ensures Exact(t, key) == Get(m, key)
    ensures Get(m, key).Some? ==> WellFormed(DropResult(t, key)) && Refines(DropResult(t, key), m - {key})
    ensures var bits, index := ResultsBits(t.bitmap), ToIndex(key);
            bits[index] ==> Rank(bits[index := false], index) == Rank(bits, index) < |Items(t.results)|
  {
    IndexInBounds(t.bitmap, key);
    RankUpdate(ResultsBits(t.bitmap), ToIndex(key), false, ToIndex(key));
    RankMonotone(ResultsBits(t.bitmap), ToIndex(key), |ResultsBits(t.bitmap)|);
    assert Exact(t, key) == Get(m, key);
    if Exact(t, key).Some? {
      DropResultUnbinds(t, key);
      forall k: Key
        ensures Exact(DropResult(t, key), k) == Get(m - {key}, k)
      {
        assert Exact(t, k) == Get(m, k);
      }
    }
  }

  lemma AddChildFields<T>(t: Tree<T>, key: Key)
    requires WellFormed(t) && |key| == RESULTS_BITS_END_NODE
    requires !IsEndNode(t.bitmap) && GetChild(t, key).None?
    ensures LoadLe(key) < |ChildrenBits(t.bitmap)|
    ensures var bitmap' := SetChildBit(t.bitmap, LoadLe(key));
            var i := CountOnes(ChildrenBits(bitmap')[..LoadLe(key)]);
            && i <= |Items(t.children)| && LoadLe(key) < |ChildrenBits(bitmap')|
            && AddChild(t, key) ==
               Tree(bitmap', t.results, Allocated(InsertAt(Items(t.children), i, DefaultTree())))
  {
    IndexInBounds(t.bitmap, key);
    AddChildBinds(t, key);
    SetBits(t.bitmap, LoadLe(key), true);
  }

  lemma AddChildRefines<T>(t: Tree<T>, key: Key, m: map<Key, T>)
    requires WellFormed(t) && |key| == RESULTS_BITS_END_NODE && Refines(t, m)
    requires !IsEndNode(t.bitmap) && GetChild(t, key).None?
    ensures WellFormed(AddChild(t, key)) && Refines(AddChild(t, key), m)
  {
    AddChildBinds(t, key);
    forall k: Key
      ensures Exact(AddChild(t, key), k) == Get(m, k)
    {
      assert Exact(t, k) == Get(m, k);
    }
  }

  lemma DropResultUnbinds<T>(t: Tree<T>, key: Key)
    requires WellFormed(t) && |key| <= ResultsCapacity(t.bitmap) && Exact(t, key).Some?
    ensures var t' := DropResult(t, key);
            && WellFormed(t')
            && IsEndNode(t'.bitmap) == IsEndNode(t.bitmap)
            && forall k :: Exact(t', k) == if k == key then None else Exact(t, k)
  {
    var t' := DropResult(t, key);
    var bits, items, index := ResultsBits(t.bitmap), Items(t.results), ToIndex(key);
    IndexInBounds(t.bitmap, key);
    SetBits(t.bitmap, index, false);
    SlotRemoved(bits, items, index);
    forall k: Key
      ensures Exact(t', k) == if k == key then None else Exact(t, k)
    {
      if |k| <= ResultsCapacity(t.bitmap) {
        IndexInBounds(t.bitmap, k);
        IndexOfKey(k, 0);
        IndexOfKey(key, 0);
      } else {
        LongKeysKept(t, t', k);
      }
    }
  }

  lemma AddChildBinds<T>(t: Tree<T>, key: Key)
    requires WellFormed(t) && |key| == RESULTS_BITS_END_NODE
    requires !IsEndNode(t.bitmap) && GetChild(t, key).None?
    ensures var t' := AddChild(t, key);
            && WellFormed(t')
            && !IsEndNode(t'.bitmap)
            && GetChild(t', key) == Some(DefaultTree())
            && ChildRank(t', key) == ChildRank(t, key) <= |Items(t.children)|
            && forall k :: Exact(t', k) == Exact(t, k)
  {
    var t' := AddChild(t, key);
    var bits, items, nibble := ChildrenBits(t.bitmap), Items(t.children), LoadLe(key);
    IndexInBounds(t.bitmap, key);
    SetBits(t.bitmap, nibble, true);
    SlotInserted(bits, items, nibble, DefaultTree());
    DefaultTreeIsEmpty<T>();
    forall k: Key
      ensures Exact(t', k) == Exact(t, k)
    {
      if |k| <= ResultsCapacity(t.bitmap) {
        IndexInBounds(t.bitmap, k);
      } else {
        IndexInBounds(t.bitmap, k[..5]);
        if k[..5] != key {
          if LoadLe(k[..5]) == nibble {
            LoadLeInjective(k[..5], key);
          }
        } else {
          assert Exact(DefaultTree<T>(), k[5..]) == Get(map[], k[5..]);
        }
      }
    }
  }

  lemma SetChildPacks<T>(t: Tree<T>, key: Key, child: Tree<T>)
    requires WellFormed(t) && |key| == RESULTS_BITS_END_NODE && GetChild(t, key).Some?
    requires WellFormed(child)
    ensures var t' := SetChild(t, key, child);
            && WellFormed(t')
            && !IsEndNode(t'.bitmap)
            && GetChild(t', key) == Some(child)
            && ChildRank(t, key) < |Items(t.children)|
            && Items(t'.children) == Items(t.children)[ChildRank(t, key) := child]
  {
    IndexInBounds(t.bitmap, key);
    SlotReplaced(ChildrenBits(t.bitmap), Items(t.children), LoadLe(key), child);
  }

  lemma SetChildBinds<T>(t: Tree<T>, key: Key, child: Tree<T>, k: Key)
    requires WellFormed(t) && |key| == RESULTS_BITS_END_NODE && GetChild(t, key).Some?
    requires WellFormed(child)
    ensures WellFormed(SetChild(t, key, child))
    ensures Exact(SetChild(t, key, child), k) ==
              if |k| >= 5 && k[..5] == key then Exact(child, k[5..]) else Exact(t, k)
  {
    SetChildPacks(t, key, child);
    if |k| <= ResultsCapacity(t.bitmap) {
      IndexInBounds(t.bitmap, k);
    } else {
      IndexInBounds(t.bitmap, key);
      SlotReplaced(ChildrenBits(t.bitmap), Items(t.children), LoadLe(key), child);
      IndexInBounds(t.bitmap, k[..5]);
      if k[..5] != key && LoadLe(k[..5]) == LoadLe(key) {
        LoadLeInjective(k[..5], key);
      }
    }
  }

  // ---- Shape -------------------------------------------------------------------------------

  ghost predicate NonEmpty<T>(t: Tree<T>)
    requires WellFormed(t)
  {
    exists k :: Exact(t, k).Some?
  }

  /** Some key does not fit an end node. */
  ghost predicate HasLongKey<T>(t: Tree<T>)
    requires WellFormed(t)
  {
    exists k :: |k| > RESULTS_BITS_END_NODE && Exact(t, k).Some?
  }

  /** Every normal node has a child. */
  ghost predicate Bushy<T>(t: Tree<T>) {
    && (!IsEndNode(t.bitmap) ==> Items(t.children) != [])
    && BushyBelow(t)
  }

  ghost predicate BushyBelow<T>(t: Tree<T>)
    decreases t, 0
  {
    t.children.Allocated? ==> forall c :: c in t.children.items ==> Bushy(c)
  }

  /** The one shape a set of bindings has when nothing was ever removed. */
  ghost predicate Canonical<T>(t: Tree<T>)
    requires WellFormed(t)
    decreases t, 1
  {
    && (!IsEndNode(t.bitmap) ==> HasLongKey(t))
    && CanonicalBelow(t)
  }

  ghost predicate CanonicalBelow<T>(t: Tree<T>)
    requires WellFormed(t)
    decreases t, 0
  {
    && (t.results.Allocated? <==> Items(t.results) != [])
    && (t.children.Allocated? <==> Items(t.children) != [])
    && (t.children.Allocated? ==> forall c :: c in t.children.items ==> Canonical(c) && NonEmpty(c))
  }

  /** A canonical node is normal exactly when some key below it has six or more bits left. */
  lemma KindFollowsKeys<T>(t: Tree<T>)
    requires WellFormed(t) && Canonical(t)
    ensures !IsEndNode(t.bitmap) <==> HasLongKey(t)
  {
  }

  lemma DefaultTreeShape<T>()
    ensures WellFormed(DefaultTree<T>()) && Canonical(DefaultTree<T>()) && Bushy(DefaultTree<T>())
  {
    DefaultTreeIsEmpty<T>();
  }

  lemma PutResultShape<T>(t: Tree<T>, key: Key, x: T)
    requires WellFormed(t) && |key| <= ResultsCapacity(t.bitmap)
    ensures WellFormed(PutResult(t, key, x))
    ensures IsEndNode(PutResult(t, key, x).bitmap) == IsEndNode(t.bitmap)
    ensures BushyBelow(t) ==> BushyBelow(PutResult(t, key, x))
    ensures Bushy(t) ==> Bushy(PutResult(t, key, x))
    ensures CanonicalBelow(t) ==> CanonicalBelow(PutResult(t, key, x))
  {
    PutResultBinds(t, key, x);
    IndexInBounds(t.bitmap, key);
    RankMonotone(ResultsBits(t.bitmap), ToIndex(key), |ResultsBits(t.bitmap)|);
  }

  lemma BushyFollowsChildren<T>(t: Tree<T>, t': Tree<T>)
    requires t.children == t'.children && IsEndNode(t.bitmap) == IsEndNode(t'.bitmap)
    ensures Bushy(t) == Bushy(t')
  {
  }

  lemma DropResultShape<T>(t: Tree<T>, key: Key)
    requires WellFormed(t) && |key| <= ResultsCapacity(t.bitmap) && Exact(t, key).Some?
    ensures WellFormed(DropResult(t, key))
    ensures IsEndNode(DropResult(t, key).bitmap) == IsEndNode(t.bitmap)
    ensures Bushy(t) ==> Bushy(DropResult(t, key))
  {
    hide Bushy, Exact;
    DropResultUnbinds(t, key);
    BushyFollowsChildren(t, DropResult(t, key));
  }

  /** All children but the one at `i` are canonical and in use. */
  ghost predicate CanonicalExcept<T>(t: Tree<T>, i: nat)
    requires WellFormed(t)
  {
    && (t.results.Allocated? <==> Items(t.results) != [])
    && i < |Items(t.children)|
    && Canonical(Items(t.children)[i])
    && forall j :: 0 <= j < |Items(t.children)| && j != i ==>
         Canonical(Items(t.children)[j]) && NonEmpty(Items(t.children)[j])
  }

  lemma CanonicalSparesOne<T>(t: Tree<T>, key: Key)
    requires WellFormed(t) && CanonicalBelow(t)
    requires |key| == RESULTS_BITS_END_NODE && GetChild(t, key).Some?
    ensures CanonicalExcept(t, ChildRank(t, key))
  {
    IndexInBounds(t.bitmap, key);
    RankMonotone(ChildrenBits(t.bitmap), LoadLe(key), |ChildrenBits(t.bitmap)|);
  }

  lemma AddedChildren<T>(t: Tree<T>, key: Key, j: nat)
    requires WellFormed(t) && |key| == RESULTS_BITS_END_NODE
    requires !IsEndNode(t.bitmap) && GetChild(t, key).None?
    ensures ChildRank(t, key) <= |Items(t.children)|
    ensures var i, items' := ChildRank(t, key), Items(AddChild(t, key).children);
            && i < |items'| == |Items(t.children)| + 1 && items'[i] == DefaultTree()
            && (j < |items'| && j != i ==> items'[j] in Items(t.children))
  {
    IndexInBounds(t.bitmap, key);
    RankMonotone(ChildrenBits(t.bitmap), LoadLe(key), |ChildrenBits(t.bitmap)|);
    var i, items := ChildRank(t, key), Items(t.children);
    hide InsertAt, GetChild, WellFormed, ChildRank;
    InsertAtElements(items, i, DefaultTree());
  }

  lemma AddChildShape<T>(t: Tree<T>, key: Key)
    requires WellFormed(t) && |key| == RESULTS_BITS_END_NODE
    requires !IsEndNode(t.bitmap) && GetChild(t, key).None?
    ensures WellFormed(AddChild(t, key))
    ensures BushyBelow(t) ==> BushyBelow(AddChild(t, key))
    ensures CanonicalBelow(t) ==> CanonicalExcept(AddChild(t, key), ChildRank(t, key))
  {
    hide Exact, WellFormed, NonEmpty, Bushy, Canonical, ChildRank, InsertAt;
    AddChildBinds(t, key);
    DefaultTreeShape<T>();
    AddedChildren(t, key, 0);
    var i, items' := ChildRank(t, key), Items(AddChild(t, key).children);
    if BushyBelow(t) {
      forall j | 0 <= j < |items'|
        ensures Bushy(items'[j])
      {
        AddedChildren(t, key, j);
      }
    }
    if CanonicalBelow(t) {
      forall j | 0 <= j < |items'| && j != i
        ensures Canonical(items'[j]) && NonEmpty(items'[j])
      {
        AddedChildren(t, key, j);
      }
    }
  }

  lemma SetChildShape<T>(t: Tree<T>, key: Key, child: Tree<T>)
    requires WellFormed(t) && |key| == RESULTS_BITS_END_NODE && GetChild(t, key).Some?
    requires WellFormed(child)
    ensures WellFormed(SetChild(t, key, child))
    ensures BushyBelow(t) && Bushy(child) ==> Bushy(SetChild(t, key, child))
    ensures CanonicalExcept(t, ChildRank(t, key)) && Canonical(child) && NonEmpty(child) ==>
              CanonicalBelow(SetChild(t, key, child))
  {
    SetChildPacks(t, key, child);
    var i, items := ChildRank(t, key), Items(t.children);
    var items' := Items(SetChild(t, key, child).children);
    if BushyBelow(t) && Bushy(child) {
      forall j | 0 <= j < |items'|
        ensures Bushy(items'[j])
      {
        assert items'[j] == child || items'[j] == items[j];
      }
    }
    if CanonicalExcept(t, i) && Canonical(child) && NonEmpty(child) {
      forall j | 0 <= j < |items'|
        ensures Canonical(items'[j]) && NonEmpty(items'[j])
      {
        assert j != i ==> items'[j] == items[j];
      }
    }
  }

  /** Bitmaps, packed vectors and nesting of a canonical tree depend on its bindings only. */
  lemma {:induction false} CanonicalUnique<T>(t: Tree<T>, t': Tree<T>)
    requires WellFormed(t) && WellFormed(t') && Canonical(t) && Canonical(t')
    requires forall k :: Exact(t, k) == Exact(t', k)
    ensures t == t'
    decreases t
  {
    KindFollowsKeys(t);
    KindFollowsKeys(t');
    assert IsEndNode(t.bitmap) == IsEndNode(t'.bitmap);
    SameResults(t, t');
    forall i | 0 <= i < |ChildrenBits(t.bitmap)|
      ensures Slot(ChildrenBits(t.bitmap), Items(t.children), i) ==
              Slot(ChildrenBits(t'.bitmap), Items(t'.children), i)
    {
      LayoutConstants();
      var key := ViewBits(i, 5);
      LoadView(i, 5);
      ChildFollowsBindings(t, t', key);
      ChildFollowsBindings(t', t, key);
      if GetChild(t, key).Some? {
        SameBelow(t, t', key);
        CanonicalUnique(GetChild(t, key).value, GetChild(t', key).value);
      }
    }
    PackedUnique(ChildrenBits(t.bitmap), Items(t.children), ChildrenBits(t'.bitmap), Items(t'.children));
    SameBitmap(t.bitmap, t'.bitmap);
  }

  lemma SameBelow<T>(t: Tree<T>, t': Tree<T>, key: Key)
    requires WellFormed(t) && WellFormed(t') && |key| == 5
    requires GetChild(t, key).Some? && GetChild(t', key).Some?
    requires forall k :: Exact(t, k) == Exact(t', k)
    ensures forall k :: Exact(GetChild(t, key).value, k) == Exact(GetChild(t', key).value, k)
  {
    forall k: Key
      ensures Exact(GetChild(t, key).value, k) == Exact(GetChild(t', key).value, k)
    {
      assert (key + k)[..5] == key && (key + k)[5..] == k;
      assert Exact(t, key + k) == Exact(t', key + k);
    }
  }

  lemma SameBitmap(b: Bitmap, b': Bitmap)
    requires IsEndNode(b) == IsEndNode(b')
    requires ResultsBits(b) == ResultsBits(b') && ChildrenBits(b) == ChildrenBits(b')
    ensures b == b'
  {
    assert b == [b[0]] + ResultsBits(b) + ChildrenBits(b);
    assert b' == [b'[0]] + ResultsBits(b') + ChildrenBits(b');
  }

  lemma SameResults<T>(t: Tree<T>, t': Tree<T>)
    requires WellFormed(t) && WellFormed(t') && IsEndNode(t.bitmap) == IsEndNode(t'.bitmap)
    requires forall k :: Exact(t, k) == Exact(t', k)
    ensures ResultsBits(t.bitmap) == ResultsBits(t'.bitmap) && Items(t.results) == Items(t'.results)
  {
    forall i | 0 <= i < |ResultsBits(t.bitmap)|
      ensures Slot(ResultsBits(t.bitmap), Items(t.results), i) ==
              Slot(ResultsBits(t'.bitmap), Items(t'.results), i)
    {
      LayoutConstants();
      KeyOfIndex(i, ResultsCapacity(t.bitmap));
      assert Exact(t, FromIndex(i)) == Exact(t', FromIndex(i));
    }
    PackedUnique(ResultsBits(t.bitmap), Items(t.results), ResultsBits(t'.bitmap), Items(t'.results));
  }

  /** A child in use shows in the bindings, so the other tree has it too. */
  lemma ChildFollowsBindings<T>(t: Tree<T>, t': Tree<T>, key: Key)
    requires WellFormed(t) && WellFormed(t') && Canonical(t) && |key| == 5
    requires IsEndNode(t.bitmap) == IsEndNode(t'.bitmap)
    requires forall k :: Exact(t, k) == Exact(t', k)
    ensures GetChild(t, key).Some? ==> GetChild(t', key).Some?
  {
    if GetChild(t, key).Some? {
      var k :| Exact(GetChild(t, key).value, k).Some?;
      assert (key + k)[..5] == key && (key + k)[5..] == k;
      assert Exact(t, key + k) == Exact(t', key + k);
    }
  }

  // ---- Steps -------------------------------------------------------------------------------

  /** A node and its map before and after `key` was bound to `x`. */
  ghost predicate Inserted<T>(t: Tree<T>, m: map<Key, T>, t': Tree<T>, m': map<Key, T>, key: Key, x: T) {
    && WellFormed(t) && Refines(t, m)
    && WellFormed(t') && Refines(t', m') && m' == m[key := x]
    && (IsEndNode(t'.bitmap) <==> IsEndNode(t.bitmap) && |key| <= RESULTS_BITS_END_NODE)
    && (BushyBelow(t) ==> BushyBelow(t'))
    && (Bushy(t) ==> Bushy(t'))
    && (CanonicalBelow(t) ==> CanonicalBelow(t'))
  }

  /** The node became normal, if it was not, and has a child for the 5-bit `key`. */
  ghost predicate Opened<T>(t: Tree<T>, m: map<Key, T>, t': Tree<T>, key: Key) {
    && WellFormed(t) && Refines(t, m)
    && WellFormed(t') && Refines(t', m)
    && |key| == RESULTS_BITS_END_NODE && !IsEndNode(t'.bitmap) && GetChild(t', key).Some?
    && (BushyBelow(t) ==> BushyBelow(t'))
    && (CanonicalBelow(t) ==> CanonicalExcept(t', ChildRank(t', key)))
  }

  ghost predicate Converted<T>(t: Tree<T>, m: map<Key, T>, t': Tree<T>) {
    && WellFormed(t) && Refines(t, m)
    && WellFormed(t') && Refines(t', m)
    && !IsEndNode(t'.bitmap)
    && (BushyBelow(t) ==> BushyBelow(t'))
    && (CanonicalBelow(t) ==> CanonicalBelow(t'))
  }

  lemma InsertedKeepsCanonical<T>(t: Tree<T>, m: map<Key, T>, t': Tree<T>, m': map<Key, T>, key: Key, x: T)
    requires Inserted(t, m, t', m', key, x)
    ensures NonEmpty(t')
    ensures Canonical(t) ==> Canonical(t')
  {
    assert Exact(t', key) == Get(m', key);
    if Canonical(t) && !IsEndNode(t'.bitmap) && |key| <= RESULTS_BITS_END_NODE {
      var k :| |k| > RESULTS_BITS_END_NODE && Exact(t, k).Some?;
      assert Exact(t, k) == Get(m, k);
      assert Exact(t', k) == Get(m', k);
    }
  }

  lemma InsertedLocally<T>(t: Tree<T>, m: map<Key, T>, key: Key, x: T)
    requires WellFormed(t) && Refines(t, m) && |key| <= ResultsCapacity(t.bitmap)
    ensures Inserted(t, m, PutResult(t, key, x), m[key := x], key, x)
  {
    PutResultRefines(t, key, x, m);
    PutResultShape(t, key, x);
  }

  lemma OpenedByAdding<T>(t: Tree<T>, m: map<Key, T>, t1: Tree<T>, key: Key)
    requires Converted(t, m, t1) && |key| == RESULTS_BITS_END_NODE
    ensures GetChild(t1, key).None? ==> Opened(t, m, AddChild(t1, key), key)
    ensures GetChild(t1, key).Some? ==> Opened(t, m, t1, key)
  {
    if GetChild(t1, key).None? {
      AddChildRefines(t1, key, m);
      AddChildBinds(t1, key);
      AddChildShape(t1, key);
    } else if CanonicalBelow(t1) {
      CanonicalSparesOne(t1, key);
    }
  }

  /** One binding below `nibble` was changed or dropped; all others stay. */
  lemma ChangedBelow<T>(t: Tree<T>, m: map<Key, T>, c': Tree<T>, mc: map<Key, T>, mc': map<Key, T>,
                        nibble: Key, m': map<Key, T>)
    requires WellFormed(t) && Refines(t, m) && |nibble| == RESULTS_BITS_END_NODE && GetChild(t, nibble).Some?
    requires WellFormed(c') && Refines(c', mc')
    requires forall k :: Get(m', k) == if nibble <= k then Get(mc', k[5..]) else Get(m, k)
    ensures WellFormed(SetChild(t, nibble, c')) && Refines(SetChild(t, nibble, c'), m')
  {
    hide Exact, WellFormed, SetChild, GetChild;
    SetChildPacks(t, nibble, c');
    forall k: Key
      ensures Exact(SetChild(t, nibble, c'), k) == Get(m', k)
    {
      SetChildBinds(t, nibble, c', k);
      assert Exact(t, k) == Get(m, k);
    }
  }

  lemma InsertedBelow<T>(t: Tree<T>, m: map<Key, T>, t1: Tree<T>, mc: map<Key, T>, c': Tree<T>,
                         mc': map<Key, T>, key: Key, x: T)
    requires WellFormed(t) && |key| > ResultsCapacity(t.bitmap) && Opened(t, m, t1, key[..5])
    requires Inserted(GetChild(t1, key[..5]).value, mc, c', mc', key[5..], x)
    ensures Inserted(t, m, SetChild(t1, key[..5], c'), m[key := x], key, x)
    ensures WellFormed(SetChild(t1, key[..5], c')) && Refines(SetChild(t1, key[..5], c'), m[key := x])
    ensures Get(mc, key[5..]) == Get(m, key)
  {
    hide Exact, WellFormed, SetChild, GetChild, BushyBelow, CanonicalBelow, CanonicalExcept;
    var nibble, remaining, m' := key[..5], key[5..], m[key := x];
    var c := GetChild(t1, nibble).value;
    assert key == nibble + remaining;
    BindingBelow(t1, nibble, m, mc, remaining);
    forall k: Key
      ensures Get(m', k) == if nibble <= k then Get(mc', k[5..]) else Get(m, k)
    {
      if nibble <= k {
        assert k == nibble + k[5..];
        BindingBelow(t1, nibble, m, mc, k[5..]);
      }
    }
    assert WellFormed(SetChild(t1, nibble, c')) && Refines(SetChild(t1, nibble, c'), m') by {
      ChangedBelow(t1, m, c', mc, mc', nibble, m');
    }
    InsertedBelowShape(t, m, t1, mc, c', mc', key, x);
  }

  lemma InsertedBelowShape<T>(t: Tree<T>, m: map<Key, T>, t1: Tree<T>, mc: map<Key, T>, c': Tree<T>,
                              mc': map<Key, T>, key: Key, x: T)
    requires WellFormed(t) && |key| > ResultsCapacity(t.bitmap) && Opened(t, m, t1, key[..5])
    requires Inserted(GetChild(t1, key[..5]).value, mc, c', mc', key[5..], x)
    ensures var t' := SetChild(t1, key[..5], c');
            && WellFormed(t') && !IsEndNode(t'.bitmap)
            && (BushyBelow(t) ==> Bushy(t'))
            && (CanonicalBelow(t) ==> CanonicalBelow(t'))
  {
    var nibble, c := key[..5], GetChild(t1, key[..5]).value;
    SetChildPacks(t1, nibble, c');
    SetChildShape(t1, nibble, c');
    if CanonicalBelow(t) {
      CanonicalChild(t1, nibble);
      InsertedKeepsCanonical(c, mc, c', mc', key[5..], x);
    }
  }

  /** A node and its map before and after an existing `key` was rebound, or dropped. */
  ghost predicate Rebound<T>(t: Tree<T>, m: map<Key, T>, t': Tree<T>, m': map<Key, T>, key: Key, v: Option<T>) {
    && WellFormed(t) && Refines(t, m) && key in m
    && WellFormed(t') && Refines(t', m')
    && m' == (if v.Some? then m[key := v.value] else m - {key})
    && IsEndNode(t'.bitmap) == IsEndNode(t.bitmap)
    && (Bushy(t) ==> Bushy(t'))
    && (v.Some? && Canonical(t) ==> Canonical(t'))
  }

  /** Rebinding a key takes no long key away. */
  lemma ReboundKeepsCanonical<T>(t: Tree<T>, m: map<Key, T>, t': Tree<T>, m': map<Key, T>, key: Key, x: T)
    requires WellFormed(t) && Refines(t, m) && WellFormed(t') && Refines(t', m') && m' == m[key := x]
    requires IsEndNode(t'.bitmap) == IsEndNode(t.bitmap) && (CanonicalBelow(t) ==> CanonicalBelow(t'))
    ensures NonEmpty(t')
    ensures Canonical(t) ==> Canonical(t')
  {
    hide CanonicalBelow;
    assert Exact(t', key) == Get(m', key);
    if Canonical(t) && !IsEndNode(t'.bitmap) {
      var k :| |k| > RESULTS_BITS_END_NODE && Exact(t, k).Some?;
      assert Exact(t, k) == Get(m, k);
      assert Exact(t', k) == Get(m', k);
    }
  }

  lemma DroppedLocally<T>(t: Tree<T>, m: map<Key, T>, key: Key)
    requires WellFormed(t) && Refines(t, m) && |key| <= ResultsCapacity(t.bitmap) && key in m
    ensures Exact(t, key) == Get(m, key)
    ensures Rebound(t, m, DropResult(t, key), m - {key}, key, None)
  {
    hide Exact, WellFormed, Bushy;
    DropResultRefines(t, key, m);
    DropResultShape(t, key);
  }

  lemma ReboundLocally<T>(t: Tree<T>, m: map<Key, T>, key: Key, x: T)
    requires WellFormed(t) && Refines(t, m) && |key| <= ResultsCapacity(t.bitmap) && key in m
    ensures Rebound(t, m, PutResult(t, key, x), m[key := x], key, Some(x))
  {
    hide Exact, WellFormed, Bushy, CanonicalBelow;
    PutResultRefines(t, key, x, m);
    PutResultShape(t, key, x);
    ReboundKeepsCanonical(t, m, PutResult(t, key, x), m[key := x], key, x);
  }

  lemma ReboundBelow<T>(t: Tree<T>, m: map<Key, T>, mc: map<Key, T>, c': Tree<T>, mc': map<Key, T>,
                        key: Key, v: Option<T>)
    requires WellFormed(t) && Refines(t, m) && |key| > ResultsCapacity(t.bitmap)
    requires GetChild(t, key[..5]).Some?
    requires Rebound(GetChild(t, key[..5]).value, mc, c', mc', key[5..], v)
    ensures var m' := if v.Some? then m[key := v.value] else m - {key};
            && Rebound(t, m, SetChild(t, key[..5], c'), m', key, v)
            && WellFormed(SetChild(t, key[..5], c')) && Refines(SetChild(t, key[..5], c'), m')
  {
    hide Exact, WellFormed, SetChild, GetChild, BushyBelow, CanonicalBelow;
    var nibble, remaining := key[..5], key[5..];
    var m' := if v.Some? then m[key := v.value] else m - {key};
    assert key == nibble + remaining;
    BindingBelow(t, nibble, m, mc, remaining);
    forall k: Key
      ensures Get(m', k) == if nibble <= k then Get(mc', k[5..]) else Get(m, k)
    {
      if nibble <= k {
        assert k == nibble + k[5..];
        BindingBelow(t, nibble, m, mc, k[5..]);
      }
    }
    ChangedBelow(t, m, c', mc, mc', nibble, m');
    ReboundBelowShape(t, key[..5], c');
    if v.Some? {
      ReboundBelowCanonical(t, nibble, mc, c', mc', remaining, v.value);
      ReboundKeepsCanonical(t, m, SetChild(t, nibble, c'), m', key, v.value);
    }
  }

  lemma ReboundBelowCanonical<T>(t: Tree<T>, nibble: Key, mc: map<Key, T>, c': Tree<T>, mc': map<Key, T>,
                                 remaining: Key, x: T)
    requires WellFormed(t) && |nibble| == RESULTS_BITS_END_NODE && GetChild(t, nibble).Some?
    requires Rebound(GetChild(t, nibble).value, mc, c', mc', remaining, Some(x))
    ensures WellFormed(SetChild(t, nibble, c'))
    ensures CanonicalBelow(t) ==> CanonicalBelow(SetChild(t, nibble, c'))
  {
    hide Exact, WellFormed, SetChild, GetChild, Bushy;
    SetChildShape(t, nibble, c');
    if CanonicalBelow(t) {
      CanonicalSparesOne(t, nibble);
      CanonicalChild(t, nibble);
      assert Exact(c', remaining) == Get(mc', remaining);
    }
  }

  lemma ReboundBelowShape<T>(t: Tree<T>, key: Key, c': Tree<T>)
    requires WellFormed(t) && |key| == RESULTS_BITS_END_NODE && GetChild(t, key).Some? && WellFormed(c')
    requires Bushy(GetChild(t, key).value) ==> Bushy(c')
    ensures WellFormed(SetChild(t, key, c'))
    ensures !IsEndNode(t.bitmap) && !IsEndNode(SetChild(t, key, c').bitmap)
    ensures Bushy(t) ==> Bushy(SetChild(t, key, c'))
  {
    SetChildPacks(t, key, c');
    SetChildShape(t, key, c');
  }

  lemma CanonicalChild<T>(t: Tree<T>, key: Key)
    requires WellFormed(t) && |key| == RESULTS_BITS_END_NODE && GetChild(t, key).Some?
    requires CanonicalExcept(t, ChildRank(t, key))
    ensures Canonical(GetChild(t, key).value)
  {
  }

  lemma MissingBelow<T>(t: Tree<T>, m: map<Key, T>, key: Key)
    requires WellFormed(t) && Refines(t, m) && |key| > ResultsCapacity(t.bitmap)
    ensures GetChild(t, key[..5]).None? ==> key !in m
    ensures key == key[..5] + key[5..]
  {
    assert Exact(t, key) == Get(m, key);
  }

  lemma BindingBelow<T>(t: Tree<T>, nibble: Key, m: map<Key, T>, mc: map<Key, T>, k: Key)
    requires WellFormed(t) && |nibble| == RESULTS_BITS_END_NODE && GetChild(t, nibble).Some?
    requires Refines(t, m) && Refines(GetChild(t, nibble).value, mc)
    ensures Get(m, nibble + k) == Get(mc, k)
  {
    assert Exact(t, nibble + k) == Get(m, nibble + k);
    assert Exact(GetChild(t, nibble).value, k) == Get(mc, k);
    assert (nibble + k)[..5] == nibble && (nibble + k)[5..] == k;
  }
}
