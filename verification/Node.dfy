/** The trie node that `insert`, `remove` and `exact_mut` update in place. */
module Nodes {
  import opened Prelude
  import opened Bits
  import opened Trie
  import opened TrieUpdate
  import opened TrieRemoval

  class Node<T> {
    var bitmap: Bitmap
    var results: Vec<T>
    var children: Vec<Node<T>>

    /** The node as a value, and the plain map it stands for. */
    ghost var view: Tree<T>
    ghost var contents: map<Key, T>
    ghost var Repr: set<object>

    ghost predicate Valid()
      reads this, Repr
      ensures Valid() ==> this in Repr && WellFormed(view) && Refines(view, contents)
      ensures Valid() ==> view.bitmap == bitmap && view.results == results
      decreases Repr, 1
    {
      && Owned()
      && Mirrors(view, -1)
      && WellFormed(view)
      && Refines(view, contents)
    }

    /** The children own disjoint parts of the heap and are valid themselves. */
    ghost predicate Owned()
      reads `children, `Repr, Repr - {this}
      decreases Repr, 0
    {
      && this in Repr
      && (forall i :: 0 <= i < |Items(children)| ==>
            var c := Items(children)[i];
            c != this && c in Repr && c.Repr <= Repr - {this} && c.Valid())
      && (forall i, j :: 0 <= i < j < |Items(children)| ==>
            Items(children)[i].Repr !! Items(children)[j].Repr)
    }

    /** The fields are those of `t`; the child at `stale` may have changed since. */
    ghost predicate Mirrors(t: Tree<T>, stale: int)
      reads this, Items(children)
    {
      && t.bitmap == bitmap && t.results == results
      && t.children.Allocated? == children.Allocated?
      && |Items(t.children)| == |Items(children)|
      && forall i :: 0 <= i < |Items(children)| && i != stale ==>
           Items(t.children)[i] == Items(children)[i].view
    }

    twostate lemma OwnedKept()
      requires old(Owned()) && children == old(children) && Repr == old(Repr)
      requires forall o :: o in Repr && o != this ==> unchanged(o)
      ensures Owned()
    {
    }

    twostate predicate Adopts(i: nat)
      reads this, Repr
    {
      && old(Repr) <= Repr
      && i <= |old(Items(children))| && children.Allocated? && i < |children.items|
      && children.items == InsertAt(old(Items(children)), i, children.items[i])
      && forall o :: o in old(Repr) && o != this ==> unchanged(o)
    }

    /** The children that were there before keep their objects, regions and views. */
    twostate lemma AdoptedSiblings(i: nat)
      requires old(Owned()) && Adopts(i)
      ensures children.Allocated? && i < |Items(children)| == |old(Items(children))| + 1
      ensures forall j :: 0 <= j < |Items(children)| && j != i ==>
                var c := Items(children)[j];
                && c == old(Items(children))[Before(i, j)]
                && c != this && c in old(Repr) && c.Repr == old(c.Repr) && c.Repr <= old(Repr) - {this}
                && c.view == old(c.view) && c.Valid()
      ensures forall j, k :: 0 <= j < k < |Items(children)| && j != i && k != i ==>
                Items(children)[j].Repr !! Items(children)[k].Repr
    {
      hide Valid, InsertAt;
      var was, now := old(Items(children)), Items(children);
      InsertAtElements(was, i, now[i]);
      forall j | 0 <= j < |now| && j != i
        ensures now[j] == was[Before(i, j)] && now[j] in old(Repr) && now[j].Repr == old(now[j].Repr)
      {
      }
      forall j, k | 0 <= j < k < |now| && j != i && k != i
        ensures now[j].Repr !! now[k].Repr
      {
        assert old(was[Before(i, j)].Repr !! was[Before(i, k)].Repr);
      }
    }

    twostate lemma ChildAdopted(i: nat)
      requires old(Owned()) && Adopts(i)
      requires children.items[i].Valid() && fresh(children.items[i].Repr)
      requires Repr == old(Repr) + children.items[i].Repr
      ensures Owned()
    {
      hide Valid, InsertAt, Adopts;
      AdoptedSiblings(i);
      var cs := Items(children);
      assert cs[i].Repr !! old(Repr) && cs[i] != this && this in Repr;
      forall j | 0 <= j < |cs| && j != i
        ensures cs[j].Repr !! cs[i].Repr && cs[j].Repr <= Repr - {this}
      {
      }
    }

    twostate lemma ViewsAdopted(i: nat)
      requires old(Owned()) && old(Mirrors(view, -1)) && Adopts(i)
      ensures var views := InsertAt(Items(old(view).children), i, Items(children)[i].view);
              |views| == |Items(children)| && forall j :: 0 <= j < |views| ==> views[j] == Items(children)[j].view
    {
      hide Valid, InsertAt, Owned;
      AdoptedSiblings(i);
      InsertAtElements(Items(old(view).children), i, Items(children)[i].view);
    }

    constructor ()
      ensures Valid() && fresh(Repr)
      ensures view == DefaultTree() && contents == map[]
    {
      bitmap := SetIsEndNode(ZeroBitmap(), true);
      results, children := Absent, Absent;
      view, contents, Repr := DefaultTree(), map[], {this};
      new;
      DefaultTreeIsEmpty<T>();
    }

    /** A change inside the child at `i` that grows its region by fresh objects only. */
    twostate predicate Touched(i: nat)
      reads this, Items(children), Repr
    {
      && i < |Items(children)|
      && bitmap == old(bitmap) && results == old(results) && children == old(children) && view == old(view)
      && old(Repr) <= Repr == old(Repr) + Items(children)[i].Repr
      && fresh(Items(children)[i].Repr - old(Items(children)[i].Repr))
      && forall o :: o in old(Repr) && o != this && o !in old(Items(children)[i].Repr) ==> unchanged(o)
    }

    /** The siblings of a touched child stay as they were. */
    twostate lemma TouchedSiblings(i: nat)
      requires old(Owned()) && Touched(i)
      ensures forall j :: 0 <= j < |Items(children)| && j != i ==>
                var c := Items(children)[j];
                && c in old(Repr) && c != this && c.Repr == old(c.Repr) && c.Repr <= old(Repr) - {this}
                && c.view == old(c.view) && c.Valid() && c.Repr !! Items(children)[i].Repr
      ensures forall j, k :: 0 <= j < k < |Items(children)| && j != i && k != i ==>
                Items(children)[j].Repr !! Items(children)[k].Repr
    {
      hide Valid;
      var cs := Items(children);
      forall j | 0 <= j < |cs| && j != i
        ensures cs[j].Valid() && cs[j].Repr == old(cs[j].Repr) && cs[j].view == old(cs[j].view)
        ensures old(cs[j].Repr !! cs[i].Repr) && cs[j].Repr <= old(Repr) - {this}
      {
        assert old(Items(children)[j].Repr !! Items(children)[i].Repr);
      }
      forall j, k | 0 <= j < k < |cs| && j != i && k != i
        ensures cs[j].Repr !! cs[k].Repr
      {
        assert old(Items(children)[j].Repr !! Items(children)[k].Repr);
      }
    }

    twostate lemma ChildChanged(i: nat)
      requires old(Owned()) && old(Mirrors(view, -1)) && Touched(i)
      requires Items(children)[i].Valid()
      ensures Owned() && Mirrors(view, i)
    {
      hide Valid;
      TouchedSiblings(i);
      assert old(Items(children)[i] != this && Items(children)[i].Repr <= Repr - {this});
    }

    method GetChildMut(key: Key) returns (child: Option<Node<T>>)
      requires Valid() && |key| == RESULTS_BITS_END_NODE
      ensures child.Some? <==> GetChild(view, key).Some?
      ensures child.Some? ==>
                && !IsEndNode(bitmap)
                && ChildRank(view, key) < |Items(children)| == |Items(view.children)|
                && child.value == Items(children)[ChildRank(view, key)]
                && GetChild(view, key) == Some(child.value.view)
                && Items(view.children)[ChildRank(view, key)] == child.value.view
    {
      if IsEndNode(bitmap) {
        return None;
      }
      var nibble := LoadLe(key);
      IndexInBounds(bitmap, key);
      RankMonotone(ChildrenBits(bitmap), nibble, |ChildrenBits(bitmap)|);
      if ChildrenBits(bitmap)[nibble] {
        var vecIndex := CountOnes(ChildrenBits(bitmap)[..nibble]);
        child := Some(children.items[vecIndex]);
      } else {
        child := None;
      }
    }

    /** Bookkeeping once the child below `key` has changed in place. */
    ghost method Reattach(key: Key, newContents: map<Key, T>)
      requires |key| == RESULTS_BITS_END_NODE && WellFormed(view) && GetChild(view, key).Some?
      requires ChildRank(view, key) < |Items(children)|
      requires Owned() && Mirrors(view, ChildRank(view, key))
      requires var view' := SetChild(view, key, Items(children)[ChildRank(view, key)].view);
               WellFormed(view') && Refines(view', newContents)
      modifies `view, `contents
      ensures Valid() && contents == newContents
      ensures WellFormed(old(view))
      ensures view == SetChild(old(view), key, Items(children)[ChildRank(old(view), key)].view)
    {
      ghost var child := Items(children)[ChildRank(view, key)];
      SetChildPacks(view, key, child.view);
      view, contents := SetChild(view, key, child.view), newContents;
    }

    method ConvertToNormal()
      requires Valid()
      modifies Repr
      ensures Valid() && fresh(Repr - old(Repr))
      ensures contents == old(contents)
      ensures !old(IsEndNode(bitmap)) ==> view == old(view)
      ensures Converted(old(view), old(contents), view)
      decreases if IsEndNode(bitmap) then 6 else 5, if IsEndNode(bitmap) then 1 else 0, 0
    {
      hide Exact, Refines, WellFormed, BushyBelow, CanonicalBelow, ZipResults, Owned, Mirrors, Valid;
      if !IsEndNode(bitmap) {
        return;
      }
      ghost var was, before := view, contents;
      EndNodeIsItsResults(was, before);
      var pairs := ZipResults(bitmap, Items(results));
      EmptyNormalNode(was);
      Reset();
      var i := 0;
      while i < |pairs|
        invariant 0 <= i <= |pairs|
        invariant Valid() && fresh(Repr - old(Repr)) && !IsEndNode(bitmap)
        invariant forall k :: k in contents ==> k in before && contents[k] == before[k]
        invariant forall n :: 0 <= n < i ==> pairs[n].0 in contents
        invariant BushyBelow(was) ==> BushyBelow(view)
        invariant CanonicalBelow(was) ==> CanonicalBelow(view)
      {
        var _ := Insert(pairs[i].0, pairs[i].1);
        i := i + 1;
      }
      assert contents == before;
    }

    method Reset()
      requires Valid() && IsEndNode(bitmap)
      modifies `bitmap, `results, `view, `contents
      ensures Valid() && !IsEndNode(bitmap) && contents == map[]
      ensures view == Tree(SetIsEndNode(ZeroBitmap(), false), Absent, old(view).children)
    {
      hide Exact, WellFormed, Refines;
      EmptyNormalNode(view);
      bitmap, results := SetIsEndNode(ZeroBitmap(), false), Absent;
      view, contents := Tree(bitmap, results, view.children), map[];
      OwnedKept();
    }

    method GetOrInsertChild(key: Key) returns (child: Node<T>)
      requires Valid() && |key| == RESULTS_BITS_END_NODE
      modifies Repr
      ensures Valid() && fresh(Repr - old(Repr))
      ensures contents == old(contents)
      ensures Opened(old(view), old(contents), view, key)
      ensures ChildRank(view, key) < |Items(children)|
      ensures child == Items(children)[ChildRank(view, key)] && GetChild(view, key) == Some(child.view)
      decreases if IsEndNode(bitmap) then 6 else 5, if IsEndNode(bitmap) then 1 else 0, 1
    {
      hide Exact, Refines, WellFormed, Valid, CanonicalBelow, CanonicalExcept, BushyBelow;
      ghost var was := view;
      ConvertToNormal();
      OpenedByAdding(was, contents, view, key);
      var nibble := LoadLe(key);
      IndexInBounds(bitmap, key);
      if !ChildrenBits(bitmap)[nibble] {
        NewChild(key, nibble);
      }
      var found := GetChildMut(key);
      child := found.value;
    }

    method NewChild(key: Key, nibble: nat)
      requires Valid() && |key| == RESULTS_BITS_END_NODE && nibble == LoadLe(key)
      requires !IsEndNode(bitmap) && GetChild(view, key).None? && nibble < |ChildrenBits(bitmap)|
      modifies this
      ensures Valid() && fresh(Repr - old(Repr))
      ensures WellFormed(old(view)) && view == AddChild(old(view), key)
      ensures contents == old(contents)
    {
      hide Exact, Refines, WellFormed, CountOnes, LoadLe, Owned, GetChild, AddChild;
      AddChildRefines(view, key, contents);
      AddChildFields(view, key);
      ghost var view' := AddChild(view, key);
      bitmap := SetChildBit(bitmap, nibble);
      if children.Absent? {
        children := Allocated([]);
      }
      var vecIndex := CountOnes(ChildrenBits(bitmap)[..nibble]);
      var child := new Node<T>();
      children := Allocated(InsertAt(children.items, vecIndex, child));
      view := view';
      Repr := Repr + child.Repr;
      ChildAdopted(vecIndex);
      ViewsAdopted(vecIndex);
    }

    method Insert(key: Key, value: T) returns (replaced: Option<T>)
      requires Valid()
      modifies Repr
      ensures Valid() && fresh(Repr - old(Repr))
      ensures replaced == Get(old(contents), key)
      ensures contents == old(contents)[key := value]
      ensures Inserted(old(view), old(contents), view, contents, key, value)
      decreases |key|, if IsEndNode(bitmap) then 1 else 0, 2
    {
      hide Exact, Refines, WellFormed, Inserted, SetChild, GetChild, PutResult, Mirrors, Bushy, BushyBelow;
      hide CanonicalBelow, CanonicalExcept, ChildRank, ResultsBits, ChildrenBits;
      ghost var was := view;
      if |key| <= ResultsCapacity(bitmap) {
        InsertedLocally(view, contents, key, value);
        replaced := InsertLocal(key, value);
      } else {
        var nibble, remaining := key[..RESULTS_BITS_END_NODE], key[RESULTS_BITS_END_NODE..];
        var child := GetOrInsertChild(nibble);
        ghost var open, i, childWas := view, ChildRank(view, nibble), child.contents;
        label grown:
        replaced := child.Insert(remaining, value);
        Repr := Repr + child.Repr;
        ChildChanged@grown(i);
        InsertedBelow(was, contents, open, childWas, child.view, child.contents, key, value);
        Reattach(nibble, contents[key := value]);
      }
    }

    method InsertLocal(key: Key, value: T) returns (replaced: Option<T>)
      requires Valid() && |key| <= ResultsCapacity(bitmap)
      modifies `bitmap, `results, `view, `contents
      ensures Valid()
      ensures replaced == Get(old(contents), key)
      ensures contents == old(contents)[key := value]
      ensures WellFormed(old(view)) && view == PutResult(old(view), key, value)
    {
      hide Exact, Refines, WellFormed, ToIndex, CountOnes;
      PutResultRefines(view, key, value, contents);
      ghost var view' := PutResult(view, key, value);
      var index := ToIndex(key);
      if results.Absent? {
        results := Allocated([]);
      }
      var vecIndex := CountOnes(ResultsBits(bitmap)[..index]);
      if ResultsBits(bitmap)[index] {
        replaced := Some(results.items[vecIndex]);
        results := Allocated(results.items[vecIndex := value]);
      } else {
        bitmap := SetResultBit(bitmap, index, true);
        results := Allocated(InsertAt(results.items, vecIndex, value));
        replaced := None;
      }
      view, contents := view', contents[key := value];
      OwnedKept();
    }

    method Remove(key: Key) returns (removed: Option<T>)
      requires Valid()
      modifies Repr
      ensures Valid() && fresh(Repr - old(Repr))
      ensures removed == Get(old(contents), key)
      ensures contents == old(contents) - {key}
      ensures removed.None? ==> view == old(view)
      ensures removed.Some? ==> Rebound(old(view), old(contents), view, contents, key, None)
      ensures removed.Some? ==> Exact(old(view), key).Some? && view == Removed(old(view), key)
      decreases |key|
    {
      hide Exact, Refines, WellFormed, Rebound, SetChild, GetChild, DropResult, Mirrors, Removed;
      ghost var was := view;
      if |key| <= ResultsCapacity(bitmap) {
        removed := RemoveLocal(key);
      } else {
        var nibble, remaining := key[..RESULTS_BITS_END_NODE], key[RESULTS_BITS_END_NODE..];
        MissingBelow(view, contents, key);
        var found := GetChildMut(nibble);
        if found.None? {
          return None;
        }
        var child := found.value;
        ghost var i, childWas := ChildRank(view, nibble), child.contents;
        BindingBelow(view, nibble, contents, childWas, remaining);
        removed := child.Remove(remaining);
        Repr := Repr + child.Repr;
        ChildChanged(i);
        if removed.Some? {
          ReboundBelow(was, contents, childWas, child.view, child.contents, key, None);
          RemovedBelow(was, key);
          Reattach(nibble, contents - {key});
        } else {
          StillMirrors(i);
        }
      }
    }

    method RemoveLocal(key: Key) returns (removed: Option<T>)
      requires Valid() && |key| <= ResultsCapacity(bitmap)
      modifies `bitmap, `results, `view, `contents
      ensures Valid()
      ensures removed == Get(old(contents), key)
      ensures contents == old(contents) - {key}
      ensures removed.None? ==> view == old(view)
      ensures removed.Some? ==> Rebound(old(view), old(contents), view, contents, key, None)
      ensures removed.Some? ==> Exact(old(view), key).Some? && view == Removed(old(view), key)
    {
      hide Exact, Refines, WellFormed, ToIndex, CountOnes, Rebound, Removed;
      DropResultRefines(view, key, contents);
      var index := ToIndex(key);
      if !ResultsBits(bitmap)[index] {
        return None;
      }
      DroppedLocally(view, contents, key);
      RemovedHere(view, key);
      ghost var view' := DropResult(view, key);
      SetBits(bitmap, index, false);
      bitmap := SetResultBit(bitmap, index, false);
      var vecIndex := CountOnes(ResultsBits(bitmap)[..index]);
      removed := Some(results.items[vecIndex]);
      results := Allocated(RemoveAt(results.items, vecIndex));
      view, contents := view', contents - {key};
      OwnedKept();
    }

    /** `exact_mut` with a write through the reference it returns. */
    method SetExisting(key: Key, value: T) returns (found: bool)
      requires Valid()
      modifies Repr
      ensures Valid() && fresh(Repr - old(Repr))
      ensures found <==> key in old(contents)
      ensures contents == if found then old(contents)[key := value] else old(contents)
      ensures !found ==> view == old(view)
      ensures found ==> Rebound(old(view), old(contents), view, contents, key, Some(value))
      decreases |key|
    {
      hide Exact, Refines, WellFormed, Rebound, SetChild, GetChild, PutResult, Mirrors;
      ghost var was := view;
      if |key| <= ResultsCapacity(bitmap) {
        found := SetExistingLocal(key, value);
      } else {
        var nibble, remaining := key[..RESULTS_BITS_END_NODE], key[RESULTS_BITS_END_NODE..];
        MissingBelow(view, contents, key);
        var slot := GetChildMut(nibble);
        if slot.None? {
          return false;
        }
        var child := slot.value;
        ghost var i, childWas := ChildRank(view, nibble), child.contents;
        BindingBelow(view, nibble, contents, childWas, remaining);
        found := child.SetExisting(remaining, value);
        Repr := Repr + child.Repr;
        ChildChanged(i);
        if found {
          ReboundBelow(was, contents, childWas, child.view, child.contents, key, Some(value));
          Reattach(nibble, contents[key := value]);
        } else {
          StillMirrors(i);
        }
      }
    }

    method SetExistingLocal(key: Key, value: T) returns (found: bool)
      requires Valid() && |key| <= ResultsCapacity(bitmap)
      modifies `results, `view, `contents
      ensures Valid()
      ensures found <==> key in old(contents)
      ensures contents == if found then old(contents)[key := value] else old(contents)
      ensures !found ==> view == old(view)
      ensures found ==> Rebound(old(view), old(contents), view, contents, key, Some(value))
    {
      hide Exact, Refines, WellFormed, ToIndex, CountOnes, Rebound;
      PutResultRefines(view, key, value, contents);
      var index := ToIndex(key);
      found := ResultsBits(bitmap)[index];
      if found {
        ReboundLocally(view, contents, key, value);
        ghost var view' := PutResult(view, key, value);
        var vecIndex := CountOnes(ResultsBits(bitmap)[..index]);
        results := Allocated(results.items[vecIndex := value]);
        view, contents := view', contents[key := value];
        OwnedKept();
      }
    }

    /** `exact`, and the read through `exact_mut`. */
    method ExactMatch(key: Key) returns (found: Option<T>)
      requires Valid()
      ensures found == Get(contents, key) == Exact(view, key)
      decreases |key|
    {
      hide Exact, Refines, WellFormed, Mirrors;
      assert Exact(view, key) == Get(contents, key) by {
        RefinesAt(view, contents, key);
      }
      if |key| <= ResultsCapacity(bitmap) {
        DropResultRefines(view, key, contents);
        var index := ToIndex(key);
        if ResultsBits(bitmap)[index] {
          var vecIndex := CountOnes(ResultsBits(bitmap)[..index]);
          found := Some(results.items[vecIndex]);
        } else {
          found := None;
        }
      } else {
        var nibble, remaining := key[..RESULTS_BITS_END_NODE], key[RESULTS_BITS_END_NODE..];
        MissingBelow(view, contents, key);
        var child := GetChildMut(nibble);
        if child.None? {
          return None;
        }
        BindingBelow(view, nibble, contents, child.value.contents, remaining);
        found := child.value.ExactMatch(remaining);
      }
    }

    /** The node read as a value, as the lookups that borrow it do. */
    function AsTree(): (t: Tree<T>)
      requires Valid()
      reads this, Repr
      ensures t == view
      decreases Repr, 1, 0
    {
      match children
      case Absent => Tree(bitmap, results, Absent)
      case Allocated(nodes) => Tree(bitmap, results, Allocated(TreesFrom(0)))
    }

    function TreesFrom(i: nat): (trees: seq<Tree<T>>)
      requires Valid() && i <= |Items(children)|
      reads this, Repr
      ensures trees == Items(view.children)[i..]
      decreases Repr, 0, |Items(children)| - i
    {
      if i == |Items(children)| then []
      else
        assert Owned();
        [Items(children)[i].AsTree()] + TreesFrom(i + 1)
    }

    lemma StillMirrors(i: nat)
      requires Owned() && Mirrors(view, i) && i < |Items(children)|
      requires Items(view.children)[i] == Items(children)[i].view
      requires WellFormed(view) && Refines(view, contents)
      ensures Valid()
    {
    }
  }

  /** An end node stores nothing beyond its own results. */
  lemma EndNodeIsItsResults<T>(t: Tree<T>, m: map<Key, T>)
    requires WellFormed(t) && Refines(t, m) && IsEndNode(t.bitmap)
    ensures Packed(ResultsBits(t.bitmap), Items(t.results))
    ensures var pairs := ZipResults(t.bitmap, Items(t.results));
            && (forall n :: 0 <= n < |pairs| ==>
                  |pairs[n].0| <= RESULTS_BITS_END_NODE && Get(m, pairs[n].0) == Some(pairs[n].1))
            && (forall k :: k in m ==> exists n :: 0 <= n < |pairs| && pairs[n].0 == k)
  {
    ResultsNames(t);
    forall n | 0 <= n < |Results(t)|
      ensures Get(m, Results(t)[n].0) == Some(Results(t)[n].1)
    {
      assert Exact(t, Results(t)[n].0) == Get(m, Results(t)[n].0);
    }
    forall k | k in m
      ensures exists n :: 0 <= n < |Results(t)| && Results(t)[n].0 == k
    {
      assert Exact(t, k) == Get(m, k);
      ResultsComplete(t, k);
      var n :| 0 <= n < |Results(t)| && Results(t)[n] == (k, Exact(t, k).value);
    }
  }

  /** Emptied and made normal, an end node binds nothing. */
  lemma EmptyNormalNode<T>(was: Tree<T>)
    requires WellFormed(was) && IsEndNode(was.bitmap)
    ensures var t := Tree(SetIsEndNode(ZeroBitmap(), false), Absent, was.children);
            && WellFormed(t) && Refines(t, map[])
            && (BushyBelow(was) ==> BushyBelow(t))
            && (CanonicalBelow(was) ==> CanonicalBelow(t))
  {
    var t := Tree(SetIsEndNode(ZeroBitmap(), false), Absent, was.children);
    assert forall i :: 1 <= i < 64 ==> !t.bitmap[i];
    AllZero(ResultsBits(t.bitmap));
    AllZero(ChildrenBits(t.bitmap));
    forall k: Key
      ensures Exact(t, k) == None
    {
      IndexInBounds(t.bitmap, k);
      if |k| > ResultsCapacity(t.bitmap) {
        IndexInBounds(t.bitmap, k[..5]);
      }
    }
  }

  // ---- Histories ---------------------------------------------------------------------------

  /** `insert`, a read and write through `exact_mut`, and `remove`. */
  datatype Op<T> = Put(key: Key, value: T) | Write(key: Key, value: T) | Drop(key: Key)

  function MapStep<T>(m: map<Key, T>, op: Op<T>): map<Key, T> {
    match op
    case Put(key, value) => m[key := value]
    case Write(key, value) => if key in m then m[key := value] else m
    case Drop(key) => m - {key}
  }

  /** The plain map after a history, and what each operation returned. */
  function MapAfter<T>(ops: seq<Op<T>>): map<Key, T> {
    if ops == [] then map[] else MapStep(MapAfter(ops[..|ops| - 1]), ops[|ops| - 1])
  }

  function Returned<T>(ops: seq<Op<T>>): seq<Option<T>> {
    if ops == [] then []
    else Returned(ops[..|ops| - 1]) + [Get(MapAfter(ops[..|ops| - 1]), ops[|ops| - 1].key)]
  }

  lemma HistoryStep<T>(ops: seq<Op<T>>, i: nat)
    requires i < |ops|
    ensures MapAfter(ops[..i + 1]) == MapStep(MapAfter(ops[..i]), ops[i])
    ensures Returned(ops[..i + 1]) == Returned(ops[..i]) + [Get(MapAfter(ops[..i]), ops[i].key)]
  {
    assert ops[..i + 1][..i] == ops[..i];
  }

  /** The operation removes no key that is not spared; to remove an unknown key changes nothing. */
  ghost predicate SparesIn<T>(m: map<Key, T>, op: Op<T>) {
    op.Drop? && op.key in m ==> Spares(m.Keys, op.key, [])
  }

  /** Every removal of the history spares its key, at its point. */
  ghost predicate DropsSpare<T>(ops: seq<Op<T>>) {
    forall i :: 0 <= i < |ops| ==> SparesIn(MapAfter(ops[..i]), ops[i])
  }

  lemma SpareStep<T>(ops: seq<Op<T>>, i: nat)
    requires i < |ops|
    ensures DropsSpare(ops[..i + 1]) <==> DropsSpare(ops[..i]) && SparesIn(MapAfter(ops[..i]), ops[i])
  {
    hide MapAfter, SparesIn;
    forall j | 0 <= j <= i
      ensures ops[..i + 1][..j] == ops[..j] && (j < i ==> ops[..i][..j] == ops[..j])
    {
    }
  }

  ghost predicate AllCanonical<T>(trees: seq<Tree<T>>) {
    forall i :: 0 <= i < |trees| ==> WellFormed(trees[i]) && Canonical(trees[i])
  }

  /** The trees after each operation, and before the first. */
  ghost predicate Traces<T>(trees: seq<Tree<T>>, ops: seq<Op<T>>)
    requires |trees| == |ops| + 1
  {
    forall i :: 0 <= i <= |ops| ==> WellFormed(trees[i]) && Refines(trees[i], MapAfter(ops[..i]))
  }

  lemma TracesMore<T>(trees: seq<Tree<T>>, ops: seq<Op<T>>, i: nat, t: Tree<T>)
    requires i < |ops| && |trees| == i + 1 && Traces(trees, ops[..i])
    requires WellFormed(t) && Refines(t, MapAfter(ops[..i + 1]))
    ensures Traces(trees + [t], ops[..i + 1])
  {
    hide WellFormed, Refines, MapAfter;
    forall j | 0 <= j <= i + 1
      ensures ops[..i + 1][..j] == ops[..j] && (j <= i ==> ops[..i][..j] == ops[..j])
    {
    }
    forall j | 0 <= j <= i + 1
      ensures WellFormed((trees + [t])[j]) && Refines((trees + [t])[j], MapAfter(ops[..i + 1][..j]))
    {
      if j <= i {
        assert Refines(trees[j], MapAfter(ops[..i][..j]));
      }
    }
  }

  lemma OneMoreTree<T>(trees: seq<Tree<T>>, t: Tree<T>)
    requires WellFormed(t)
    ensures AllCanonical(trees + [t]) <==> AllCanonical(trees) && Canonical(t)
  {
    hide WellFormed, Canonical;
    var all := trees + [t];
    assert all[|trees|] == t;
    assert forall i :: 0 <= i < |trees| ==> all[i] == trees[i];
  }

  lemma LastTree<T>(trees: seq<Tree<T>>)
    requires trees != [] && AllCanonical(trees)
    ensures WellFormed(trees[|trees| - 1]) && Canonical(trees[|trees| - 1])
  {
  }

  /** What the first `i` operations have returned, and the trees they have gone through up to `t`. */
  ghost predicate Replayed<T>(ops: seq<Op<T>>, i: nat, outs: seq<Option<T>>, trees: seq<Tree<T>>, t: Tree<T>)
    requires i <= |ops|
  {
    && outs == Returned(ops[..i])
    && Bushy(t)
    && |trees| == i + 1 && Traces(trees, ops[..i]) && trees[i] == t
    && (AllCanonical(trees) <==> DropsSpare(ops[..i]))
  }

  lemma NothingReplayed<T>(ops: seq<Op<T>>)
    ensures MapAfter(ops[..0]) == map[] && Replayed(ops, 0, [], [DefaultTree()], DefaultTree())
  {
    DefaultTreeShape<T>();
    DefaultTreeIsEmpty<T>();
  }

  lemma ReplayedMore<T>(ops: seq<Op<T>>, i: nat, outs: seq<Option<T>>, trees: seq<Tree<T>>, t: Tree<T>,
                        out: Option<T>, t': Tree<T>)
    requires i < |ops| && Replayed(ops, i, outs, trees, t) && WellFormed(t) && WellFormed(t')
    requires out == Get(MapAfter(ops[..i]), ops[i].key) && Refines(t', MapStep(MapAfter(ops[..i]), ops[i]))
    requires Bushy(t) ==> Bushy(t')
    requires Canonical(t) ==> (Canonical(t') <==> SparesIn(MapAfter(ops[..i]), ops[i]))
    ensures Replayed(ops, i + 1, outs + [out], trees + [t'], t')
  {
    hide Bushy, Canonical, WellFormed, Refines, DropsSpare, MapStep, SparesIn, AllCanonical, Traces, MapAfter, Returned;
    HistoryStep(ops, i);
    SpareStep(ops, i);
    TracesMore(trees, ops, i, t');
    OneMoreTree(trees, t');
    if AllCanonical(trees) {
      LastTree(trees);
    }
  }

  /**
   * Every history of insertions, writes and removals from the default tree behaves as the plain map. All
   * its trees are canonical exactly if every removal spares its key.
   */
  method Replay<T>(ops: seq<Op<T>>) returns (root: Node<T>, outs: seq<Option<T>>, ghost trees: seq<Tree<T>>)
    ensures root.Valid() && fresh(root.Repr)
    ensures root.contents == MapAfter(ops) && outs == Returned(ops)
    ensures forall k :: Exact(root.view, k) == Get(MapAfter(ops), k)
    ensures Bushy(root.view)
    ensures |trees| == |ops| + 1 && Traces(trees, ops) && trees[|ops|] == root.view
    ensures AllCanonical(trees) <==> DropsSpare(ops)
  {
    hide Bushy, Canonical, Exact, WellFormed, Refines, DropsSpare, MapStep, SparesIn, AllCanonical, Traces, MapAfter;
    root := new Node<T>();
    outs, trees := [], [root.view];
    NothingReplayed(ops);
    hide Returned, Replayed;
    var i := 0;
    while i < |ops|
      invariant 0 <= i <= |ops|
      invariant root.Valid() && fresh(root.Repr)
      invariant root.contents == MapAfter(ops[..i])
      invariant Replayed(ops, i, outs, trees, root.view)
    {
      ghost var was := root.view;
      HistoryStep(ops, i);
      var out := Apply(root, ops[i]);
      ReplayedMore(ops, i, outs, trees, was, out, root.view);
      outs, trees := outs + [out], trees + [root.view];
      i := i + 1;
    }
    AllReplayed(ops, outs, trees, root.view);
    RefinesEverywhere(root.view, root.contents);
  }

  lemma AllReplayed<T>(ops: seq<Op<T>>, outs: seq<Option<T>>, trees: seq<Tree<T>>, t: Tree<T>)
    requires Replayed(ops, |ops|, outs, trees, t)
    ensures ops[..|ops|] == ops && outs == Returned(ops) && Bushy(t)
    ensures |trees| == |ops| + 1 && Traces(trees, ops) && trees[|ops|] == t
    ensures AllCanonical(trees) <==> DropsSpare(ops)
  {
    hide Bushy, DropsSpare, AllCanonical, Traces, Returned;
    assert ops[..|ops|] == ops;
  }

  method Apply<T>(root: Node<T>, op: Op<T>) returns (out: Option<T>)
    requires root.Valid()
    modifies root.Repr
    ensures root.Valid() && fresh(root.Repr - old(root.Repr))
    ensures out == Get(old(root.contents), op.key)
    ensures root.contents == MapStep(old(root.contents), op)
    ensures old(Bushy(root.view)) ==> Bushy(root.view)
    ensures WellFormed(old(root.view))
    ensures old(Canonical(root.view)) ==> (Canonical(root.view) <==> SparesIn(old(root.contents), op))
  {
    hide Bushy, Canonical, Exact, WellFormed, Refines, BushyBelow, CanonicalBelow, Removed, Spares;
    ghost var was, before := root.view, root.contents;
    match op {
      case Put(key, value) =>
        out := root.Insert(key, value);
        InsertedKeepsCanonical(was, before, root.view, root.contents, key, value);
      case Write(key, value) =>
        out := root.ExactMatch(key);
        var found := root.SetExisting(key, value);
      case Drop(key) =>
        out := root.Remove(key);
        if Canonical(was) && key in before {
          RemovalKeepsCanonical(was, before, key);
        }
    }
  }

  /** Removing a key keeps the canonical tree exactly if the key is spared. */
  lemma RemovalKeepsCanonical<T>(t: Tree<T>, m: map<Key, T>, key: Key)
    requires WellFormed(t) && Canonical(t) && Refines(t, m) && key in m
    ensures Exact(t, key).Some?
    ensures Canonical(Removed(t, key)) <==> Spares(m.Keys, key, [])
  {
    hide WellFormed, Canonical, Removed, Spares;
    forall k: Key
      ensures Exact(t, k).Some? <==> [] + k in m.Keys
    {
      assert [] + k == k;
      RefinesAt(t, m, k);
    }
    RemovedIsCanonical(t, m.Keys, key, []);
    assert [] + key == key;
  }

  lemma RefinesAt<T>(t: Tree<T>, m: map<Key, T>, k: Key)
    requires WellFormed(t) && Refines(t, m)
    ensures Exact(t, k) == Get(m, k)
  {
  }

  lemma RefinesEverywhere<T>(t: Tree<T>, m: map<Key, T>)
    requires WellFormed(t) && Refines(t, m)
    ensures forall k :: Exact(t, k) == Get(m, k)
  {
  }

  /** Canonical trees of one map are one tree, bit for bit, and the map says of which kind its root is. */
  lemma OneTreePerMap<T>(t: Tree<T>, t': Tree<T>, m: map<Key, T>)
    requires WellFormed(t) && Canonical(t) && Refines(t, m)
    requires WellFormed(t') && Canonical(t') && Refines(t', m)
    ensures t == t'
    ensures !IsEndNode(t.bitmap) <==> exists k :: k in m && |k| > RESULTS_BITS_END_NODE
  {
    forall k: Key
      ensures Exact(t, k) == Exact(t', k) == Get(m, k)
    {
      RefinesAt(t, m, k);
      RefinesAt(t', m, k);
    }
    CanonicalUnique(t, t');
    KindFollowsKeys(t);
    if HasLongKey(t) {
      var k :| |k| > RESULTS_BITS_END_NODE && Exact(t, k).Some?;
      assert k in m;
    }
    if k :| k in m && |k| > RESULTS_BITS_END_NODE {
      assert Exact(t, k).Some?;
    }
  }

  /** Histories whose removals are spared and that leave one map leave one tree, whatever they did to get there. */
  method OrderOfInsertsIsForgotten<T>(ops: seq<Op<T>>, ops': seq<Op<T>>) returns (root: Node<T>, root': Node<T>)
    requires DropsSpare(ops) && DropsSpare(ops') && MapAfter(ops) == MapAfter(ops')
    ensures root.Valid() && root'.Valid() && fresh(root.Repr) && fresh(root'.Repr)
    ensures root.contents == root'.contents == MapAfter(ops)
    ensures root.view == root'.view
    ensures !IsEndNode(root.view.bitmap) <==> exists k :: k in MapAfter(ops) && |k| > RESULTS_BITS_END_NODE
  {
    hide Bushy, Canonical, Exact, DropsSpare, AllCanonical, Refines, WellFormed;
    var outs, outs';
    ghost var trees, trees';
    root, outs, trees := Replay(ops);
    LastTree(trees);
    root', outs', trees' := Replay(ops');
    LastTree(trees');
    OneTreePerMap(root.view, root'.view, MapAfter(ops));
  }

  /** A removal leaves a trace exactly if its key is not spared: no other history without one gets to that tree. */
  method RemovalLeavesATrace<T>(ops: seq<Op<T>>, key: Key, ops': seq<Op<T>>)
    returns (root: Node<T>, root': Node<T>)
    requires DropsSpare(ops) && key in MapAfter(ops)
    requires DropsSpare(ops') && MapAfter(ops') == MapAfter(ops) - {key}
    ensures root.Valid() && root'.Valid() && fresh(root.Repr) && fresh(root'.Repr)
    ensures root.contents == root'.contents == MapAfter(ops) - {key}
    ensures root.view == root'.view <==> Spares(MapAfter(ops).Keys, key, [])
  {
    hide Bushy, Canonical, Exact, DropsSpare, WellFormed, Refines, Spares, MapAfter, AllCanonical;
    var outs, outs';
    ghost var trees, trees';
    root, outs, trees := Replay(ops);
    LastTree(trees);
    var out := Apply(root, Drop(key));
    root', outs', trees' := Replay(ops');
    LastTree(trees');
    if Canonical(root.view) {
      OneTreePerMap(root.view, root'.view, root.contents);
    }
  }
}
