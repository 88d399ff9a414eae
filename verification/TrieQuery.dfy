/** The lookups that walk a trie: iteration, covered prefixes, covering prefixes, longest match. */
module TrieQuery {
  import opened Prelude
  import opened Bits
  import opened Trie

  // ---- Walks -------------------------------------------------------------------------------

  function WithPrefix<T>(prefix: Key, pairs: seq<(Key, T)>): (out: seq<(Key, T)>)
    ensures |out| == |pairs|
    ensures forall n :: 0 <= n < |out| ==> out[n] == (prefix + pairs[n].0, pairs[n].1)
  {
    seq(|pairs|, i requires 0 <= i < |pairs| => (prefix + pairs[i].0, pairs[i].1))
  }

  predicate StartsWith(key: Key, start: Key) {
    start <= key
  }

  /** The pairs with a key that passes. */
  function Filter<T>(pairs: seq<(Key, T)>, keep: Key -> bool): seq<(Key, T)> {
    if pairs == [] then []
    else Filter(pairs[..|pairs| - 1], keep) + if keep(pairs[|pairs| - 1].0) then [pairs[|pairs| - 1]] else []
  }

  function Longer<T>(pairs: seq<(Key, T)>, key: Key): seq<(Key, T)> {
    Filter(pairs, resultKey => StartsWith(resultKey, key))
  }

  function Shorter<T>(pairs: seq<(Key, T)>, key: Key): seq<(Key, T)> {
    Filter(pairs, resultKey => StartsWith(key, resultKey))
  }

  function IterWithPrefix<T>(t: Tree<T>, prefix: Key): seq<(Key, T)>
    requires WellFormed(t)
    decreases t, 1, 0
  {
    WithPrefix(prefix, Results(t)) + IterChildren(t, prefix, 0)
  }

  function IterChildren<T>(t: Tree<T>, prefix: Key, i: nat): seq<(Key, T)>
    requires WellFormed(t) && i <= |Children(t)|
    decreases t, 0, |Children(t)| - i
  {
    if i == |Children(t)| then []
    else
      var (childKey, child) := Children(t)[i];
      IterWithPrefix(child, prefix + childKey) + IterChildren(t, prefix, i + 1)
  }

  function Iter<T>(t: Tree<T>): seq<(Key, T)>
    requires WellFormed(t)
  {
    IterWithPrefix(t, [])
  }

  function Values<T>(t: Tree<T>): seq<T>
    requires WellFormed(t)
    decreases t, 1, 0
  {
    Items(t.results) + ValuesBelow(t, 0)
  }

  function ValuesBelow<T>(t: Tree<T>, i: nat): seq<T>
    requires WellFormed(t) && i <= |Items(t.children)|
    decreases t, 0, |Items(t.children)| - i
  {
    if i == |Items(t.children)| then []
    else Values(Items(t.children)[i]) + ValuesBelow(t, i + 1)
  }

  function ResultsKeysWithPrefix(bitmap: Bitmap, prefix: Key): (out: seq<Key>)
  {
    var ones := IterOnes(ResultsBits(bitmap));
    seq(|ones|, i requires 0 <= i < |ones| => prefix + FromIndex(ones[i]))
  }

  function KeysWithPrefix<T>(t: Tree<T>, prefix: Key): seq<Key>
    requires WellFormed(t)
    decreases t, 1, 0
  {
    ResultsKeysWithPrefix(t.bitmap, prefix) + KeysBelow(t, prefix, 0)
  }

  function KeysBelow<T>(t: Tree<T>, prefix: Key, i: nat): seq<Key>
    requires WellFormed(t) && i <= |Children(t)|
    decreases t, 0, |Children(t)| - i
  {
    if i == |Children(t)| then []
    else
      var (childKey, child) := Children(t)[i];
      KeysWithPrefix(child, prefix + childKey) + KeysBelow(t, prefix, i + 1)
  }

  function Keys<T>(t: Tree<T>): seq<Key>
    requires WellFormed(t)
  {
    KeysWithPrefix(t, [])
  }

  function OrLongerWithPrefix<T>(t: Tree<T>, prefix: Key, key: Key): seq<(Key, T)>
    requires WellFormed(t)
    decreases |key|
  {
    if |key| > ResultsCapacity(t.bitmap) then
      var nibble, remaining := key[..RESULTS_BITS_END_NODE], key[RESULTS_BITS_END_NODE..];
      match GetChild(t, nibble)
      case Some(child) => OrLongerWithPrefix(child, prefix + nibble, remaining)
      case None => []
    else
      WithPrefix(prefix, Longer(Results(t), key)) + OrLongerChildren(t, prefix, key, 0)
  }

  function OrLongerChildren<T>(t: Tree<T>, prefix: Key, key: Key, i: nat): seq<(Key, T)>
    requires WellFormed(t) && i <= |Children(t)|
    decreases |Children(t)| - i
  {
    if i == |Children(t)| then []
    else
      var (childKey, child) := Children(t)[i];
      (if StartsWith(childKey, key) then IterWithPrefix(child, prefix + childKey) else [])
      + OrLongerChildren(t, prefix, key, i + 1)
  }

  function OrLonger<T>(t: Tree<T>, key: Key): seq<(Key, T)>
    requires WellFormed(t)
  {
    OrLongerWithPrefix(t, [], key)
  }

  function MatchesWithPrefix<T>(t: Tree<T>, prefix: Key, key: Key): seq<(Key, T)>
    requires WellFormed(t)
    decreases t, 1, 0
  {
    WithPrefix(prefix, Shorter(Results(t), key)) + MatchesChildren(t, prefix, key, key, 0)
  }

  /** `captured` is the copy of the key that the closure splits, and keeps split, on each call. */
  function MatchesChildren<T>(t: Tree<T>, prefix: Key, key: Key, captured: Key, i: nat): seq<(Key, T)>
    requires WellFormed(t) && i <= |Children(t)|
    requires |key| >= RESULTS_BITS_END_NODE ==> |captured| >= RESULTS_BITS_END_NODE
    decreases t, 0, |Children(t)| - i
  {
    if i == |Children(t)| then []
    else
      var (childKey, child) := Children(t)[i];
      ChildIsSmaller(t, i);
      if StartsWith(key, childKey) then
        MatchesWithPrefix(child, prefix + childKey, captured[RESULTS_BITS_END_NODE..])
        + MatchesChildren(t, prefix, key, captured[..RESULTS_BITS_END_NODE], i + 1)
      else
        MatchesChildren(t, prefix, key, captured, i + 1)
  }

  function Matches<T>(t: Tree<T>, key: Key): seq<(Key, T)>
    requires WellFormed(t)
  {
    MatchesWithPrefix(t, [], key)
  }

  // ---- What a walk lists -------------------------------------------------------------------

  /** `out` has each binding of `t` whose key is in `sel` exactly once, with `prefix` before its key. */
  ghost predicate Lists<T>(out: seq<(Key, T)>, t: Tree<T>, prefix: Key, sel: iset<Key>)
    requires WellFormed(t)
  {
    && Once(out)
    && (forall n :: 0 <= n < |out| ==>
          && prefix <= out[n].0
          && out[n].0[|prefix|..] in sel
          && Exact(t, out[n].0[|prefix|..]) == Some(out[n].1))
    && (forall k :: k in sel && Exact(t, k).Some? ==> Listed(out, prefix + k))
  }

  ghost predicate Once<T>(out: seq<(Key, T)>) {
    forall m, n :: 0 <= m < n < |out| ==> out[m].0 != out[n].0
  }

  ghost predicate Listed<T>(out: seq<(Key, T)>, key: Key) {
    exists n :: 0 <= n < |out| && out[n].0 == key
  }

  lemma ListsEmpty<T>(t: Tree<T>, prefix: Key, sel: iset<Key>)
    requires WellFormed(t)
    requires forall k :: k in sel ==> Exact(t, k).None?
    ensures Lists([], t, prefix, sel)
  {
  }

  /** Only the keys that are bound matter in a selection. */
  lemma ListsSame<T>(out: seq<(Key, T)>, t: Tree<T>, prefix: Key, sel: iset<Key>, sel': iset<Key>)
    requires WellFormed(t) && Lists(out, t, prefix, sel)
    requires forall k :: Exact(t, k).Some? ==> (k in sel <==> k in sel')
    ensures Lists(out, t, prefix, sel')
  {
  }

  lemma ListsConcat<T>(a: seq<(Key, T)>, b: seq<(Key, T)>, t: Tree<T>, prefix: Key, s: iset<Key>, s': iset<Key>)
    requires WellFormed(t) && Lists(a, t, prefix, s) && Lists(b, t, prefix, s')
    requires s !! s'
    ensures Lists(a + b, t, prefix, s + s')
  {
    hide Exact, WellFormed, Once, Listed;
    assert Once(a + b) by {
      forall m, n | 0 <= m < |a| && 0 <= n < |b|
        ensures a[m].0 != b[n].0
      {
        assert a[m].0[|prefix|..] in s && b[n].0[|prefix|..] in s';
      }
      OnceConcat(a, b);
    }
    forall k | k in s + s' && Exact(t, k).Some?
      ensures Listed(a + b, prefix + k)
    {
      ListedConcat(a, b, prefix + k);
    }
  }

  lemma OnceConcat<T>(a: seq<(Key, T)>, b: seq<(Key, T)>)
    requires Once(a) && Once(b) && forall m, n :: 0 <= m < |a| && 0 <= n < |b| ==> a[m].0 != b[n].0
    ensures Once(a + b)
  {
  }

  lemma ListedConcat<T>(a: seq<(Key, T)>, b: seq<(Key, T)>, key: Key)
    requires Listed(a, key) || Listed(b, key)
    ensures Listed(a + b, key)
  {
    if n :| 0 <= n < |a| && a[n].0 == key {
      assert (a + b)[n] == a[n];
    } else {
      var n :| 0 <= n < |b| && b[n].0 == key;
      assert (a + b)[|a| + n] == b[n];
    }
  }

  /** The keys below a child, as seen from its parent. */
  ghost function Under(childKey: Key, sel: iset<Key>): iset<Key> {
    iset k: Key | StartsWith(k, childKey) && k[|childKey|..] in sel
  }

  lemma ListsUnder<T>(out: seq<(Key, T)>, t: Tree<T>, prefix: Key, childKey: Key, child: Tree<T>, sel: iset<Key>)
    requires WellFormed(t) && |childKey| == RESULTS_BITS_END_NODE && GetChild(t, childKey) == Some(child)
    requires Lists(out, child, prefix + childKey, sel)
    ensures Lists(out, t, prefix, Under(childKey, sel))
  {
    hide Exact, WellFormed, GetChild;
    forall n | 0 <= n < |out|
      ensures prefix <= out[n].0 && out[n].0[|prefix|..] in Under(childKey, sel)
      ensures Exact(t, out[n].0[|prefix|..]) == Some(out[n].1)
    {
      var k := out[n].0[|prefix + childKey|..];
      assert out[n].0 == prefix + childKey + k;
      assert out[n].0[|prefix|..] == childKey + k;
      ExactUnder(t, childKey, child, k);
    }
    forall k | k in Under(childKey, sel) && Exact(t, k).Some?
      ensures exists n :: 0 <= n < |out| && out[n].0 == prefix + k
    {
      var k' := k[|childKey|..];
      assert k == childKey + k';
      ExactUnder(t, childKey, child, k');
      assert prefix + childKey + k' == prefix + k;
    }
  }

  lemma ExactUnder<T>(t: Tree<T>, childKey: Key, child: Tree<T>, k: Key)
    requires WellFormed(t) && |childKey| == RESULTS_BITS_END_NODE && GetChild(t, childKey) == Some(child)
    ensures Exact(t, childKey + k) == Exact(child, k)
    ensures (childKey + k)[|childKey|..] == k
  {
    assert (childKey + k)[..5] == childKey && (childKey + k)[5..] == k;
  }

  // ---- Local results -----------------------------------------------------------------------

  /** Keys come in bitmap order, so none comes twice. */
  ghost predicate InOrder<T>(pairs: seq<(Key, T)>) {
    forall m, n :: 0 <= m < n < |pairs| ==> ToIndex(pairs[m].0) < ToIndex(pairs[n].0)
  }

  lemma {:induction false} InFilter<T>(pairs: seq<(Key, T)>, keep: Key -> bool, pair: (Key, T))
    ensures pair in Filter(pairs, keep) <==> pair in pairs && keep(pair.0)
  {
    if pairs != [] {
      var front, last := pairs[..|pairs| - 1], pairs[|pairs| - 1];
      InFilter(front, keep, pair);
      assert pairs == front + [last];
    }
  }

  lemma {:induction false} FilterAll<T>(pairs: seq<(Key, T)>, keep: Key -> bool)
    requires forall k :: keep(k)
    ensures Filter(pairs, keep) == pairs
  {
    if pairs != [] {
      FilterAll(pairs[..|pairs| - 1], keep);
    }
  }

  lemma FilterKeeps<T>(pairs: seq<(Key, T)>, keep: Key -> bool)
    ensures var out := Filter(pairs, keep);
            && (forall m :: 0 <= m < |out| ==> out[m] in pairs && keep(out[m].0))
            && (forall n :: 0 <= n < |pairs| && keep(pairs[n].0) ==> pairs[n] in out)
    ensures (forall k :: keep(k)) ==> Filter(pairs, keep) == pairs
  {
    hide Filter;
    var out := Filter(pairs, keep);
    forall m | 0 <= m < |out|
      ensures out[m] in pairs && keep(out[m].0)
    {
      InFilter(pairs, keep, out[m]);
    }
    forall n | 0 <= n < |pairs| && keep(pairs[n].0)
      ensures pairs[n] in out
    {
      InFilter(pairs, keep, pairs[n]);
    }
    if forall k :: keep(k) {
      FilterAll(pairs, keep);
    }
  }

  lemma {:induction false} FilterInOrder<T>(pairs: seq<(Key, T)>, keep: Key -> bool)
    requires InOrder(pairs)
    ensures InOrder(Filter(pairs, keep))
  {
    if pairs != [] {
      hide ToIndex;
      var front, last := pairs[..|pairs| - 1], pairs[|pairs| - 1];
      FilterInOrder(front, keep);
      FilterKeeps(front, keep);
      LastInOrder(pairs, Filter(front, keep));
    }
  }

  lemma LastInOrder<T>(pairs: seq<(Key, T)>, chosen: seq<(Key, T)>)
    requires InOrder(pairs) && pairs != [] && InOrder(chosen)
    requires forall m :: 0 <= m < |chosen| ==> chosen[m] in pairs[..|pairs| - 1]
    ensures InOrder(chosen + [pairs[|pairs| - 1]])
  {
    hide ToIndex;
    forall m | 0 <= m < |chosen|
      ensures ToIndex(chosen[m].0) < ToIndex(pairs[|pairs| - 1].0)
    {
      var n :| 0 <= n < |pairs| - 1 && pairs[n] == chosen[m];
    }
  }

  /** The local results whose key passes, one for each key in `sel`. */
  lemma LocalChoice<T>(t: Tree<T>, keep: Key -> bool, sel: iset<Key>)
    requires WellFormed(t)
    requires forall k :: k in sel <==> keep(k) && |k| <= ResultsCapacity(t.bitmap)
    ensures var pairs := Filter(Results(t), keep);
            && InOrder(pairs)
            && (forall m :: 0 <= m < |pairs| ==> pairs[m].0 in sel && Exact(t, pairs[m].0) == Some(pairs[m].1))
            && (forall k :: k in sel && Exact(t, k).Some? ==> exists m :: 0 <= m < |pairs| && pairs[m].0 == k)
  {
    hide Exact, WellFormed, Results, ToIndex, Filter;
    var all, pairs := Results(t), Filter(Results(t), keep);
    FilterKeeps(all, keep);
    assert InOrder(pairs) by {
      ResultsNames(t);
      FilterInOrder(all, keep);
    }
    forall m | 0 <= m < |pairs|
      ensures pairs[m].0 in sel && Exact(t, pairs[m].0) == Some(pairs[m].1)
    {
      var n :| 0 <= n < |all| && all[n] == pairs[m];
      ResultsNames(t);
    }
    forall k | k in sel && Exact(t, k).Some?
      ensures exists m :: 0 <= m < |pairs| && pairs[m].0 == k
    {
      ResultsComplete(t, k);
      var n :| 0 <= n < |all| && all[n] == (k, Exact(t, k).value);
      assert all[n] in pairs;
    }
  }

  lemma ListsLocal<T>(pairs: seq<(Key, T)>, t: Tree<T>, prefix: Key, sel: iset<Key>)
    requires WellFormed(t) && InOrder(pairs)
    requires forall m :: 0 <= m < |pairs| ==> pairs[m].0 in sel && Exact(t, pairs[m].0) == Some(pairs[m].1)
    requires forall k :: k in sel && Exact(t, k).Some? ==> exists m :: 0 <= m < |pairs| && pairs[m].0 == k
    ensures Lists(WithPrefix(prefix, pairs), t, prefix, sel)
  {
    hide Exact, WellFormed, ToIndex;
    var out := WithPrefix(prefix, pairs);
    forall m | 0 <= m < |out|
      ensures out[m].0[|prefix|..] == pairs[m].0
    {
    }
    forall m, n | 0 <= m < n < |out|
      ensures out[m].0 != out[n].0
    {
      assert out[m].0[|prefix|..] != out[n].0[|prefix|..];
    }
    forall k | k in sel && Exact(t, k).Some?
      ensures exists n :: 0 <= n < |out| && out[n].0 == prefix + k
    {
      var n :| 0 <= n < |pairs| && pairs[n].0 == k;
      assert out[n].0 == prefix + k;
    }
  }

  // ---- Covered prefixes and iteration ------------------------------------------------------

  ghost function Extensions(key: Key): iset<Key> {
    iset k: Key | StartsWith(k, key)
  }

  ghost function Upto(sel: iset<Key>, n: nat): iset<Key> {
    iset k: Key | k in sel && |k| <= n
  }

  /** Extensions of `key` below the children from `i` on. */
  ghost function BelowFrom<T>(children: seq<(Key, T)>, key: Key, i: nat): iset<Key> {
    iset k: Key | StartsWith(k, key) && exists j :: i <= j < |children| && StartsWith(k, children[j].0)
  }

  /** `or_longer` lists exactly the stored extensions of `key`. */
  lemma {:induction false} OrLongerLists<T>(t: Tree<T>, prefix: Key, key: Key)
    requires WellFormed(t)
    ensures Lists(OrLongerWithPrefix(t, prefix, key), t, prefix, Extensions(key))
    decreases t, 1, 0
  {
    hide Lists, Exact;
    if |key| > ResultsCapacity(t.bitmap) {
      var nibble, remaining := key[..RESULTS_BITS_END_NODE], key[RESULTS_BITS_END_NODE..];
      match GetChild(t, nibble)
      case Some(child) =>
        OrLongerLists(child, prefix + nibble, remaining);
        ListsUnder(OrLongerWithPrefix(child, prefix + nibble, remaining), t, prefix, nibble, child,
                   Extensions(remaining));
        UnderExtensions(nibble, remaining);
        assert key == nibble + remaining;
      case None =>
        NothingBelow(t, key);
        ListsEmpty(t, prefix, Extensions(key));
    } else {
      OrLongerChildrenList(t, prefix, key, 0);
      OrLongerHere(t, prefix, key);
    }
  }

  lemma UnderExtensions(nibble: Key, key: Key)
    ensures Under(nibble, Extensions(key)) == Extensions(nibble + key)
  {
    forall k: Key
      ensures k in Under(nibble, Extensions(key)) <==> k in Extensions(nibble + key)
    {
      if StartsWith(k, nibble + key) {
        assert k[..|nibble|] == (nibble + key)[..|nibble|];
        assert k[|nibble|..][..|key|] == key;
      }
      if StartsWith(k, nibble) && StartsWith(k[|nibble|..], key) {
        assert k[..|nibble + key|] == nibble + key;
      }
    }
  }

  lemma NothingBelow<T>(t: Tree<T>, key: Key)
    requires WellFormed(t) && |key| > ResultsCapacity(t.bitmap) && GetChild(t, key[..5]).None?
    ensures forall k :: k in Extensions(key) ==> Exact(t, k).None?
  {
    forall k | k in Extensions(key)
      ensures Exact(t, k).None?
    {
      assert k[..5] == key[..5];
    }
  }

  lemma OrLongerHere<T>(t: Tree<T>, prefix: Key, key: Key)
    requires WellFormed(t) && |key| <= ResultsCapacity(t.bitmap)
    requires Lists(OrLongerChildren(t, prefix, key, 0), t, prefix, BelowFrom(Children(t), key, 0))
    ensures Lists(OrLongerWithPrefix(t, prefix, key), t, prefix, Extensions(key))
  {
    BelowIsLong(t, key);
    hide Lists, Exact, InOrder, WellFormed, Children, Results, OrLongerChildren;
    var cap, local := ResultsCapacity(t.bitmap), Longer(Results(t), key);
    LocalChoice(t, resultKey => StartsWith(resultKey, key), Upto(Extensions(key), cap));
    ListsLocal(local, t, prefix, Upto(Extensions(key), cap));
    ListsConcat(WithPrefix(prefix, local), OrLongerChildren(t, prefix, key, 0), t, prefix,
                Upto(Extensions(key), cap), BelowFrom(Children(t), key, 0));
    ListsSame(OrLongerWithPrefix(t, prefix, key), t, prefix,
              Upto(Extensions(key), cap) + BelowFrom(Children(t), key, 0), Extensions(key));
  }

  /** Keys below the children are those too long for the local results. */
  lemma BelowIsLong<T>(t: Tree<T>, key: Key)
    requires WellFormed(t) && |key| <= ResultsCapacity(t.bitmap)
    ensures forall k :: k in BelowFrom(Children(t), key, 0) ==> |k| > ResultsCapacity(t.bitmap)
    ensures forall k :: StartsWith(k, key) && |k| > ResultsCapacity(t.bitmap) && Exact(t, k).Some? ==>
              k in BelowFrom(Children(t), key, 0)
  {
    hide Children, WellFormed, Exact, GetChild;
    ChildrenNames(t);
    forall k: Key | StartsWith(k, key) && |k| > ResultsCapacity(t.bitmap) && Exact(t, k).Some?
      ensures k in BelowFrom(Children(t), key, 0)
    {
      LongIsBelow(t, k);
    }
  }

  lemma LongIsBelow<T>(t: Tree<T>, k: Key)
    requires WellFormed(t) && |k| > ResultsCapacity(t.bitmap) && Exact(t, k).Some?
    ensures exists j :: 0 <= j < |Children(t)| && StartsWith(k, Children(t)[j].0)
  {
    hide Children, WellFormed;
    var j := ChildrenComplete(t, k[..5]);
    assert StartsWith(k, Children(t)[j].0);
  }

  lemma {:induction false} OrLongerChildrenList<T>(t: Tree<T>, prefix: Key, key: Key, i: nat)
    requires WellFormed(t) && |key| <= ResultsCapacity(t.bitmap) && i <= |Children(t)|
    ensures Lists(OrLongerChildren(t, prefix, key, i), t, prefix, BelowFrom(Children(t), key, i))
    decreases t, 0, |Children(t)| - i
  {
    hide Exact, WellFormed, IterWithPrefix, OrLongerWithPrefix, Children, Lists, BelowFrom, Extensions;
    if i == |Children(t)| {
      NothingFromEnd(Children(t), key);
      ListsEmpty(t, prefix, iset{});
    } else {
      var (childKey, child) := Children(t)[i];
      OrLongerChildrenList(t, prefix, key, i + 1);
      OrLongerLists(child, prefix + childKey, []);
      IterIsOrLonger(child, prefix + childKey);
      OrLongerStep(t, prefix, key, i);
    }
  }

  lemma NothingFromEnd<T>(children: seq<(Key, T)>, key: Key)
    ensures BelowFrom(children, key, |children|) == iset{}
  {
  }

  lemma OrLongerStep<T>(t: Tree<T>, prefix: Key, key: Key, i: nat)
    requires WellFormed(t) && |key| <= ResultsCapacity(t.bitmap) && i < |Children(t)|
    requires Lists(OrLongerChildren(t, prefix, key, i + 1), t, prefix, BelowFrom(Children(t), key, i + 1))
    requires var (childKey, child) := Children(t)[i];
             Lists(IterWithPrefix(child, prefix + childKey), child, prefix + childKey, Extensions([]))
    ensures Lists(OrLongerChildren(t, prefix, key, i), t, prefix, BelowFrom(Children(t), key, i))
  {
    var (childKey, child) := Children(t)[i];
    ChildrenNames(t);
    BelowSplits(Children(t), key, i);
    hide Lists, Exact, IterWithPrefix, Children, WellFormed, BelowFrom, Under, Extensions, GetChild;
    var out := if StartsWith(childKey, key) then IterWithPrefix(child, prefix + childKey) else [];
    var here := if StartsWith(childKey, key) then Under(childKey, Extensions([])) else iset{};
    if StartsWith(childKey, key) {
      ListsUnder(out, t, prefix, childKey, child, Extensions([]));
    } else {
      ListsEmpty(t, prefix, iset{});
    }
    ListsConcat(out, OrLongerChildren(t, prefix, key, i + 1), t, prefix, here,
                BelowFrom(Children(t), key, i + 1));
  }

  lemma BelowSplits<T>(children: seq<(Key, T)>, key: Key, i: nat)
    requires |key| <= RESULTS_BITS_END_NODE && i < |children|
    requires forall j :: 0 <= j < |children| ==> |children[j].0| == RESULTS_BITS_END_NODE
    requires forall j, k :: 0 <= j < k < |children| ==> children[j].0 != children[k].0
    ensures var childKey := children[i].0;
            var here := if StartsWith(childKey, key) then Under(childKey, Extensions([])) else iset{};
            && here !! BelowFrom(children, key, i + 1)
            && here + BelowFrom(children, key, i + 1) == BelowFrom(children, key, i)
  {
    var childKey := children[i].0;
    forall k: Key
      ensures k in (if StartsWith(childKey, key) then Under(childKey, Extensions([])) else iset{}) <==>
              StartsWith(k, key) && StartsWith(k, childKey)
    {
      UnderChild(childKey, key, k);
    }
    forall k: Key, j | i < j < |children| && StartsWith(k, childKey)
      ensures !StartsWith(k, children[j].0)
    {
      assert k[..5] == childKey;
    }
  }

  lemma UnderChild(childKey: Key, key: Key, k: Key)
    requires |key| <= |childKey|
    ensures k in (if StartsWith(childKey, key) then Under(childKey, Extensions([])) else iset{}) <==>
            StartsWith(k, key) && StartsWith(k, childKey)
  {
    if StartsWith(k, childKey) {
      assert StartsWith(k[|childKey|..], []);
      if StartsWith(k, key) {
        assert childKey[..|key|] == k[..|key|] == key;
      }
      if StartsWith(childKey, key) {
        assert k[..|key|] == childKey[..|key|] == key;
      }
    }
  }

  /** `or_longer` of the empty key is `iter`. */
  lemma {:induction false} IterIsOrLonger<T>(t: Tree<T>, prefix: Key)
    requires WellFormed(t)
    ensures OrLongerWithPrefix(t, prefix, []) == IterWithPrefix(t, prefix)
  {
    FilterKeeps(Results(t), resultKey => StartsWith(resultKey, []));
    IterChildrenIsOrLonger(t, prefix, 0);
  }

  lemma {:induction false} IterChildrenIsOrLonger<T>(t: Tree<T>, prefix: Key, i: nat)
    requires WellFormed(t) && i <= |Children(t)|
    ensures OrLongerChildren(t, prefix, [], i) == IterChildren(t, prefix, i)
    decreases |Children(t)| - i
  {
    hide IterWithPrefix, Children, WellFormed;
    if i < |Children(t)| {
      IterChildrenIsOrLonger(t, prefix, i + 1);
    }
  }

  ghost predicate Zipped<T>(out: seq<(Key, T)>, keys: seq<Key>, values: seq<T>) {
    && |out| == |keys| == |values|
    && forall n :: 0 <= n < |out| ==> out[n] == (keys[n], values[n])
  }

  lemma ZippedConcat<T>(a: seq<(Key, T)>, keys: seq<Key>, values: seq<T>,
                        b: seq<(Key, T)>, keys': seq<Key>, values': seq<T>)
    requires Zipped(a, keys, values) && Zipped(b, keys', values')
    ensures Zipped(a + b, keys + keys', values + values')
  {
  }

  /** `iter` pairs `keys` with `values`, position by position. */
  lemma {:induction false} IterZipsKeysAndValues<T>(t: Tree<T>, prefix: Key)
    requires WellFormed(t)
    ensures Zipped(IterWithPrefix(t, prefix), KeysWithPrefix(t, prefix), Values(t))
    decreases t, 1, 0
  {
    assert Zipped(WithPrefix(prefix, Results(t)), ResultsKeysWithPrefix(t.bitmap, prefix), Items(t.results));
    hide Zipped;
    ZipsBelow(t, prefix, 0);
    ZippedConcat(WithPrefix(prefix, Results(t)), ResultsKeysWithPrefix(t.bitmap, prefix), Items(t.results),
                 IterChildren(t, prefix, 0), KeysBelow(t, prefix, 0), ValuesBelow(t, 0));
  }

  lemma {:induction false} ZipsBelow<T>(t: Tree<T>, prefix: Key, i: nat)
    requires WellFormed(t) && i <= |Children(t)|
    ensures Zipped(IterChildren(t, prefix, i), KeysBelow(t, prefix, i), ValuesBelow(t, i))
    decreases t, 0, |Children(t)| - i
  {
    hide Zipped, IterWithPrefix, KeysWithPrefix, Values, Children, WellFormed, IterChildren, KeysBelow, ValuesBelow;
    if i == |Children(t)| {
      ZipsEnd(t, prefix);
    } else {
      var (childKey, child) := Children(t)[i];
      ChildIsSmaller(t, i);
      IterZipsKeysAndValues(child, prefix + childKey);
      ZipsBelow(t, prefix, i + 1);
      ZipsStep(t, prefix, i);
    }
  }

  lemma ZipsEnd<T>(t: Tree<T>, prefix: Key)
    requires WellFormed(t)
    ensures Zipped(IterChildren(t, prefix, |Children(t)|), KeysBelow(t, prefix, |Children(t)|),
                   ValuesBelow(t, |Children(t)|))
  {
  }

  lemma ZipsStep<T>(t: Tree<T>, prefix: Key, i: nat)
    requires WellFormed(t) && i < |Children(t)|
    requires var (childKey, child) := Children(t)[i];
             Zipped(IterWithPrefix(child, prefix + childKey), KeysWithPrefix(child, prefix + childKey), Values(child))
    requires Zipped(IterChildren(t, prefix, i + 1), KeysBelow(t, prefix, i + 1), ValuesBelow(t, i + 1))
    ensures Zipped(IterChildren(t, prefix, i), KeysBelow(t, prefix, i), ValuesBelow(t, i))
  {
    hide Zipped, IterWithPrefix, KeysWithPrefix, Values, Children, WellFormed;
    var (childKey, child) := Children(t)[i];
    ZippedConcat(IterWithPrefix(child, prefix + childKey), KeysWithPrefix(child, prefix + childKey), Values(child),
                 IterChildren(t, prefix, i + 1), KeysBelow(t, prefix, i + 1), ValuesBelow(t, i + 1));
  }

  /** `iter` lists every binding once. */
  lemma IterLists<T>(t: Tree<T>, prefix: Key)
    requires WellFormed(t)
    ensures Lists(IterWithPrefix(t, prefix), t, prefix, Extensions([]))
  {
    IterIsOrLonger(t, prefix);
    OrLongerLists(t, prefix, []);
  }

  // ---- Longest match -----------------------------------------------------------------------

  /** The first key bound when `key` is shortened from the end. */
  function LongestStored<T>(t: Tree<T>, key: Key): (longest: Option<(Key, T)>)
    requires WellFormed(t)
    ensures longest.Some? ==> StartsWith(key, longest.value.0) && Exact(t, longest.value.0) == Some(longest.value.1)
    ensures forall k :: StartsWith(key, k) && Exact(t, k).Some? ==>
                        longest.Some? && |k| <= |longest.value.0|
  {
    if Exact(t, key).Some? then Some((key, Exact(t, key).value))
    else if key == [] then None
    else
      assert forall k :: StartsWith(key, k) && k != key ==> StartsWith(key[..|key| - 1], k);
      LongestStored(t, key[..|key| - 1])
  }

  ghost function Prepend<T>(prefix: Key, longest: Option<(Key, T)>): Option<(Key, T)> {
    match longest
    case None => None
    case Some((k, v)) => Some((prefix + k, v))
  }

  /** The stored binding whose key is the longest prefix of `key`. */
  method LongestMatchWithPrefix<T>(t: Tree<T>, prefix: Key, key: Key) returns (found: Option<(Key, T)>)
    requires WellFormed(t)
    ensures found == Prepend(prefix, LongestStored(t, key))
    decreases |key|
  {
    hide Exact, LongestStored, WellFormed, GetChild;
    if |key| > ResultsCapacity(t.bitmap) {
      var nibble, remaining := key[..RESULTS_BITS_END_NODE], key[RESULTS_BITS_END_NODE..];
      var child := GetChild(t, nibble);
      if child.Some? {
        found := LongestMatchWithPrefix(child.value, prefix + nibble, remaining);
        if found.Some? {
          LongestBelow(t, nibble, child.value, remaining);
          assert key == nibble + remaining;
          assert forall k :: prefix + nibble + k == prefix + (nibble + k);
          return;
        }
      }
    }
    found := ShrinkingMatch(t, prefix, key);
  }

  /** The fallback: exact matches of ever shorter keys. */
  method ShrinkingMatch<T>(t: Tree<T>, prefix: Key, key: Key) returns (found: Option<(Key, T)>)
    requires WellFormed(t)
    ensures found == Prepend(prefix, LongestStored(t, key))
  {
    hide Exact;
    var rest := key;
    while true
      invariant LongestStored(t, key) == LongestStored(t, rest)
      decreases |rest|
    {
      var result := Exact(t, rest);
      if result.Some? {
        return Some((prefix + rest, result.value));
      }
      if rest != [] {
        rest := rest[..|rest| - 1];
      } else {
        break;
      }
    }
    found := None;
  }

  method LongestMatch<T>(t: Tree<T>, key: Key) returns (found: Option<(Key, T)>)
    requires WellFormed(t)
    ensures found == LongestStored(t, key)
  {
    found := LongestMatchWithPrefix(t, [], key);
    assert found.Some? ==> [] + LongestStored(t, key).value.0 == LongestStored(t, key).value.0;
  }

  lemma {:induction false} LongestBelow<T>(t: Tree<T>, nibble: Key, child: Tree<T>, key: Key)
    requires WellFormed(t) && |nibble| == RESULTS_BITS_END_NODE && GetChild(t, nibble) == Some(child)
    requires LongestStored(child, key).Some?
    ensures LongestStored(t, nibble + key) == Prepend(nibble, LongestStored(child, key))
  {
    ExactUnder(t, nibble, child, key);
    hide Exact, WellFormed, GetChild;
    if Exact(child, key).None? {
      LongestBelow(t, nibble, child, key[..|key| - 1]);
      assert (nibble + key)[..|nibble + key| - 1] == nibble + key[..|key| - 1];
    }
  }

  // ---- Covering prefixes -------------------------------------------------------------------

  ghost function PrefixesOf(key: Key): iset<Key> {
    iset k: Key | StartsWith(key, k)
  }

  /** Position of the one child that `matches` descends into, if there is one. */
  ghost predicate Passes<T>(t: Tree<T>, key: Key, j: int)
    requires WellFormed(t)
  {
    0 <= j < |Children(t)| && StartsWith(key, Children(t)[j].0)
  }

  lemma OnlyOnePasses<T>(t: Tree<T>, key: Key, i: int, j: int)
    requires WellFormed(t) && Passes(t, key, i) && Passes(t, key, j)
    ensures i == j
    ensures |key| >= RESULTS_BITS_END_NODE && GetChild(t, key[..5]) == Some(Children(t)[i].1)
  {
    ChildrenNames(t);
    hide Children, WellFormed, GetChild;
    assert Children(t)[i].0 == key[..5] == Children(t)[j].0;
  }

  lemma {:induction false} MatchesNoChild<T>(t: Tree<T>, prefix: Key, key: Key, captured: Key, i: nat)
    requires WellFormed(t) && i <= |Children(t)|
    requires |key| >= RESULTS_BITS_END_NODE ==> |captured| >= RESULTS_BITS_END_NODE
    requires forall j :: i <= j ==> !Passes(t, key, j)
    ensures MatchesChildren(t, prefix, key, captured, i) == []
    decreases |Children(t)| - i
  {
    hide MatchesWithPrefix, Children, WellFormed;
    if i < |Children(t)| {
      assert !Passes(t, key, i);
      MatchesNoChild(t, prefix, key, captured, i + 1);
    }
  }

  /** The captured key is split once, while it still is the whole key. */
  lemma {:induction false} MatchesOneChild<T>(t: Tree<T>, prefix: Key, key: Key, captured: Key, i: nat, j: nat)
    requires WellFormed(t) && i <= j && Passes(t, key, j)
    requires |key| >= RESULTS_BITS_END_NODE ==> |captured| >= RESULTS_BITS_END_NODE
    ensures |key| >= RESULTS_BITS_END_NODE
    ensures MatchesChildren(t, prefix, key, captured, i) ==
            MatchesWithPrefix(Children(t)[j].1, prefix + key[..5], captured[5..])
    decreases j - i
  {
    hide MatchesWithPrefix, Children, WellFormed, GetChild;
    OnlyOnePasses(t, key, j, j);
    if i == j {
      MatchesThisChild(t, prefix, key, captured, i);
    } else {
      if Passes(t, key, i) {
        OnlyOnePasses(t, key, i, j);
      }
      MatchesOneChild(t, prefix, key, captured, i + 1, j);
    }
  }

  lemma MatchesThisChild<T>(t: Tree<T>, prefix: Key, key: Key, captured: Key, i: nat)
    requires WellFormed(t) && Passes(t, key, i) && |key| >= RESULTS_BITS_END_NODE
    requires |captured| >= RESULTS_BITS_END_NODE
    ensures MatchesChildren(t, prefix, key, captured, i) ==
            MatchesWithPrefix(Children(t)[i].1, prefix + key[..5], captured[5..])
  {
    hide MatchesWithPrefix, Children, WellFormed, GetChild;
    forall j | i < j
      ensures !Passes(t, key, j)
    {
      if Passes(t, key, j) {
        OnlyOnePasses(t, key, i, j);
      }
    }
    MatchesNoChild(t, prefix, key, captured[..5], i + 1);
    assert Children(t)[i].0 == key[..5] by {
      ChildrenNames(t);
    }
    var below := MatchesWithPrefix(Children(t)[i].1, prefix + key[..5], captured[5..]);
    assert below + [] == below;
  }

  /** `matches` is the local covering results, then those of the child on the way to `key`. */
  lemma MatchesUnfold<T>(t: Tree<T>, prefix: Key, key: Key)
    requires WellFormed(t)
    ensures MatchesWithPrefix(t, prefix, key) ==
            WithPrefix(prefix, Shorter(Results(t), key)) +
            if |key| >= 5 && GetChild(t, key[..5]).Some?
            then MatchesWithPrefix(GetChild(t, key[..5]).value, prefix + key[..5], key[5..]) else []
  {
    if |key| >= 5 && GetChild(t, key[..5]).Some? {
      var n := ChildrenComplete(t, key[..5]);
      MatchesOneChild(t, prefix, key, key, 0, n);
    } else {
      forall j
        ensures !Passes(t, key, j)
      {
        if Passes(t, key, j) {
          OnlyOnePasses(t, key, j, j);
        }
      }
      MatchesNoChild(t, prefix, key, key, 0);
    }
  }

  /** `matches` lists exactly the stored prefixes of `key`. */
  lemma {:induction false} MatchesLists<T>(t: Tree<T>, prefix: Key, key: Key)
    requires WellFormed(t)
    ensures Lists(MatchesWithPrefix(t, prefix, key), t, prefix, PrefixesOf(key))
    decreases |key|
  {
    hide Lists, Exact, InOrder;
    var cap, local := ResultsCapacity(t.bitmap), Shorter(Results(t), key);
    var sel := Upto(PrefixesOf(key), cap);
    MatchesUnfold(t, prefix, key);
    LocalChoice(t, resultKey => StartsWith(key, resultKey), sel);
    ListsLocal(local, t, prefix, sel);
    if |key| >= 5 && GetChild(t, key[..5]).Some? {
      var nibble, child := key[..5], GetChild(t, key[..5]).value;
      MatchesLists(child, prefix + nibble, key[5..]);
      var below := MatchesWithPrefix(child, prefix + nibble, key[5..]);
      ListsUnder(below, t, prefix, nibble, child, PrefixesOf(key[5..]));
      PrefixesSplit(key);
      ListsConcat(WithPrefix(prefix, local), below, t, prefix, sel, Under(nibble, PrefixesOf(key[5..])));
      assert sel + Under(nibble, PrefixesOf(key[5..])) == PrefixesOf(key);
    } else {
      assert WithPrefix(prefix, local) + [] == WithPrefix(prefix, local);
      NoLongPrefixes(t, key);
      ListsSame(WithPrefix(prefix, local), t, prefix, sel, PrefixesOf(key));
    }
  }

  lemma PrefixesSplit(key: Key)
    requires |key| >= 5
    ensures Upto(PrefixesOf(key), 4) !! Under(key[..5], PrefixesOf(key[5..]))
    ensures Upto(PrefixesOf(key), 4) + Under(key[..5], PrefixesOf(key[5..])) == PrefixesOf(key)
  {
    forall k: Key
      ensures k in Under(key[..5], PrefixesOf(key[5..])) <==> StartsWith(key, k) && |k| >= 5
    {
      if StartsWith(key, k) && |k| >= 5 {
        assert k[..5] == key[..5];
        assert k[5..] == key[5..][..|k| - 5];
      }
      if StartsWith(k, key[..5]) && StartsWith(key[5..], k[5..]) {
        assert k == key[..5] + key[5..][..|k| - 5] == key[..|k|];
      }
    }
  }

  lemma NoLongPrefixes<T>(t: Tree<T>, key: Key)
    requires WellFormed(t) && (|key| >= 5 ==> GetChild(t, key[..5]).None?)
    ensures forall k :: StartsWith(key, k) && Exact(t, k).Some? ==> |k| <= ResultsCapacity(t.bitmap)
  {
    forall k: Key | StartsWith(key, k) && |k| > ResultsCapacity(t.bitmap)
      ensures Exact(t, k).None?
    {
      assert k[..5] == key[..5];
    }
  }

  ghost predicate Lengthening<T>(out: seq<(Key, T)>) {
    forall m, n :: 0 <= m < n < |out| ==> |out[m].0| < |out[n].0|
  }

  /** The stored prefixes come shortest first. */
  lemma {:induction false} MatchesLengthen<T>(t: Tree<T>, prefix: Key, key: Key)
    requires WellFormed(t)
    ensures Lengthening(MatchesWithPrefix(t, prefix, key))
    decreases |key|
  {
    hide Exact, WellFormed, Results, MatchesWithPrefix, GetChild, Lengthening, InOrder;
    var cap, local := ResultsCapacity(t.bitmap), Shorter(Results(t), key);
    MatchesUnfold(t, prefix, key);
    LocalChoice(t, resultKey => StartsWith(key, resultKey), Upto(PrefixesOf(key), cap));
    LocalLengthen(local, key);
    if |key| >= 5 && GetChild(t, key[..5]).Some? {
      var nibble, child := key[..5], GetChild(t, key[..5]).value;
      MatchesLengthen(child, prefix + nibble, key[5..]);
      MatchesLists(child, prefix + nibble, key[5..]);
      ChildMeansNormal(t, nibble);
      LengthenConcat(prefix, local, MatchesWithPrefix(child, prefix + nibble, key[5..]));
    } else {
      LengthenConcat(prefix, local, []);
    }
  }

  lemma ChildMeansNormal<T>(t: Tree<T>, nibble: Key)
    requires WellFormed(t) && |nibble| == RESULTS_BITS_END_NODE && GetChild(t, nibble).Some?
    ensures ResultsCapacity(t.bitmap) < RESULTS_BITS_END_NODE
  {
  }

  lemma LengthenConcat<T>(prefix: Key, local: seq<(Key, T)>, below: seq<(Key, T)>)
    requires Lengthening(local) && Lengthening(below)
    requires forall m, n :: 0 <= m < |local| && 0 <= n < |below| ==> |prefix| + |local[m].0| < |below[n].0|
    ensures Lengthening(WithPrefix(prefix, local) + below)
  {
  }

  lemma LocalLengthen<T>(pairs: seq<(Key, T)>, key: Key)
    requires InOrder(pairs)
    requires forall m :: 0 <= m < |pairs| ==> StartsWith(key, pairs[m].0)
    ensures Lengthening(pairs)
  {
    forall m, n | 0 <= m < n < |pairs|
      ensures |pairs[m].0| < |pairs[n].0|
    {
      var a, b := pairs[m].0, pairs[n].0;
      assert a == key[..|a|] && b == key[..|b|];
      IndexOfKey(b, |b|);
      IndexOfKey(a, |b|);
    }
  }

  /** The last covering prefix is the longest match. */
  lemma MatchesEndInLongest<T>(t: Tree<T>, key: Key)
    requires WellFormed(t)
    ensures var out := Matches(t, key);
            LongestStored(t, key) == if out == [] then None else Some(out[|out| - 1])
  {
    hide Exact, LongestStored, MatchesWithPrefix, WellFormed;
    var out, longest := Matches(t, key), LongestStored(t, key);
    MatchesLists(t, [], key);
    MatchesLengthen(t, [], key);
    hide Matches;
    forall n | 0 <= n < |out|
      ensures StartsWith(key, out[n].0) && Exact(t, out[n].0) == Some(out[n].1)
    {
      assert out[n].0[0..] == out[n].0;
    }
    if longest.Some? {
      assert longest.value.0 in PrefixesOf(key);
      var n :| 0 <= n < |out| && out[n].0 == [] + longest.value.0;
      assert out[n].0 == longest.value.0;
      assert |out[|out| - 1].0| <= |out[n].0|;
    }
  }
}
