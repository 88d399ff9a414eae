/** The value of a trie node: bitmap layout, packed vectors and the lookups defined on them. */
module Trie {
  import opened Prelude
  import opened Bits

  // ---- The bitmap --------------------------------------------------------------------------

  const RESULTS_BITS_END_NODE: nat := 5
  const RESULTS_BITS: nat := 4
  const CHILDREN_START_END_NODE: nat := 64
  const CHILDREN_START: nat := 32

  /** Bit 0 is the node kind, then the result bits, then the child bits. */
  type Bitmap = b: seq<bool> | |b| == 64 witness seq(64, i => false)

  function ZeroBitmap(): Bitmap {
    seq(64, i => false)
  }

  lemma LayoutConstants()
    ensures CHILDREN_START_END_NODE == Pow2(RESULTS_BITS_END_NODE + 1)
    ensures CHILDREN_START == Pow2(RESULTS_BITS + 1)
    ensures Pow2(5) == 32 && Pow2(6) == 64
  {
    assert Pow2(3) == 8;
    assert Pow2(5) == 32;
  }

  predicate IsEndNode(bitmap: Bitmap) {
    bitmap[0]
  }

  function SetIsEndNode(bitmap: Bitmap, isEndNode: bool): Bitmap {
    bitmap[0 := isEndNode]
  }

  function ChildrenStartAt(bitmap: Bitmap): nat {
    if IsEndNode(bitmap) then CHILDREN_START_END_NODE else CHILDREN_START
  }

  function ResultsCapacity(bitmap: Bitmap): nat {
    if IsEndNode(bitmap) then RESULTS_BITS_END_NODE else RESULTS_BITS
  }

  function ChildrenBits(bitmap: Bitmap): seq<bool> {
    bitmap[ChildrenStartAt(bitmap)..]
  }

  function ResultsBits(bitmap: Bitmap): seq<bool> {
    bitmap[1..ChildrenStartAt(bitmap)]
  }

  function SetResultBit(bitmap: Bitmap, index: nat, b: bool): Bitmap
    requires index < |ResultsBits(bitmap)|
  {
    bitmap[1 + index := b]
  }

  function SetChildBit(bitmap: Bitmap, nibble: nat): Bitmap
    requires nibble < |ChildrenBits(bitmap)|
  {
    bitmap[ChildrenStartAt(bitmap) + nibble := true]
  }

  lemma SetBits(bitmap: Bitmap, i: nat, b: bool)
    ensures i < |ResultsBits(bitmap)| ==>
              var bitmap' := SetResultBit(bitmap, i, b);
              && IsEndNode(bitmap') == IsEndNode(bitmap)
              && ResultsBits(bitmap') == ResultsBits(bitmap)[i := b]
              && ChildrenBits(bitmap') == ChildrenBits(bitmap)
    ensures i < |ChildrenBits(bitmap)| ==>
              var bitmap' := SetChildBit(bitmap, i);
              && IsEndNode(bitmap') == IsEndNode(bitmap)
              && ResultsBits(bitmap') == ResultsBits(bitmap)
              && ChildrenBits(bitmap') == ChildrenBits(bitmap)[i := true]
  {
  }

  /** Every key that fits the capacity has a result bit, and every 5-bit key a child bit. */
  lemma IndexInBounds(bitmap: Bitmap, key: Key)
    ensures |key| <= ResultsCapacity(bitmap) <==> ToIndex(key) < |ResultsBits(bitmap)|
    ensures |key| == RESULTS_BITS_END_NODE && !IsEndNode(bitmap) ==> LoadLe(key) < |ChildrenBits(bitmap)|
  {
    LayoutConstants();
    IndexOfKey(key, ResultsCapacity(bitmap));
    LoadLeBound(key);
  }

  // ---- Nodes -------------------------------------------------------------------------------

  datatype Tree<T> = Tree(bitmap: Bitmap, results: Vec<T>, children: Vec<Tree<T>>)

  function DefaultTree<T>(): Tree<T> {
    Tree(SetIsEndNode(ZeroBitmap(), true), Absent, Absent)
  }

  /** Packing: in every node below, both vectors have one element for each of their bits. */
  ghost predicate WellFormed<T>(t: Tree<T>) {
    && Packed(ResultsBits(t.bitmap), Items(t.results))
    && Packed(ChildrenBits(t.bitmap), Items(t.children))
    && (t.children.Allocated? ==> forall c :: c in t.children.items ==> WellFormed(c))
  }

  function GetChild<T>(t: Tree<T>, key: Key): (child: Option<Tree<T>>)
    requires WellFormed(t) && |key| == RESULTS_BITS_END_NODE
    ensures child.Some? ==> WellFormed(child.value) && child.value in Items(t.children)
  {
    if IsEndNode(t.bitmap) then None
    else
      IndexInBounds(t.bitmap, key);
      RankMonotone(ChildrenBits(t.bitmap), LoadLe(key), |ChildrenBits(t.bitmap)|);
      Slot(ChildrenBits(t.bitmap), Items(t.children), LoadLe(key))
  }

  function Exact<T>(t: Tree<T>, key: Key): Option<T>
    requires WellFormed(t)
    decreases |key|
  {
    if |key| <= ResultsCapacity(t.bitmap) then
      IndexInBounds(t.bitmap, key);
      Slot(ResultsBits(t.bitmap), Items(t.results), ToIndex(key))
    else
      var nibble, remaining := key[..RESULTS_BITS_END_NODE], key[RESULTS_BITS_END_NODE..];
      match GetChild(t, nibble)
      case None => None
      case Some(child) => Exact(child, remaining)
  }

  /** The tree stores exactly the bindings of the map. */
  ghost predicate Refines<T>(t: Tree<T>, m: map<Key, T>)
    requires WellFormed(t)
  {
    forall k :: Exact(t, k) == Get(m, k)
  }

  lemma DefaultTreeIsEmpty<T>()
    ensures WellFormed(DefaultTree<T>()) && IsEndNode(DefaultTree<T>().bitmap)
    ensures Refines(DefaultTree<T>(), map[])
  {
    var t := DefaultTree<T>();
    AllZero(ResultsBits(t.bitmap));
    forall k: Key
      ensures Exact(t, k) == None
    {
      IndexInBounds(t.bitmap, k);
    }
  }

  lemma {:induction false} AllZero(bits: seq<bool>)
    requires forall i :: 0 <= i < |bits| ==> !bits[i]
    ensures CountOnes(bits) == 0
  {
    if bits != [] {
      AllZero(bits[..|bits| - 1]);
    }
  }

  // ---- Local views -------------------------------------------------------------------------

  function ZipResults<T>(bitmap: Bitmap, items: seq<T>): seq<(Key, T)>
    requires Packed(ResultsBits(bitmap), items)
  {
    var ones := IterOnes(ResultsBits(bitmap));
    seq(|ones|, i requires 0 <= i < |ones| => (FromIndex(ones[i]), items[i]))
  }

  /** Keys and values of the local results, in bitmap order. */
  function Results<T>(t: Tree<T>): seq<(Key, T)>
    requires WellFormed(t)
  {
    ZipResults(t.bitmap, Items(t.results))
  }

  /** Keys and nodes of the children, in bitmap order. */
  function Children<T>(t: Tree<T>): (out: seq<(Key, Tree<T>)>)
    requires WellFormed(t)
    ensures Packed(ChildrenBits(t.bitmap), Items(t.children))
    ensures |out| == |Items(t.children)|
    ensures forall i :: 0 <= i < |out| ==> |out[i].0| == RESULTS_BITS_END_NODE
    ensures forall i :: 0 <= i < |out| ==> out[i].1 == Items(t.children)[i] && WellFormed(out[i].1)
  {
    var ones := IterOnes(ChildrenBits(t.bitmap));
    seq(|ones|, i requires 0 <= i < |ones| => (ViewBits(ones[i], RESULTS_BITS_END_NODE), Items(t.children)[i]))
  }

  lemma ChildIsSmaller<T>(t: Tree<T>, i: nat)
    requires WellFormed(t) && i < |Children(t)|
    ensures Children(t)[i].1 < t
  {
    hide WellFormed;
    assert Items(t.children)[i] < t;
  }

  lemma ResultsNames<T>(t: Tree<T>)
    requires WellFormed(t)
    ensures var out := Results(t);
            && |out| == |Items(t.results)|
            && (forall n :: 0 <= n < |out| ==>
                  && |out[n].0| <= ResultsCapacity(t.bitmap)
                  && out[n].1 == Items(t.results)[n]
                  && Exact(t, out[n].0) == Some(out[n].1))
            && (forall m, n :: 0 <= m < n < |out| ==> ToIndex(out[m].0) < ToIndex(out[n].0))
  {
    var bits, items := ResultsBits(t.bitmap), Items(t.results);
    IterOnesNames(bits, items);
    LayoutConstants();
    forall n | 0 <= n < |IterOnes(bits)|
      ensures ToIndex(FromIndex(IterOnes(bits)[n])) == IterOnes(bits)[n]
      ensures |FromIndex(IterOnes(bits)[n])| <= ResultsCapacity(t.bitmap)
    {
      KeyOfIndex(IterOnes(bits)[n], ResultsCapacity(t.bitmap));
    }
  }

  lemma ResultsComplete<T>(t: Tree<T>, key: Key)
    requires WellFormed(t) && |key| <= ResultsCapacity(t.bitmap) && Exact(t, key).Some?
    ensures (key, Exact(t, key).value) in Results(t)
  {
    var bits, items := ResultsBits(t.bitmap), Items(t.results);
    IndexInBounds(t.bitmap, key);
    IterOnesNames(bits, items);
    IndexOfKey(key, 0);
    var n := Rank(bits, ToIndex(key));
    assert Results(t)[n] == (key, items[n]);
  }

  lemma ChildrenNames<T>(t: Tree<T>)
    requires WellFormed(t)
    ensures var out := Children(t);
            && (|out| > 0 ==> !IsEndNode(t.bitmap))
            && (forall n :: 0 <= n < |out| ==>
                  && |out[n].0| == RESULTS_BITS_END_NODE
                  && GetChild(t, out[n].0) == Some(out[n].1))
            && (forall m, n :: 0 <= m < n < |out| ==> out[m].0 != out[n].0)
  {
    var bits, items := ChildrenBits(t.bitmap), Items(t.children);
    assert Packed(bits, items);
    hide WellFormed;
    IterOnesNames(bits, items);
    LayoutConstants();
    forall n | 0 <= n < |IterOnes(bits)|
      ensures LoadLe(ViewBits(IterOnes(bits)[n], 5)) == IterOnes(bits)[n]
    {
      LoadView(IterOnes(bits)[n], 5);
    }
  }

  lemma ChildrenComplete<T>(t: Tree<T>, key: Key) returns (n: nat)
    requires WellFormed(t) && |key| == RESULTS_BITS_END_NODE && GetChild(t, key).Some?
    ensures n < |Children(t)| && Children(t)[n] == (key, GetChild(t, key).value)
  {
    var bits, items := ChildrenBits(t.bitmap), Items(t.children);
    IndexInBounds(t.bitmap, key);
    IterOnesNames(bits, items);
    ViewLoad(key);
    n := Rank(bits, LoadLe(key));
  }
}
