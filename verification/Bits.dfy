/** Bit slices in `Lsb0` order, the index arithmetic of a trie node and vectors packed by rank. */
module Bits {
  import opened Prelude

  /** A key, or a view of a machine word: element `i` is the bit of weight `2^i`. */
  type Key = seq<bool>

  function Bit(b: bool): nat {
    if b then 1 else 0
  }

  function Pow2(n: nat): (p: nat)
    ensures p > 0
  {
    if n == 0 then 1 else 2 * Pow2(n - 1)
  }

  /** Little-endian load: bit 0 is the least significant. */
  function LoadLe(key: Key): nat {
    if key == [] then 0 else Bit(key[0]) + 2 * LoadLe(key[1..])
  }

  /** The first `len` bits of a number. */
  function ViewBits(n: nat, len: nat): (key: Key)
    ensures |key| == len
  {
    if len == 0 then [] else [n % 2 == 1] + ViewBits(n / 2, len - 1)
  }

  /** Number of significant bits: the word size less the leading zeros. */
  function BitLength(n: nat): nat {
    if n == 0 then 0 else 1 + BitLength(n / 2)
  }

  // ---- to_index and from_index -------------------------------------------------------------

  function ToIndex(key: Key): nat {
    var leadingOne := Pow2(|key|);
    var netBits := if key == [] then 0 else LoadLe(key);
    leadingOne + netBits - 1
  }

  function FromIndex(index: nat): Key {
    var prefixLen := BitLength(index + 1) - 1;
    ViewBits(index + 1, prefixLen)
  }

  lemma {:induction false} LoadLeBound(key: Key)
    ensures LoadLe(key) < Pow2(|key|)
  {
    if key != [] {
      LoadLeBound(key[1..]);
    }
  }

  lemma {:induction false} ViewLoad(key: Key)
    ensures ViewBits(LoadLe(key), |key|) == key
  {
    if key != [] {
      ViewLoad(key[1..]);
      assert LoadLe(key) / 2 == LoadLe(key[1..]);
    }
  }

  lemma {:induction false} LoadView(n: nat, len: nat)
    ensures n < Pow2(len) ==> LoadLe(ViewBits(n, len)) == n
  {
    if len != 0 {
      LoadView(n / 2, len - 1);
      assert ViewBits(n, len)[1..] == ViewBits(n / 2, len - 1);
    }
  }

  /** Keys of one length are told apart by their number. */
  lemma LoadLeInjective(a: Key, b: Key)
    requires |a| == |b| && LoadLe(a) == LoadLe(b)
    ensures a == b
  {
    ViewLoad(a);
    ViewLoad(b);
  }

  lemma {:induction false} ViewWithLeadingOne(key: Key)
    ensures BitLength(Pow2(|key|) + LoadLe(key)) == |key| + 1
    ensures ViewBits(Pow2(|key|) + LoadLe(key), |key|) == key
  {
    if key != [] {
      var n := Pow2(|key|) + LoadLe(key);
      assert n / 2 == Pow2(|key[1..]|) + LoadLe(key[1..]);
      ViewWithLeadingOne(key[1..]);
    }
  }

  lemma {:induction false} LoadWithLeadingOne(n: nat)
    requires n > 0
    ensures BitLength(n) > 0
    ensures var len := BitLength(n) - 1;
            && Pow2(len) <= n < Pow2(len + 1)
            && LoadLe(ViewBits(n, len)) + Pow2(len) == n
  {
    if n > 1 {
      LoadWithLeadingOne(n / 2);
      var len := BitLength(n) - 1;
      assert ViewBits(n, len)[1..] == ViewBits(n / 2, len - 1);
    }
  }

  lemma {:induction false} Pow2Monotone(a: nat, b: nat)
    requires a <= b
    ensures Pow2(a) <= Pow2(b)
    decreases b
  {
    if a < b {
      Pow2Monotone(a, b - 1);
    }
  }

  /** `to_index` and `from_index` are inverse, and keys of at most `capacity` bits
      occupy exactly the indices below `2^(capacity+1) - 1`. */
  lemma IndexOfKey(key: Key, capacity: nat)
    ensures FromIndex(ToIndex(key)) == key
    ensures |key| <= capacity <==> ToIndex(key) < Pow2(capacity + 1) - 1
  {
    ViewWithLeadingOne(key);
    LoadLeBound(key);
    if |key| <= capacity {
      Pow2Monotone(|key| + 1, capacity + 1);
    } else {
      Pow2Monotone(capacity + 1, |key|);
    }
  }

  lemma KeyOfIndex(index: nat, capacity: nat)
    ensures ToIndex(FromIndex(index)) == index
    ensures |FromIndex(index)| <= capacity <==> index < Pow2(capacity + 1) - 1
  {
    LoadWithLeadingOne(index + 1);
    LoadView(index + 1, BitLength(index + 1) - 1);
    IndexOfKey(FromIndex(index), capacity);
  }

  // ---- Population count and rank -----------------------------------------------------------

  function CountOnes(bits: seq<bool>): (n: nat)
    ensures n <= |bits|
  {
    if bits == [] then 0
    else CountOnes(bits[..|bits| - 1]) + Bit(bits[|bits| - 1])
  }

  /** Positions of the set bits, in increasing order. */
  function IterOnes(bits: seq<bool>): (ones: seq<nat>)
    ensures |ones| == CountOnes(bits)
    ensures forall n :: 0 <= n < |ones| ==> ones[n] < |bits| && bits[ones[n]]
  {
    if bits == [] then []
    else
      var last := |bits| - 1;
      IterOnes(bits[..last]) + if bits[last] then [last] else []
  }

  /** Setting or clearing one bit shifts the ranks beyond it. */
  lemma {:induction false} CountOnesUpdate(bits: seq<bool>, i: nat, b: bool)
    requires i < |bits|
    ensures CountOnes(bits[i := b]) + Bit(bits[i]) == CountOnes(bits) + Bit(b)
  {
    var last := |bits| - 1;
    if i == last {
      assert bits[i := b][..last] == bits[..last];
    } else {
      CountOnesUpdate(bits[..last], i, b);
      assert bits[i := b][..last] == bits[..last][i := b];
    }
  }

  function Rank(bits: seq<bool>, i: nat): nat
    requires i <= |bits|
  {
    CountOnes(bits[..i])
  }

  lemma RankUpdate(bits: seq<bool>, i: nat, b: bool, j: nat)
    requires i < |bits| && j <= |bits|
    ensures j <= i ==> Rank(bits[i := b], j) == Rank(bits, j)
    ensures i < j ==> Rank(bits[i := b], j) + Bit(bits[i]) == Rank(bits, j) + Bit(b)
  {
    if j <= i {
      assert bits[i := b][..j] == bits[..j];
    } else {
      CountOnesUpdate(bits[..j], i, b);
      assert bits[i := b][..j] == bits[..j][i := b];
    }
  }

  lemma {:induction false} RankGrows(bits: seq<bool>, i: nat, j: nat)
    requires i < j <= |bits|
    ensures Rank(bits, i) + Bit(bits[i]) <= Rank(bits, j)
    decreases j
  {
    var last := j - 1;
    assert bits[..j][..last] == bits[..last];
    assert Rank(bits, j) == Rank(bits, last) + Bit(bits[last]);
    if i < last {
      RankGrows(bits, i, last);
    }
  }

  lemma RankMonotone(bits: seq<bool>, i: nat, j: nat)
    requires i < j <= |bits|
    ensures Rank(bits, i) + Bit(bits[i]) <= Rank(bits, j) <= CountOnes(bits)
  {
    RankGrows(bits, i, j);
    assert bits[..|bits|] == bits;
    if j < |bits| {
      RankGrows(bits, j, |bits|);
    }
  }

  // ---- Packed vectors ----------------------------------------------------------------------

  /** `items` holds one element for each set bit, in the order of the bits. */
  predicate Packed<T>(bits: seq<bool>, items: seq<T>) {
    |items| == CountOnes(bits)
  }

  /** The element stored for bit `i`: read at the rank of `i`, when the bit is set. */
  function Slot<T>(bits: seq<bool>, items: seq<T>, i: nat): Option<T>
    requires Packed(bits, items) && i < |bits|
  {
    RankMonotone(bits, i, |bits|);
    if bits[i] then Some(items[Rank(bits, i)]) else None
  }

  function InsertAt<T>(items: seq<T>, i: nat, x: T): seq<T>
    requires i <= |items|
  {
    items[..i] + [x] + items[i..]
  }

  /** Where the element at `j` was before one was inserted at `i`. */
  function Before(i: nat, j: nat): int {
    if j < i then j else j - 1
  }

  lemma InsertAtElements<T>(items: seq<T>, i: nat, x: T)
    requires i <= |items|
    ensures var items' := InsertAt(items, i, x);
            && |items'| == |items| + 1 && items'[i] == x
            && forall j :: 0 <= j < |items'| && j != i ==> items'[j] == items[Before(i, j)] && items'[j] in items
  {
    var items' := InsertAt(items, i, x);
    forall j | 0 <= j < |items'| && j != i
      ensures items'[j] == items[Before(i, j)]
    {
    }
  }

  function RemoveAt<T>(items: seq<T>, i: nat): seq<T>
    requires i < |items|
  {
    items[..i] + items[i + 1..]
  }

  lemma SlotInserted<T>(bits: seq<bool>, items: seq<T>, i: nat, x: T)
    requires Packed(bits, items) && i < |bits| && !bits[i]
    ensures Rank(bits, i) <= |items|
    ensures var bits', items' := bits[i := true], InsertAt(items, Rank(bits, i), x);
            && Packed(bits', items')
            && Rank(bits', i) == Rank(bits, i)
            && forall j :: 0 <= j < |bits| ==>
                 Slot(bits', items', j) == if j == i then Some(x) else Slot(bits, items, j)
  {
    RankMonotone(bits, i, |bits|);
    CountOnesUpdate(bits, i, true);
    var bits', items' := bits[i := true], InsertAt(items, Rank(bits, i), x);
    forall j | 0 <= j < |bits|
      ensures Slot(bits', items', j) == if j == i then Some(x) else Slot(bits, items, j)
    {
      RankUpdate(bits, i, true, j);
      RankMonotone(bits, j, |bits|);
      if j < i {
        RankMonotone(bits, j, i);
      } else if i < j {
        RankMonotone(bits, i, j);
      }
    }
  }

  lemma SlotReplaced<T>(bits: seq<bool>, items: seq<T>, i: nat, x: T)
    requires Packed(bits, items) && i < |bits| && bits[i]
    ensures Rank(bits, i) < |items|
    ensures var items' := items[Rank(bits, i) := x];
            && Packed(bits, items')
            && forall j :: 0 <= j < |bits| ==>
                 Slot(bits, items', j) == if j == i then Some(x) else Slot(bits, items, j)
  {
    RankMonotone(bits, i, |bits|);
    var items' := items[Rank(bits, i) := x];
    forall j | 0 <= j < |bits|
      ensures Slot(bits, items', j) == if j == i then Some(x) else Slot(bits, items, j)
    {
      RankMonotone(bits, j, |bits|);
      if j < i {
        RankMonotone(bits, j, i);
      } else if i < j {
        RankMonotone(bits, i, j);
      }
    }
  }

  lemma SlotRemoved<T>(bits: seq<bool>, items: seq<T>, i: nat)
    requires Packed(bits, items) && i < |bits| && bits[i]
    ensures Rank(bits, i) < |items|
    ensures var bits', items' := bits[i := false], RemoveAt(items, Rank(bits, i));
            && Packed(bits', items')
            && Rank(bits', i) == Rank(bits, i)
            && forall j :: 0 <= j < |bits| ==>
                 Slot(bits', items', j) == if j == i then None else Slot(bits, items, j)
  {
    RankMonotone(bits, i, |bits|);
    CountOnesUpdate(bits, i, false);
    var bits', items' := bits[i := false], RemoveAt(items, Rank(bits, i));
    RankUpdate(bits, i, false, i);
    forall j | 0 <= j < |bits|
      ensures Slot(bits', items', j) == if j == i then None else Slot(bits, items, j)
    {
      RankUpdate(bits, i, false, j);
      RankMonotone(bits, j, |bits|);
      if j < i {
        RankMonotone(bits, j, i);
      } else if i < j {
        RankMonotone(bits, i, j);
      }
    }
  }

  lemma {:induction false} IterOnesAt(bits: seq<bool>, n: nat)
    requires n < |IterOnes(bits)|
    ensures Rank(bits, IterOnes(bits)[n]) == n
    ensures forall m :: 0 <= m < n ==> IterOnes(bits)[m] < IterOnes(bits)[n]
  {
    var last := |bits| - 1;
    var front, ones := bits[..last], IterOnes(bits);
    var before := IterOnes(front);
    assert ones == before + if bits[last] then [last] else [];
    hide IterOnes, CountOnes;
    if n < |before| {
      IterOnesAt(front, n);
      assert bits[..ones[n]] == front[..ones[n]];
    }
  }

  /** The set bits come in increasing order, and each is found at its rank. */
  lemma IterOnesSorted(bits: seq<bool>)
    ensures var ones := IterOnes(bits);
            && (forall m, n :: 0 <= m < n < |ones| ==> ones[m] < ones[n])
            && (forall n :: 0 <= n < |ones| ==> Rank(bits, ones[n]) == n)
  {
    hide IterOnes, Rank;
    forall n | 0 <= n < |IterOnes(bits)|
      ensures Rank(bits, IterOnes(bits)[n]) == n
      ensures forall m :: 0 <= m < n ==> IterOnes(bits)[m] < IterOnes(bits)[n]
    {
      IterOnesAt(bits, n);
    }
  }

  /** The set bits, in order, name the elements of the vector one by one. */
  lemma IterOnesNames<T>(bits: seq<bool>, items: seq<T>)
    requires Packed(bits, items)
    ensures var ones := IterOnes(bits);
            && (forall m, n :: 0 <= m < n < |ones| ==> ones[m] < ones[n])
            && (forall n :: 0 <= n < |ones| ==> Slot(bits, items, ones[n]) == Some(items[n]))
            && (forall i :: 0 <= i < |bits| && bits[i] ==> Rank(bits, i) < |ones| && ones[Rank(bits, i)] == i)
  {
    IterOnesSorted(bits);
    var ones := IterOnes(bits);
    forall i | 0 <= i < |bits| && bits[i]
      ensures Rank(bits, i) < |ones| && ones[Rank(bits, i)] == i
    {
      RankMonotone(bits, i, |bits|);
      var i' := ones[Rank(bits, i)];
      if i < i' {
        RankMonotone(bits, i, i');
      } else if i' < i {
        RankMonotone(bits, i', i);
      }
    }
  }

  /** A packed vector and its bits are determined by the slots. */
  lemma PackedUnique<T>(bits: seq<bool>, items: seq<T>, bits': seq<bool>, items': seq<T>)
    requires Packed(bits, items) && Packed(bits', items') && |bits| == |bits'|
    requires forall i :: 0 <= i < |bits| ==> Slot(bits, items, i) == Slot(bits', items', i)
    ensures bits == bits' && items == items'
  {
    forall i | 0 <= i < |bits|
      ensures bits[i] == bits'[i]
    {
      assert Slot(bits, items, i) == Slot(bits', items', i);
    }
    assert bits == bits';
    IterOnesNames(bits, items);
    IterOnesNames(bits', items');
    forall n | 0 <= n < |items|
      ensures items[n] == items'[n]
    {
      var i := IterOnes(bits)[n];
      assert Slot(bits, items, i) == Slot(bits', items', i);
    }
  }
}
