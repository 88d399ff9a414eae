/** Hash-consing of route attributes through weak sets of reference-counted allocations. */
module Interning {
  import opened Prelude
  import opened NetKey
  import opened Routes

  /** The address of an allocation. */
  type Arc = nat

  /** A value and the number of handles to it; at 0 it is dropped. */
  datatype Cell<T> = Cell(value: T, strong: nat)

  /** All allocations ever made for a cache, and the weak references it keeps. */
  datatype WeakSet<T> = WeakSet(cells: seq<Cell<T>>, weak: set<Arc>)

  predicate Live<T>(s: WeakSet<T>, a: Arc) {
    a < |s.cells| && s.cells[a].strong > 0
  }

  function Deref<T>(s: WeakSet<T>, a: Arc, none: T): T {
    if a < |s.cells| then s.cells[a].value else none
  }

  /** `get`: a live entry with the given key; dead entries are never found. */
  function Find<T, K(==)>(s: WeakSet<T>, key: K, keyOf: T -> K, n: nat): (found: Option<Arc>)
    requires n <= |s.cells|
    ensures found.Some? ==>
              found.value < n && found.value in s.weak && Live(s, found.value) &&
                  keyOf(s.cells[found.value].value) == key
    ensures found.None? ==>
              forall a: Arc :: a < n && a in s.weak && Live(s, a) ==> keyOf(s.cells[a].value) != key
  {
    if n == 0 then None
    else if n - 1 in s.weak && s.cells[n - 1].strong > 0 && keyOf(s.cells[n - 1].value) == key then Some(n - 1)
    else Find(s, key, keyOf, n - 1)
  }

  function Retain<T>(s: WeakSet<T>, a: Arc): WeakSet<T>
    requires Live(s, a)
  {
    s.(cells := s.cells[a := s.cells[a].(strong := s.cells[a].strong + 1)])
  }

  function Release<T>(s: WeakSet<T>, a: Arc): WeakSet<T>
    requires Live(s, a)
  {
    s.(cells := s.cells[a := s.cells[a].(strong := s.cells[a].strong - 1)])
  }

  function Insert<T>(s: WeakSet<T>, value: T): WeakSet<T> {
    WeakSet(s.cells + [Cell(value, 1)], s.weak + {|s.cells|})
  }

  /** The set after `get_or_insert`, and the handle it returns. */
  function GetOrInsert<T, K(==)>(s: WeakSet<T>, value: T, keyOf: T -> K): (WeakSet<T>, Arc) {
    match Find(s, keyOf(value), keyOf, |s.cells|)
    case Some(a) => (Retain(s, a), a)
    case None => (Insert(s, value), |s.cells|)
  }

  function RemoveExpired<T>(s: WeakSet<T>): WeakSet<T> {
    s.(weak := set a | a in s.weak && Live(s, a))
  }

  // ---- Invariants of one cache -------------------------------------------------------------

  /** Every live allocation is an entry, and no two live allocations have the same key. */
  ghost predicate Canonical<T, K>(s: WeakSet<T>, keyOf: T -> K) {
    && (forall a: Arc :: Live(s, a) ==> a in s.weak)
    && (forall a: Arc, b: Arc :: Live(s, a) && Live(s, b) && keyOf(s.cells[a].value) == keyOf(s.cells[b].value) ==>
         a == b)
  }

  /** The strong count of each allocation is the number of handles to it. */
  ghost predicate Counted<T>(s: WeakSet<T>, holders: multiset<Arc>) {
    && (forall a :: a in holders ==> a < |s.cells|)
    && (forall a :: 0 <= a < |s.cells| ==> s.cells[a].strong == holders[a])
  }

  /** Values never change, whatever happens to the counts. */
  ghost predicate Extends<T>(s: WeakSet<T>, s': WeakSet<T>) {
    && |s.cells| <= |s'.cells|
    && forall a :: 0 <= a < |s.cells| ==> s'.cells[a].value == s.cells[a].value
  }

  lemma GetOrInsertKeeps<T, K>(s: WeakSet<T>, value: T, keyOf: T -> K, holders: multiset<Arc>)
    requires Canonical(s, keyOf) && Counted(s, holders)
    ensures var (s', a) := GetOrInsert(s, value, keyOf);
            && Canonical(s', keyOf) && Counted(s', holders + multiset{a}) && Extends(s, s')
            && Live(s', a) && keyOf(s'.cells[a].value) == keyOf(value)
            && (a < |s.cells| ==> Live(s, a) && s' == Retain(s, a))
            && (a >= |s.cells| ==> a == |s.cells| && s' == Insert(s, value))
  {
    hide Find;
  }

  lemma ReleaseKeeps<T, K>(s: WeakSet<T>, a: Arc, keyOf: T -> K, holders: multiset<Arc>)
    requires Canonical(s, keyOf) && Counted(s, holders + multiset{a})
    ensures Live(s, a)
    ensures Canonical(Release(s, a), keyOf) && Counted(Release(s, a), holders) && Extends(s, Release(s, a))
  {
    assert (holders + multiset{a})[a] > 0;
    assert forall b :: b in holders ==> b in holders + multiset{a};
  }

  /** Exactly the entries of live allocations are left, and no allocation has changed. */
  ghost predicate Cleared<T>(s: WeakSet<T>, s': WeakSet<T>) {
    && s'.cells == s.cells
    && forall a: Arc :: a in s'.weak <==> a in s.weak && a < |s.cells| && s.cells[a].strong > 0
  }

  ghost predicate OnlyLive<T>(s: WeakSet<T>) {
    forall a: Arc :: a in s.weak ==> a < |s.cells| && s.cells[a].strong > 0
  }

  lemma RemoveExpiredKeeps<T, K>(s: WeakSet<T>, keyOf: T -> K, holders: multiset<Arc>)
    requires Canonical(s, keyOf) && Counted(s, holders)
    ensures Canonical(RemoveExpired(s), keyOf) && Counted(RemoveExpired(s), holders) && Extends(s, RemoveExpired(s))
    ensures Cleared(s, RemoveExpired(s))
  {
    assert forall a: Arc :: Live(RemoveExpired(s), a) <==> Live(s, a);
  }

  /** Only the keys of live allocations matter. */
  lemma CanonicalKept<T, K>(s: WeakSet<T>, keyOf: T -> K, keyOf': T -> K)
    requires Canonical(s, keyOf)
    requires forall a: Arc :: Live(s, a) ==> keyOf'(s.cells[a].value) == keyOf(s.cells[a].value)
    ensures Canonical(s, keyOf')
  {
  }

  // ---- Handles inside values ---------------------------------------------------------------

  /** The handles that live allocations hold. */
  ghost function Held<T>(cells: seq<Cell<T>>, refs: T -> multiset<Arc>): multiset<Arc> {
    if cells == [] then multiset{}
    else
      var last := cells[|cells| - 1];
      Held(cells[..|cells| - 1], refs) + if last.strong > 0 then refs(last.value) else multiset{}
  }

  lemma {:induction false} HeldAt<T>(cells: seq<Cell<T>>, refs: T -> multiset<Arc>, a: Arc)
    requires a < |cells| && cells[a].strong > 0
    ensures refs(cells[a].value) <= Held(cells, refs)
  {
    if a < |cells| - 1 {
      HeldAt(cells[..|cells| - 1], refs, a);
    }
  }

  /** A changed count matters only where it starts or stops being 0. */
  lemma {:induction false} HeldUpdate<T>(cells: seq<Cell<T>>, refs: T -> multiset<Arc>, a: Arc, strong: nat)
    requires a < |cells| && cells[a].strong > 0
    ensures var cells' := cells[a := cells[a].(strong := strong)];
            Held(cells, refs) == Held(cells', refs) + if strong > 0 then multiset{} else refs(cells[a].value)
  {
    var cells' := cells[a := cells[a].(strong := strong)];
    var n := |cells| - 1;
    if a < n {
      HeldUpdate(cells[..n], refs, a, strong);
      assert cells'[..n] == cells[..n][a := cells[a].(strong := strong)];
    } else {
      assert cells'[..n] == cells[..n];
    }
  }

  lemma HeldInsert<T>(cells: seq<Cell<T>>, refs: T -> multiset<Arc>, value: T)
    ensures Held(cells + [Cell(value, 1)], refs) == Held(cells, refs) + refs(value)
  {
    assert (cells + [Cell(value, 1)])[..|cells|] == cells;
  }

  // ---- All caches --------------------------------------------------------------------------

  type LargeCommunity = (U32, U32, U32)

  datatype CompressedRouteAttrs = CompressedRouteAttrs(
    origin: Option<RouteOrigin>,
    asPath: Option<Arc>,
    communities: Option<Arc>,
    largeCommunities: Option<Arc>,
    med: Option<U32>,
    localPref: Option<U32>,
    nexthop: Option<IpAddr>)

  datatype State = State(
    paths: WeakSet<seq<U32>>,
    communityLists: WeakSet<seq<(U16, U16)>>,
    larges: WeakSet<LargeCommunity>,
    largeLists: WeakSet<seq<Arc>>,
    routes: WeakSet<CompressedRouteAttrs>)

  function ListValue(larges: WeakSet<LargeCommunity>, list: seq<Arc>): seq<LargeCommunity> {
    seq(|list|, i requires 0 <= i < |list| => Deref(larges, list[i], (0, 0, 0)))
  }

  /** `decompress_route_attrs`: every handle is followed. */
  function Decompress(st: State, r: CompressedRouteAttrs): RouteAttrs {
    RouteAttrs(
      r.origin,
      if r.asPath.Some? then Some(Deref(st.paths, r.asPath.value, [])) else None,
      if r.communities.Some? then Some(Deref(st.communityLists, r.communities.value, [])) else None,
      if r.largeCommunities.Some? then Some(ListValue(st.larges, Deref(st.largeLists, r.largeCommunities.value,
          []))) else None,
      r.med,
      r.localPref,
      r.nexthop)
  }

  // Keys, by which values are compared, and the handles in a value.

  function Itself<T>(): T -> T {
    v => v
  }

  function ListKey(larges: WeakSet<LargeCommunity>): seq<Arc> -> seq<LargeCommunity> {
    list => ListValue(larges, list)
  }

  function RouteKey(st: State): CompressedRouteAttrs -> RouteAttrs {
    r => Decompress(st, r)
  }

  ghost function OptionRef(a: Option<Arc>): multiset<Arc> {
    if a.Some? then multiset{a.value} else multiset{}
  }

  ghost function PathRef(): CompressedRouteAttrs -> multiset<Arc> {
    (r: CompressedRouteAttrs) => OptionRef(r.asPath)
  }

  ghost function CommunitiesRef(): CompressedRouteAttrs -> multiset<Arc> {
    (r: CompressedRouteAttrs) => OptionRef(r.communities)
  }

  ghost function LargeListRef(): CompressedRouteAttrs -> multiset<Arc> {
    (r: CompressedRouteAttrs) => OptionRef(r.largeCommunities)
  }

  ghost function LargeRefs(): seq<Arc> -> multiset<Arc> {
    list => multiset(list)
  }

  /** Handles held by the code that is running, not by a value in a cache. */
  datatype Locals = Locals(
    paths: multiset<Arc>, communityLists: multiset<Arc>, larges: multiset<Arc>, largeLists: multiset<Arc>)

  ghost function NoLocals(): Locals {
    Locals(multiset{}, multiset{}, multiset{}, multiset{})
  }

  ghost predicate Inv(st: State, held: multiset<Arc>, l: Locals) {
    && Canonical(st.paths, Itself())
    && Canonical(st.communityLists, Itself())
    && Canonical(st.larges, Itself())
    && Canonical(st.largeLists, ListKey(st.larges))
    && Canonical(st.routes, RouteKey(st))
    && CountsMatch(st, held, l)
  }

  /** Nothing is leaked or dropped early: counts are those of the handles held outside and inside. */
  ghost predicate CountsMatch(st: State, held: multiset<Arc>, l: Locals) {
    && Counted(st.routes, held)
    && Counted(st.paths, Held(st.routes.cells, PathRef()) + l.paths)
    && Counted(st.communityLists, Held(st.routes.cells, CommunitiesRef()) + l.communityLists)
    && Counted(st.largeLists, Held(st.routes.cells, LargeListRef()) + l.largeLists)
    && Counted(st.larges, Held(st.largeLists.cells, LargeRefs()) + l.larges)
  }

  ghost predicate Grows(st: State, st': State) {
    && Extends(st.paths, st'.paths) && Extends(st.communityLists, st'.communityLists)
    && Extends(st.larges, st'.larges) && Extends(st.largeLists, st'.largeLists)
  }

  lemma GrowsItself(a: State)
    ensures Grows(a, a)
  {
  }

  lemma GrowsOn(a: State, b: State, c: State)
    requires Grows(a, b) && Grows(b, c)
    ensures Grows(a, c)
  {
  }

  lemma HandleInRange<T, U>(cells: seq<Cell<U>>,
                            refs: U -> multiset<Arc>, s: WeakSet<T>, extra: multiset<Arc>, a: Arc, h: Arc)
    requires Counted(s, Held(cells, refs) + extra)
    requires a < |cells| && cells[a].strong > 0 && h in refs(cells[a].value)
    ensures Live(s, h)
  {
    HeldAt(cells, refs, a);
    assert h in Held(cells, refs) + extra;
  }

  /** The value of a live list does not change. */
  lemma ListKept(st: State, st': State, held: multiset<Arc>, l: Locals, a: Arc)
    requires CountsMatch(st, held, l) && Grows(st, st') && Live(st.largeLists, a)
    ensures ListValue(st'.larges, st.largeLists.cells[a].value) == ListValue(st.larges, st.largeLists.cells[a].value)
  {
    var list := st.largeLists.cells[a].value;
    forall i | 0 <= i < |list|
      ensures list[i] < |st.larges.cells|
    {
      assert list[i] in multiset(list);
      HandleInRange(st.largeLists.cells, LargeRefs(), st.larges, l.larges, a, list[i]);
    }
  }

  /** The attributes of a live route do not change. */
  lemma RouteKept(st: State, st': State, held: multiset<Arc>, l: Locals, a: Arc)
    requires CountsMatch(st, held, l) && Grows(st, st') && Live(st.routes, a)
    ensures Decompress(st', st.routes.cells[a].value) == Decompress(st, st.routes.cells[a].value)
  {
    hide Held, ListValue;
    var r := st.routes.cells[a].value;
    if r.asPath.Some? {
      HandleInRange(st.routes.cells, PathRef(), st.paths, l.paths, a, r.asPath.value);
    }
    if r.communities.Some? {
      HandleInRange(st.routes.cells, CommunitiesRef(), st.communityLists, l.communityLists, a, r.communities.value);
    }
    if r.largeCommunities.Some? {
      HandleInRange(st.routes.cells, LargeListRef(), st.largeLists, l.largeLists, a, r.largeCommunities.value);
      ListKept(st, st', held, l, r.largeCommunities.value);
    }
  }

  /** Lists and routes stay canonical while the values below them only grow. */
  lemma KeysKept(st: State, st': State, held: multiset<Arc>, l: Locals)
    requires Inv(st, held, l) && Grows(st, st')
    ensures Canonical(st.largeLists, ListKey(st'.larges))
    ensures Canonical(st.routes, RouteKey(st'))
  {
    hide Held, ListValue, Decompress, Canonical, Counted;
    forall a: Arc | Live(st.largeLists, a)
      ensures ListKey(st'.larges)(st.largeLists.cells[a].value) == ListKey(st.larges)(st.largeLists.cells[a].value)
    {
      ListKept(st, st', held, l, a);
    }
    CanonicalKept(st.largeLists, ListKey(st.larges), ListKey(st'.larges));
    forall a: Arc | Live(st.routes, a)
      ensures RouteKey(st')(st.routes.cells[a].value) == RouteKey(st)(st.routes.cells[a].value)
    {
      RouteKept(st, st', held, l, a);
    }
    CanonicalKept(st.routes, RouteKey(st), RouteKey(st'));
  }

  lemma PathsChange(st: State, s: WeakSet<seq<U32>>, held: multiset<Arc>, l: Locals, paths: multiset<Arc>)
    requires Inv(st, held, l) && Extends(st.paths, s) && Canonical(s, Itself())
    requires Counted(s, Held(st.routes.cells, PathRef()) + paths)
    ensures Inv(st.(paths := s), held, l.(paths := paths))
  {
    KeysKept(st, st.(paths := s), held, l);
  }

  lemma CommunityListsChange(st: State, s: WeakSet<seq<(U16, U16)>>, held: multiset<Arc>, l: Locals,
                             lists: multiset<Arc>)
    requires Inv(st, held, l) && Extends(st.communityLists, s) && Canonical(s, Itself())
    requires Counted(s, Held(st.routes.cells, CommunitiesRef()) + lists)
    ensures Inv(st.(communityLists := s), held, l.(communityLists := lists))
  {
    KeysKept(st, st.(communityLists := s), held, l);
  }

  lemma LargesChange(st: State, s: WeakSet<LargeCommunity>, held: multiset<Arc>, l: Locals, larges: multiset<Arc>)
    requires Inv(st, held, l) && Extends(st.larges, s) && Canonical(s, Itself())
    requires Counted(s, Held(st.largeLists.cells, LargeRefs()) + larges)
    ensures Inv(st.(larges := s), held, l.(larges := larges))
  {
    KeysKept(st, st.(larges := s), held, l);
  }

  lemma LargeListsChange(st: State, s: WeakSet<seq<Arc>>, held: multiset<Arc>, l: Locals, lists: multiset<Arc>,
                         larges: multiset<Arc>)
    requires Inv(st, held, l) && Extends(st.largeLists, s) && Canonical(s, ListKey(st.larges))
    requires Counted(s, Held(st.routes.cells, LargeListRef()) + lists)
    requires Counted(st.larges, Held(s.cells, LargeRefs()) + larges)
    ensures Inv(st.(largeLists := s), held, l.(largeLists := lists, larges := larges))
  {
    KeysKept(st, st.(largeLists := s), held, l);
  }

  lemma RoutesChange(st: State, s: WeakSet<CompressedRouteAttrs>, held: multiset<Arc>, l: Locals,
                     held': multiset<Arc>, l': Locals)
    requires Inv(st, held, l) && Extends(st.routes, s) && Canonical(s, RouteKey(st))
    requires CountsMatch(st.(routes := s), held', l')
    ensures Inv(st.(routes := s), held', l')
  {
    hide Counted, Held, ListValue;
    CanonicalKept(s, RouteKey(st), RouteKey(st.(routes := s)));
  }

  /** The handles of a route that is not stored yet, or no longer. */
  ghost function LocalsOf(r: CompressedRouteAttrs): Locals {
    Locals(OptionRef(r.asPath), OptionRef(r.communities), multiset{}, OptionRef(r.largeCommunities))
  }

  /** One more handle to a stored route. */
  lemma RouteRetained(st: State, a: Arc, held: multiset<Arc>, l: Locals)
    requires Inv(st, held, l) && Live(st.routes, a)
    requires Canonical(Retain(st.routes, a), RouteKey(st)) && Counted(Retain(st.routes, a), held + multiset{a})
    ensures Inv(st.(routes := Retain(st.routes, a)), held + multiset{a}, l)
  {
    hide Held, Canonical, Decompress, ListValue;
    var s := Retain(st.routes, a);
    HeldUpdate(st.routes.cells, PathRef(), a, s.cells[a].strong);
    HeldUpdate(st.routes.cells, CommunitiesRef(), a, s.cells[a].strong);
    HeldUpdate(st.routes.cells, LargeListRef(), a, s.cells[a].strong);
    assert Held(s.cells, PathRef()) == Held(st.routes.cells, PathRef());
    assert Held(s.cells, CommunitiesRef()) == Held(st.routes.cells, CommunitiesRef());
    assert Held(s.cells, LargeListRef()) == Held(st.routes.cells, LargeListRef());
    hide Counted;
    RoutesChange(st, s, held, l, held + multiset{a}, l);
  }

  /** A route is stored with the handles in it. */
  lemma RouteStored(st: State, r: CompressedRouteAttrs, a: Arc, held: multiset<Arc>)
    requires Inv(st, held, LocalsOf(r)) && a == |st.routes.cells|
    requires Canonical(Insert(st.routes, r), RouteKey(st)) && Counted(Insert(st.routes, r), held + multiset{a})
    ensures Inv(st.(routes := Insert(st.routes, r)), held + multiset{a}, NoLocals())
  {
    hide Held, Canonical, Decompress, ListValue;
    var s := Insert(st.routes, r);
    HeldInsert(st.routes.cells, PathRef(), r);
    HeldInsert(st.routes.cells, CommunitiesRef(), r);
    HeldInsert(st.routes.cells, LargeListRef(), r);
    assert CountsMatch(st.(routes := s), held + multiset{a}, NoLocals()) by {
      assert Held(s.cells, PathRef()) + multiset{} == Held(st.routes.cells, PathRef()) + OptionRef(r.asPath);
      assert Held(s.cells, CommunitiesRef()) + multiset{} == Held(st.routes.cells,
          CommunitiesRef()) + OptionRef(r.communities);
      assert Held(s.cells, LargeListRef()) + multiset{} == Held(st.routes.cells,
          LargeListRef()) + OptionRef(r.largeCommunities);
    }
    RoutesChange(st, s, held, LocalsOf(r), held + multiset{a}, NoLocals());
  }

  /** One handle less; with the last one the handles in the route are left over. */
  lemma RouteReleased(st: State, a: Arc, held: multiset<Arc>)
    requires Inv(st, held + multiset{a}, NoLocals()) && Live(st.routes, a)
    requires Canonical(Release(st.routes, a), RouteKey(st)) && Counted(Release(st.routes, a), held)
    ensures Inv(st.(routes := Release(st.routes, a)), held,
                if Release(st.routes, a).cells[a].strong > 0 then NoLocals() else LocalsOf(st.routes.cells[a].value))
  {
    hide Held, Canonical, Decompress, ListValue;
    var s, r := Release(st.routes, a), st.routes.cells[a].value;
    var l := if s.cells[a].strong > 0 then NoLocals() else LocalsOf(r);
    HeldUpdate(st.routes.cells, PathRef(), a, s.cells[a].strong);
    HeldUpdate(st.routes.cells, CommunitiesRef(), a, s.cells[a].strong);
    HeldUpdate(st.routes.cells, LargeListRef(), a, s.cells[a].strong);
    assert CountsMatch(st.(routes := s), held, l) by {
      assert Held(s.cells, PathRef()) + l.paths == Held(st.routes.cells, PathRef()) + multiset{};
      assert Held(s.cells, CommunitiesRef()) + l.communityLists == Held(st.routes.cells, CommunitiesRef()) + multiset{};
      assert Held(s.cells, LargeListRef()) + l.largeLists == Held(st.routes.cells, LargeListRef()) + multiset{};
    }
    RoutesChange(st, s, held + multiset{a}, NoLocals(), held, l);
  }

  lemma AllExpired(st: State, held: multiset<Arc>, st': State)
    requires Inv(st, held, NoLocals())
    requires st' == State(RemoveExpired(st.paths), RemoveExpired(st.communityLists), RemoveExpired(st.larges),
                          RemoveExpired(st.largeLists), RemoveExpired(st.routes))
    ensures Inv(st', held, NoLocals()) && Grows(st, st') && Extends(st.routes, st'.routes)
  {
    hide Held, Canonical, Counted, Decompress, ListValue;
    RemoveExpiredKeeps(st.paths, Itself(), Held(st.routes.cells, PathRef()) + multiset{});
    RemoveExpiredKeeps(st.communityLists, Itself(), Held(st.routes.cells, CommunitiesRef()) + multiset{});
    RemoveExpiredKeeps(st.larges, Itself(), Held(st.largeLists.cells, LargeRefs()) + multiset{});
    RemoveExpiredKeeps(st.largeLists, ListKey(st.larges), Held(st.routes.cells, LargeListRef()) + multiset{});
    RemoveExpiredKeeps(st.routes, RouteKey(st), held);
    KeysKept(st, st', held, NoLocals());
    RemoveExpiredKeeps(st.largeLists, ListKey(st'.larges), Held(st.routes.cells, LargeListRef()) + multiset{});
    RemoveExpiredKeeps(st.routes, RouteKey(st'), held);
  }

  lemma AllCleared(st: State, st': State)
    requires st' == State(RemoveExpired(st.paths), RemoveExpired(st.communityLists), RemoveExpired(st.larges),
                          RemoveExpired(st.largeLists), RemoveExpired(st.routes))
    ensures Cleared(st.paths, st'.paths) && Cleared(st.communityLists, st'.communityLists)
    ensures Cleared(st.larges, st'.larges) && Cleared(st.largeLists, st'.largeLists) && Cleared(st.routes, st'.routes)
    ensures OnlyLive(st'.paths) && OnlyLive(st'.communityLists) && OnlyLive(st'.larges)
    ensures OnlyLive(st'.largeLists) && OnlyLive(st'.routes)
  {
  }

  /** What a handle stands for. */
  function AttrsOf(st: State, a: Arc): RouteAttrs
    requires a < |st.routes.cells|
  {
    Decompress(st, st.routes.cells[a].value)
  }

  class Caches {
    var paths: WeakSet<seq<U32>>
    var communityLists: WeakSet<seq<(U16, U16)>>
    var larges: WeakSet<LargeCommunity>
    var largeLists: WeakSet<seq<Arc>>
    var routes: WeakSet<CompressedRouteAttrs>

    /** The handles to compressed routes that are out. */
    ghost var held: multiset<Arc>

    function Now(): State
      reads this
    {
      State(paths, communityLists, larges, largeLists, routes)
    }

    ghost predicate Valid()
      reads this
    {
      Inv(Now(), held, NoLocals())
    }

    /** No dead entry is in any of the five sets. */
    ghost predicate Tidy()
      reads this
    {
      && OnlyLive(paths) && OnlyLive(communityLists) && OnlyLive(larges)
      && OnlyLive(largeLists) && OnlyLive(routes)
    }

    constructor ()
      ensures Valid() && held == multiset{}
    {
      paths, communityLists := WeakSet([], {}), WeakSet([], {});
      larges, largeLists, routes := WeakSet([], {}), WeakSet([], {}), WeakSet([], {});
      held := multiset{};
    }

    method InternPath(path: seq<U32>, ghost l: Locals) returns (a: Arc)
      requires Inv(Now(), held, l)
      modifies this
      ensures Inv(Now(), held, l.(paths := l.paths + multiset{a}))
      ensures Grows(old(Now()), Now()) && routes == old(routes) && held == old(held)
      ensures a < |paths.cells| && paths.cells[a].value == path
    {
      hide Held, Canonical, Decompress, ListValue;
      ghost var st := Now();
      ghost var holders := Held(routes.cells, PathRef()) + l.paths;
      GetOrInsertKeeps(paths, path, Itself(), holders);
      var (s, b) := GetOrInsert(paths, path, Itself());
      paths, a := s, b;
      assert holders + multiset{a} == Held(routes.cells, PathRef()) + (l.paths + multiset{a});
      PathsChange(st, s, held, l, l.paths + multiset{a});
    }

    method InternCommunityList(list: seq<(U16, U16)>, ghost l: Locals) returns (a: Arc)
      requires Inv(Now(), held, l)
      modifies this
      ensures Inv(Now(), held, l.(communityLists := l.communityLists + multiset{a}))
      ensures Grows(old(Now()), Now()) && routes == old(routes) && held == old(held)
      ensures a < |communityLists.cells| && communityLists.cells[a].value == list
    {
      hide Held, Canonical, Decompress, ListValue;
      ghost var st := Now();
      ghost var holders := Held(routes.cells, CommunitiesRef()) + l.communityLists;
      GetOrInsertKeeps(communityLists, list, Itself(), holders);
      var (s, b) := GetOrInsert(communityLists, list, Itself());
      communityLists, a := s, b;
      assert holders + multiset{a} == Held(routes.cells, CommunitiesRef()) + (l.communityLists + multiset{a});
      CommunityListsChange(st, s, held, l, l.communityLists + multiset{a});
    }

    method InternLarge(c: LargeCommunity, ghost l: Locals) returns (a: Arc)
      requires Inv(Now(), held, l)
      modifies this
      ensures Inv(Now(), held, l.(larges := l.larges + multiset{a}))
      ensures Grows(old(Now()), Now()) && routes == old(routes) && held == old(held) && largeLists == old(largeLists)
      ensures a < |larges.cells| && larges.cells[a].value == c
    {
      hide Held, Canonical, Decompress, ListValue;
      ghost var st := Now();
      ghost var holders := Held(largeLists.cells, LargeRefs()) + l.larges;
      GetOrInsertKeeps(larges, c, Itself(), holders);
      var (s, b) := GetOrInsert(larges, c, Itself());
      larges, a := s, b;
      assert holders + multiset{a} == Held(largeLists.cells, LargeRefs()) + (l.larges + multiset{a});
      LargesChange(st, s, held, l, l.larges + multiset{a});
    }

    /** Handles to large communities are dropped one by one. */
    method ReleaseLarges(list: seq<Arc>, ghost l: Locals)
      requires Inv(Now(), held, l.(larges := l.larges + multiset(list)))
      modifies this
      ensures Inv(Now(), held, l)
      ensures Grows(old(Now()), Now()) && routes == old(routes) && held == old(held)
      ensures largeLists == old(largeLists)
    {
      hide Held, Canonical, Decompress, ListValue;
      var i := 0;
      assert list[i..] == list;
      while i < |list|
        invariant 0 <= i <= |list|
        invariant Inv(Now(), held, l.(larges := l.larges + multiset(list[i..])))
        invariant Grows(old(Now()), Now()) && routes == old(routes) && held == old(held)
        invariant largeLists == old(largeLists)
      {
        ghost var st := Now();
        ghost var rest := l.larges + multiset(list[i + 1..]);
        ghost var holders := Held(largeLists.cells, LargeRefs()) + rest;
        assert list[i..] == [list[i]] + list[i + 1..];
        assert holders + multiset{list[i]} == Held(largeLists.cells, LargeRefs()) + (l.larges + multiset(list[i..]));
        ReleaseKeeps(larges, list[i], Itself(), holders);
        larges := Release(larges, list[i]);
        LargesChange(st, larges, held, l.(larges := l.larges + multiset(list[i..])), rest);
        i := i + 1;
      }
      assert list[i..] == [];
      assert l.(larges := l.larges + multiset(list[i..])) == l;
    }

    method CollectLarges(x: seq<LargeCommunity>, ghost l: Locals) returns (list: seq<Arc>)
      requires Inv(Now(), held, l)
      modifies this
      ensures Inv(Now(), held, l.(larges := l.larges + multiset(list)))
      ensures Grows(old(Now()), Now()) && routes == old(routes) && held == old(held) && largeLists == old(largeLists)
      ensures ListValue(larges, list) == x
    {
      hide Held, Canonical, Decompress, CountsMatch, Inv;
      list := [];
      assert l.(larges := l.larges + multiset(list)) == l;
      var i := 0;
      while i < |x|
        invariant 0 <= i <= |x| && |list| == i
        invariant Inv(Now(), held, l.(larges := l.larges + multiset(list)))
        invariant Grows(old(Now()), Now()) && routes == old(routes) && held == old(held) &&
                  largeLists == old(largeLists)
        invariant forall j :: 0 <= j < i ==> list[j] < |larges.cells| && larges.cells[list[j]].value == x[j]
      {
        var a := InternLarge(x[i], l.(larges := l.larges + multiset(list)));
        assert l.larges + multiset(list) + multiset{a} == l.larges + multiset(list + [a]);
        list := list + [a];
        i := i + 1;
      }
    }

    /** The list of handles is interned; if its value is known already, the handles are dropped. */
    method InternLargeList(x: seq<LargeCommunity>, ghost l: Locals) returns (a: Arc)
      requires Inv(Now(), held, l)
      modifies this
      ensures Inv(Now(), held, l.(largeLists := l.largeLists + multiset{a}))
      ensures Grows(old(Now()), Now()) && routes == old(routes) && held == old(held)
      ensures a < |largeLists.cells| && ListValue(larges, largeLists.cells[a].value) == x
    {
      hide Held, Canonical, Decompress, ListValue, Counted;
      var list := CollectLarges(x, l);
      ghost var st, k := Now(), l.(larges := l.larges + multiset(list));
      ghost var holders := Held(routes.cells, LargeListRef()) + l.largeLists;
      GetOrInsertKeeps(largeLists, list, ListKey(larges), holders);
      var known := |largeLists.cells|;
      var (s, b) := GetOrInsert(largeLists, list, ListKey(larges));
      largeLists, a := s, b;
      ghost var lists := l.largeLists + multiset{a};
      assert holders + multiset{a} == Held(routes.cells, LargeListRef()) + lists;
      hide GetOrInsert;
      if a < known {
        assert Held(s.cells, LargeRefs()) == Held(st.largeLists.cells, LargeRefs()) by {
          HeldUpdate(st.largeLists.cells, LargeRefs(), a, s.cells[a].strong);
        }
        LargeListsChange(st, s, held, k, lists, k.larges);
        assert k.(largeLists := lists, larges := k.larges) == l.(largeLists := lists, larges := k.larges);
        DropUnused(list, a, l.(largeLists := lists));
      } else {
        assert Held(s.cells, LargeRefs()) + l.larges == Held(st.largeLists.cells, LargeRefs()) + k.larges by {
          HeldInsert(st.largeLists.cells, LargeRefs(), list);
        }
        LargeListsChange(st, s, held, k, lists, l.larges);
        assert k.(largeLists := lists, larges := l.larges) == l.(largeLists := lists);
      }
    }

    /** The handles of a list that was not stored are dropped; the stored list `a` keeps its value. */
    method DropUnused(list: seq<Arc>, a: Arc, ghost l: Locals)
      requires Inv(Now(), held, l.(larges := l.larges + multiset(list))) && Live(largeLists, a)
      modifies this
      ensures Inv(Now(), held, l)
      ensures Grows(old(Now()), Now()) && routes == old(routes) && held == old(held)
      ensures largeLists == old(largeLists)
      ensures ListValue(larges, largeLists.cells[a].value) == old(ListValue(larges, largeLists.cells[a].value))
    {
      hide Held, Canonical, Decompress, ListValue;
      ghost var st := Now();
      ReleaseLarges(list, l);
      ListKept(st, Now(), held, l.(larges := l.larges + multiset(list)), a);
    }

    /** A handle to a list is dropped, and with the last one the handles in the list. */
    method DropLargeList(a: Arc, ghost l: Locals)
      requires Inv(Now(), held, l.(largeLists := l.largeLists + multiset{a}))
      modifies this
      ensures Inv(Now(), held, l)
      ensures Grows(old(Now()), Now()) && routes == old(routes) && held == old(held)
    {
      hide Held, Canonical, Decompress, ListValue;
      ghost var st, k := Now(), l.(largeLists := l.largeLists + multiset{a});
      ghost var holders := Held(routes.cells, LargeListRef()) + l.largeLists;
      assert holders + multiset{a} == Held(routes.cells, LargeListRef()) + k.largeLists;
      ReleaseKeeps(largeLists, a, ListKey(larges), holders);
      largeLists := Release(largeLists, a);
      var list := largeLists.cells[a].value;
      HeldUpdate(st.largeLists.cells, LargeRefs(), a, largeLists.cells[a].strong);
      if largeLists.cells[a].strong == 0 {
        ghost var larges' := l.larges + multiset(list);
        assert Held(largeLists.cells, LargeRefs()) + larges' == Held(st.largeLists.cells, LargeRefs()) + l.larges;
        LargeListsChange(st, largeLists, held, k, l.largeLists, larges');
        assert k.(largeLists := l.largeLists, larges := larges') == l.(larges := larges');
        ReleaseLarges(list, l);
      } else {
        assert Held(largeLists.cells, LargeRefs()) == Held(st.largeLists.cells, LargeRefs());
        LargeListsChange(st, largeLists, held, k, l.largeLists, l.larges);
        assert k.(largeLists := l.largeLists, larges := l.larges) == l;
      }
    }

    method DropPath(a: Arc, ghost l: Locals)
      requires Inv(Now(), held, l.(paths := l.paths + multiset{a}))
      modifies this
      ensures Inv(Now(), held, l)
      ensures Grows(old(Now()), Now()) && routes == old(routes) && held == old(held)
    {
      hide Held, Canonical, Decompress, ListValue;
      ghost var st, k := Now(), l.(paths := l.paths + multiset{a});
      ghost var holders := Held(routes.cells, PathRef()) + l.paths;
      assert holders + multiset{a} == Held(routes.cells, PathRef()) + k.paths;
      ReleaseKeeps(paths, a, Itself(), holders);
      paths := Release(paths, a);
      PathsChange(st, paths, held, k, l.paths);
      assert k.(paths := l.paths) == l;
    }

    method DropCommunityList(a: Arc, ghost l: Locals)
      requires Inv(Now(), held, l.(communityLists := l.communityLists + multiset{a}))
      modifies this
      ensures Inv(Now(), held, l)
      ensures Grows(old(Now()), Now()) && routes == old(routes) && held == old(held)
    {
      hide Held, Canonical, Decompress, ListValue;
      ghost var st, k := Now(), l.(communityLists := l.communityLists + multiset{a});
      ghost var holders := Held(routes.cells, CommunitiesRef()) + l.communityLists;
      assert holders + multiset{a} == Held(routes.cells, CommunitiesRef()) + k.communityLists;
      ReleaseKeeps(communityLists, a, Itself(), holders);
      communityLists := Release(communityLists, a);
      CommunityListsChange(st, communityLists, held, k, l.communityLists);
      assert k.(communityLists := l.communityLists) == l;
    }

    /** The handles in a route value are dropped. */
    method DropFields(r: CompressedRouteAttrs)
      requires Inv(Now(), held, LocalsOf(r))
      modifies this
      ensures Inv(Now(), held, NoLocals())
      ensures Grows(old(Now()), Now()) && routes == old(routes) && held == old(held)
    {
      hide Inv, Extends;
      ghost var afterPath := Locals(multiset{}, OptionRef(r.communities), multiset{}, OptionRef(r.largeCommunities));
      ghost var afterList := Locals(multiset{}, multiset{}, multiset{}, OptionRef(r.largeCommunities));
      ghost var st := Now();
      assert Grows(st, st) by { GrowsItself(st); }
      hide Grows;
      if r.asPath.Some? {
        assert afterPath.(paths := afterPath.paths + multiset{r.asPath.value}) == LocalsOf(r);
        DropPath(r.asPath.value, afterPath);
      }
      ghost var st1 := Now();
      if r.communities.Some? {
        assert afterList.(communityLists := afterList.communityLists + multiset{r.communities.value}) == afterPath;
        DropCommunityList(r.communities.value, afterList);
        GrowsOn(st, st1, Now());
      }
      ghost var st2 := Now();
      if r.largeCommunities.Some? {
        assert NoLocals().(largeLists := NoLocals().largeLists + multiset{r.largeCommunities.value}) == afterList;
        DropLargeList(r.largeCommunities.value, NoLocals());
        GrowsOn(st, st2, Now());
      }
    }

    /** `get_or_insert` on whole routes. */
    method InternRoute(r: CompressedRouteAttrs) returns (a: Arc)
      requires Inv(Now(), held, LocalsOf(r))
      modifies this
      ensures Valid() && held == old(held) + multiset{a}
      ensures Grows(old(Now()), Now()) && Extends(old(routes), routes)
      ensures a < |routes.cells| && AttrsOf(Now(), a) == old(Decompress(Now(), r))
    {
      hide Held, Canonical, ListValue, Inv, Counted;
      ghost var st := Now();
      assert Canonical(routes, RouteKey(st)) && Counted(routes, held) by { InvOfRoutes(st, held, LocalsOf(r)); }
      GetOrInsertKeeps(routes, r, RouteKey(st), held);
      var known := |routes.cells|;
      var (s, b) := GetOrInsert(routes, r, RouteKey(Now()));
      hide GetOrInsert;
      a := b;
      assert Decompress(st, s.cells[a].value) == Decompress(st, r);
      if a < known {
        RouteRetained(st, a, held, LocalsOf(r));
        routes, held := s, held + multiset{a};
        DropStored(r, a);
      } else {
        RouteStored(st, r, a, held);
        routes, held := s, held + multiset{a};
      }
    }

    /** The handles of a value that was not stored are dropped; the stored route keeps its attributes. */
    method DropStored(r: CompressedRouteAttrs, a: Arc)
      requires Inv(Now(), held, LocalsOf(r)) && Live(routes, a)
      modifies this
      ensures Inv(Now(), held, NoLocals())
      ensures Grows(old(Now()), Now()) && routes == old(routes) && held == old(held)
      ensures AttrsOf(Now(), a) == old(AttrsOf(Now(), a))
    {
      hide Held, Canonical, ListValue, Decompress;
      ghost var st := Now();
      DropFields(r);
      RouteKept(st, Now(), held, LocalsOf(r), a);
    }

    /** The handle can be followed. */
    ghost predicate Stands(a: Arc)
      reads this
    {
      Live(routes, a)
    }

    /** Handles that are out keep their meaning while all values only grow. */
    twostate lemma HandlesKept()
      requires old(Valid()) && Valid() && Grows(old(Now()), Now()) && Extends(old(routes), routes)
      ensures forall a :: a in old(held) && a in held ==>
                old(Stands(a)) && Stands(a) && AttrsOf(Now(), a) == old(AttrsOf(Now(), a))
    {
      hide Canonical, Decompress, Held;
      ghost var st := old(Now());
      forall a | a in old(held) && a in held
        ensures old(Stands(a)) && Stands(a) && AttrsOf(Now(), a) == AttrsOf(st, a)
      {
        RouteKept(st, Now(), old(held), NoLocals(), a);
      }
    }

    /** The lists of a route are interned, one field after the other. */
    method CompressFields(route: RouteAttrs) returns (r: CompressedRouteAttrs)
      requires Valid()
      modifies this
      ensures Inv(Now(), held, LocalsOf(r))
      ensures Grows(old(Now()), Now()) && routes == old(routes) && held == old(held)
      ensures Decompress(Now(), r) == route
    {
      hide Inv, Decompress, ListValue, Extends;
      ghost var st := Now();
      GrowsItself(st);
      hide Grows;
      var asPath, communities, largeCommunities := None, None, None;
      if route.asPath.Some? {
        var a := InternPath(route.asPath.value, NoLocals());
        asPath := Some(a);
      }
      ghost var st1 := Now();
      ghost var afterPath := NoLocals().(paths := OptionRef(asPath));
      assert Inv(st1, held, afterPath) by {
        assert asPath.Some? ==> NoLocals().paths + multiset{asPath.value} == OptionRef(asPath);
      }
      if route.communities.Some? {
        var a := InternCommunityList(route.communities.value, afterPath);
        communities := Some(a);
        GrowsOn(st, st1, Now());
      } else {
        GrowsItself(st1);
      }
      ghost var st2 := Now();
      ghost var afterList := afterPath.(communityLists := OptionRef(communities));
      assert Inv(st2, held, afterList) by {
        assert communities.Some? ==> afterPath.communityLists + multiset{communities.value} == OptionRef(communities);
      }
      if route.largeCommunities.Some? {
        var a := InternLargeList(route.largeCommunities.value, afterList);
        largeCommunities := Some(a);
        GrowsOn(st, st2, Now());
      } else {
        GrowsItself(st2);
      }
      ghost var after := afterList.(largeLists := OptionRef(largeCommunities));
      assert Inv(Now(), held, after) by {
        assert largeCommunities.Some? ==>
            afterList.largeLists + multiset{largeCommunities.value} == OptionRef(largeCommunities);
      }
      r := CompressedRouteAttrs(route.origin, asPath, communities, largeCommunities, route.med, route.localPref,
          route.nexthop);
      assert after == LocalsOf(r);
      FieldsMean(st1, st2, Now(), r, route);
    }

    /**
     * The new handle stands for exactly the given attributes, and every other handle still stands
     * for what it did.
     */
    method CompressRouteAttrs(route: RouteAttrs) returns (handle: Arc)
      requires Valid()
      modifies this
      ensures Valid() && held == old(held) + multiset{handle}
      ensures Stands(handle) && AttrsOf(Now(), handle) == route
      ensures forall a :: a in old(held) ==> old(Stands(a)) && Stands(a) && AttrsOf(Now(), a) == old(AttrsOf(Now(), a))
    {
      hide Inv, Extends, Decompress, ListValue, Grows, Stands;
      ghost var st := Now();
      var r := CompressFields(route);
      ghost var st1 := Now();
      handle := InternRoute(r);
      GrowsOn(st, st1, Now());
      HandlesKept();
      HeldStands(handle);
    }

    lemma HeldStands(a: Arc)
      requires Valid() && a in held
      ensures Stands(a)
    {
    }

    /** A handle is cloned. */
    method CloneHandle(handle: Arc)
      requires Valid() && handle in held
      modifies this
      ensures Valid() && held == old(held) + multiset{handle}
      ensures forall a :: a in old(held) ==> old(Stands(a)) && Stands(a) && AttrsOf(Now(), a) == old(AttrsOf(Now(), a))
    {
      hide Held, ListValue, Inv, Decompress, Stands;
      ghost var st := Now();
      HeldStands(handle);
      InvOfRoutes(st, held, NoLocals());
      assert Live(routes, handle);
      assert Canonical(Retain(routes, handle), RouteKey(st));
      RouteRetained(st, handle, held, NoLocals());
      routes, held := Retain(routes, handle), held + multiset{handle};
      GrowsItself(st);
      HandlesKept();
    }

    /** A handle is dropped, and with the last one all handles below it. */
    method DropHandle(handle: Arc)
      requires Valid() && handle in held
      modifies this
      ensures Valid() && held == old(held) - multiset{handle}
      ensures forall a :: a in held ==> old(Stands(a)) && Stands(a) && AttrsOf(Now(), a) == old(AttrsOf(Now(), a))
    {
      hide Held, Canonical, ListValue, Inv, Counted, Decompress, Stands;
      ghost var st := Now();
      InvOfRoutes(st, held, NoLocals());
      ghost var rest := held - multiset{handle};
      assert rest + multiset{handle} == held;
      ReleaseKeeps(routes, handle, RouteKey(st), rest);
      RouteReleased(st, handle, rest);
      routes, held := Release(routes, handle), rest;
      GrowsItself(st);
      if routes.cells[handle].strong == 0 {
        DropFields(routes.cells[handle].value);
      }
      HandlesKept();
    }

    /** Dead entries leave the weak sets, and nothing else changes. */
    method RemoveAllExpired()
      requires Valid()
      modifies this
      ensures Valid() && held == old(held)
      ensures Cleared(old(paths), paths) && Cleared(old(communityLists), communityLists)
      ensures Cleared(old(larges), larges) && Cleared(old(largeLists), largeLists) && Cleared(old(routes), routes)
      ensures Tidy()
      ensures forall a :: a in held ==> old(Stands(a)) && Stands(a) && AttrsOf(Now(), a) == old(AttrsOf(Now(), a))
    {
      hide Held, ListValue, Stands, Inv, RemoveExpired, Grows, Extends, Cleared, OnlyLive;
      ghost var st := Now();
      larges := RemoveExpired(larges);
      largeLists := RemoveExpired(largeLists);
      communityLists := RemoveExpired(communityLists);
      paths := RemoveExpired(paths);
      routes := RemoveExpired(routes);
      AllExpired(st, held, Now());
      AllCleared(st, Now());
      HandlesKept();
    }
  }

  lemma FieldsMean(st1: State, st2: State, st3: State, r: CompressedRouteAttrs, route: RouteAttrs)
    requires Grows(st1, st2) && Grows(st2, st3)
    requires r.origin == route.origin && r.med == route.med && r.localPref == route.localPref &&
               r.nexthop == route.nexthop
    requires r.asPath.Some? == route.asPath.Some?
    requires r.communities.Some? == route.communities.Some?
    requires r.largeCommunities.Some? == route.largeCommunities.Some?
    requires r.asPath.Some? ==>
               r.asPath.value < |st1.paths.cells| && st1.paths.cells[r.asPath.value].value == route.asPath.value
    requires r.communities.Some? ==>
               && r.communities.value < |st2.communityLists.cells|
               && st2.communityLists.cells[r.communities.value].value == route.communities.value
    requires r.largeCommunities.Some? ==>
               && r.largeCommunities.value < |st3.largeLists.cells|
               && ListValue(st3.larges, st3.largeLists.cells[r.largeCommunities.value].value) ==
                    route.largeCommunities.value
    ensures Decompress(st3, r) == route
  {
    hide ListValue;
  }

  lemma InvOfRoutes(st: State, held: multiset<Arc>, l: Locals)
    requires Inv(st, held, l)
    ensures Canonical(st.routes, RouteKey(st)) && Counted(st.routes, held)
  {
  }

  // ---- What hash-consing promises ----------------------------------------------------------

  /** Handles to routes are the same exactly when the routes are. */
  lemma SameHandleIffSameRoute(c: Caches, a: Arc, b: Arc)
    requires c.Valid() && a in c.held && b in c.held
    ensures a < |c.routes.cells| && b < |c.routes.cells|
    ensures a == b <==> AttrsOf(c.Now(), a) == AttrsOf(c.Now(), b)
  {
    hide Held, ListValue;
    assert AttrsOf(c.Now(), a) == RouteKey(c.Now())(c.routes.cells[a].value);
    assert AttrsOf(c.Now(), b) == RouteKey(c.Now())(c.routes.cells[b].value);
  }

  /** The same holds below: for live AS paths, community lists, large communities and their lists. */
  lemma SameArcIffSameValue(c: Caches, a: Arc, b: Arc)
    requires c.Valid()
    ensures Live(c.paths, a) && Live(c.paths, b) ==>
              (a == b <==> c.paths.cells[a].value == c.paths.cells[b].value)
    ensures Live(c.communityLists, a) && Live(c.communityLists, b) ==>
              (a == b <==> c.communityLists.cells[a].value == c.communityLists.cells[b].value)
    ensures Live(c.larges, a) && Live(c.larges, b) ==>
              (a == b <==> c.larges.cells[a].value == c.larges.cells[b].value)
    ensures Live(c.largeLists, a) && Live(c.largeLists, b) ==>
              (a == b <==>
               ListValue(c.larges, c.largeLists.cells[a].value) == ListValue(c.larges, c.largeLists.cells[b].value))
  {
    hide Held, ListValue, Decompress;
    assert Live(c.paths, a) ==> c.paths.cells[a].value == Itself()(c.paths.cells[a].value);
    assert Live(c.communityLists, a) ==> c.communityLists.cells[a].value == Itself()(c.communityLists.cells[a].value);
    assert Live(c.larges, a) ==> c.larges.cells[a].value == Itself()(c.larges.cells[a].value);
    assert Live(c.largeLists, a) ==>
        ListKey(c.larges)(c.largeLists.cells[a].value) == ListValue(c.larges, c.largeLists.cells[a].value);
  }

  lemma {:induction false} NothingHeld<T>(cells: seq<Cell<T>>, refs: T -> multiset<Arc>)
    requires forall a :: 0 <= a < |cells| ==> cells[a].strong == 0
    ensures Held(cells, refs) == multiset{}
  {
    if cells != [] {
      NothingHeld(cells[..|cells| - 1], refs);
    }
  }

  /** When the last handle is gone, nothing is live in any cache. */
  lemma NothingLeaks(c: Caches, a: Arc)
    requires c.Valid() && c.held == multiset{}
    ensures !Live(c.routes, a) && !Live(c.paths, a) && !Live(c.communityLists, a)
    ensures !Live(c.largeLists, a) && !Live(c.larges, a)
  {
    hide Held, ListValue, Decompress, Canonical;
    NothingHeld(c.routes.cells, PathRef());
    NothingHeld(c.routes.cells, CommunitiesRef());
    NothingHeld(c.routes.cells, LargeListRef());
    NothingHeld(c.largeLists.cells, LargeRefs());
  }
}
