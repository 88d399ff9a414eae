/** The in-memory store: clients, sessions, routing tables and the caches their routes share. */
module Stores {
  import opened Prelude
  import opened Bits
  import opened NetKey
  import opened Routes
  import opened Tables
  import opened TableMaps
  import opened Interning
  import opened BgpUpdates
  import opened StoreQueries

  /** All routes of the store, by table. */
  type Ribs = map<TableSelector, Rib<RouteAttrs>>

  /** What a table belongs to, by a client or by the session it is filled from. */
  predicate BelongsTo(sel: TableSelector, owner: TableQuery) {
    match owner
    case OfTable(s) => sel == s
    case OfClient(addr) => sel.ClientAddr() == addr
    case OfSession(id) => sel.Session() == Some(id)
    case OfRouter(_) => false
  }

  function Without<V>(m: map<TableSelector, V>, owner: TableQuery): map<TableSelector, V> {
    map sel | sel in m && !BelongsTo(sel, owner) :: m[sel]
  }

  function Belonging(sels: set<TableSelector>, owner: TableQuery): set<TableSelector> {
    set sel | sel in sels && BelongsTo(sel, owner)
  }

  lemma WithoutBelonging<V>(m: map<TableSelector, V>, sels: set<TableSelector>, owner: TableQuery)
    requires forall sel :: sel in sels <==> sel in m
    ensures m - Belonging(sels, owner) == Without(m, owner)
  {
  }

  // ---- Handles in tables -------------------------------------------------------------------

  /** Where a handle is kept. */
  type Spot = (TableSelector, (Key, PathId))

  ghost function SpotsOf(handles: map<Spot, Arc>, a: Arc): set<Spot> {
    set p | p in handles && handles[p] == a
  }

  /** The handles that are out are those in the tables, each as often as it is there. */
  ghost predicate Accounts(held: multiset<Arc>, handles: map<Spot, Arc>) {
    forall a: Arc :: held[a] == |SpotsOf(handles, a)|
  }

  lemma SpotIsHeld(held: multiset<Arc>, handles: map<Spot, Arc>, p: Spot)
    requires Accounts(held, handles) && p in handles
    ensures handles[p] in held
  {
    assert p in SpotsOf(handles, handles[p]);
  }

  lemma SpotsAdd(handles: map<Spot, Arc>, p: Spot, h: Arc, a: Arc)
    requires p !in handles
    ensures |SpotsOf(handles[p := h], a)| == |SpotsOf(handles, a)| + if a == h then 1 else 0
  {
    if a == h {
      assert SpotsOf(handles[p := h], a) == SpotsOf(handles, a) + {p};
    } else {
      assert SpotsOf(handles[p := h], a) == SpotsOf(handles, a);
    }
  }

  lemma AccountsAdd(held: multiset<Arc>, handles: map<Spot, Arc>, p: Spot, h: Arc)
    requires Accounts(held, handles) && p !in handles
    ensures Accounts(held + multiset{h}, handles[p := h])
  {
    forall a: Arc
      ensures (held + multiset{h})[a] == |SpotsOf(handles[p := h], a)|
    {
      SpotsAdd(handles, p, h, a);
      hide SpotsOf;
      assert held[a] == |SpotsOf(handles, a)|;
    }
  }

  lemma AccountsDrop(held: multiset<Arc>, handles: map<Spot, Arc>, p: Spot)
    requires Accounts(held, handles) && p in handles
    ensures Accounts(held - multiset{handles[p]}, handles - {p})
  {
    SpotIsHeld(held, handles, p);
    forall a: Arc
      ensures (held - multiset{handles[p]})[a] == |SpotsOf(handles - {p}, a)|
    {
      assert handles == (handles - {p})[p := handles[p]];
      SpotsAdd(handles - {p}, p, handles[p], a);
      hide SpotsOf;
      assert held[a] == |SpotsOf(handles, a)|;
    }
  }

  lemma AccountsPut(held: multiset<Arc>, handles: map<Spot, Arc>, p: Spot, h: Arc)
    requires Accounts(held, handles)
    ensures p in handles ==> handles[p] in held && Accounts(held + multiset{h} - multiset{handles[p]}, handles[p := h])
    ensures p !in handles ==> Accounts(held + multiset{h}, handles[p := h])
  {
    hide Accounts;
    if p in handles {
      SpotIsHeld(held, handles, p);
      AccountsDrop(held, handles, p);
      AccountsAdd(held - multiset{handles[p]}, handles - {p}, p, h);
      assert (handles - {p})[p := h] == handles[p := h];
      assert held + multiset{h} - multiset{handles[p]} == held - multiset{handles[p]} + multiset{h};
    } else {
      AccountsAdd(held, handles, p, h);
    }
  }

  /** What a handle stands for; every handle in a table can be followed. */
  function Meaning(st: State, a: Arc): RouteAttrs {
    if a < |st.routes.cells| then AttrsOf(st, a) else DefaultAttrs()
  }

  /** The tables hold the handles, and the handles stand for the routes. */
  ghost predicate Linked(tables: map<TableSelector, Rib<Arc>>, handles: map<Spot, Arc>, ribs: Ribs, st: State) {
    && (forall sel :: sel in tables <==> sel in ribs)
    && (forall sel, p :: Get(RibOf(tables, sel), p) == Get(handles, (sel, p)))
    && (forall sel, p :: Get(RibOf(ribs, sel), p) ==
                         if (sel, p) in handles then Some(Meaning(st, handles[(sel, p)])) else None)
  }

  /** The handles stand for what they did. */
  ghost predicate Same(handles: map<Spot, Arc>, st: State, st': State) {
    forall p :: p in handles ==> Meaning(st', handles[p]) == Meaning(st, handles[p])
  }

  lemma NothingStored(st: State)
    ensures Accounts(multiset{}, map[]) && Linked(map[], map[], map[], st)
  {
    assert forall a: Arc :: SpotsOf(map[], a) == {};
  }

  lemma LinkedAt(tables: map<TableSelector, Rib<Arc>>, handles: map<Spot, Arc>, ribs: Ribs, st: State,
                 sel: TableSelector, p: (Key, PathId))
    requires Linked(tables, handles, ribs, st)
    ensures Get(RibOf(tables, sel), p) == Get(handles, (sel, p))
  {
  }

  lemma SameOnHeld(handles: map<Spot, Arc>, held: multiset<Arc>, st: State, st': State)
    requires Accounts(held, handles)
    requires forall a :: a in held ==> Meaning(st', a) == Meaning(st, a)
    ensures Same(handles, st, st')
  {
    forall p | p in handles
      ensures Meaning(st', handles[p]) == Meaning(st, handles[p])
    {
      SpotIsHeld(held, handles, p);
    }
  }

  /** Handles that were there before and are there after a step of two parts. */
  lemma SameTwice(handles: map<Spot, Arc>, p: Spot, h: Arc, held: multiset<Arc>, held': multiset<Arc>, st: State,
                  st1: State, st': State)
    requires Accounts(held, handles) && Accounts(held', handles[p := h])
    requires forall a :: a in held ==> Meaning(st1, a) == Meaning(st, a)
    requires forall a :: a in held' ==> Meaning(st', a) == Meaning(st1, a)
    ensures Same(handles - {p}, st, st')
    ensures Meaning(st', h) == Meaning(st1, h)
  {
    hide Accounts;
    forall q | q in handles - {p}
      ensures Meaning(st', handles[q]) == Meaning(st, handles[q])
    {
      SpotIsHeld(held, handles, q);
      SpotIsHeld(held', handles[p := h], q);
    }
    SpotIsHeld(held', handles[p := h], p);
  }

  lemma LinkedPut(tables: map<TableSelector, Rib<Arc>>, handles: map<Spot, Arc>, ribs: Ribs, st: State, st': State,
                  sel: TableSelector, p: (Key, PathId), h: Arc)
    requires Linked(tables, handles, ribs, st) && Same(handles - {(sel, p)}, st, st')
    ensures Linked(tables[sel := RibOf(tables, sel)[p := h]], handles[(sel, p) := h],
                   ribs[sel := RibOf(ribs, sel)[p := Meaning(st', h)]], st')
  {
    hide Meaning;
    var tables', handles' := tables[sel := RibOf(tables, sel)[p := h]], handles[(sel, p) := h];
    var ribs' := ribs[sel := RibOf(ribs, sel)[p := Meaning(st', h)]];
    forall s, q
      ensures Get(RibOf(tables', s), q) == Get(handles', (s, q))
      ensures Get(RibOf(ribs', s), q) == if (s, q) in handles' then Some(Meaning(st', handles'[(s, q)])) else None
    {
      assert Get(RibOf(tables, s), q) == Get(handles, (s, q));
      assert Get(RibOf(ribs, s), q) == if (s, q) in handles then Some(Meaning(st, handles[(s, q)])) else None;
      assert (s, q) != (sel, p) && (s, q) in handles ==> (s, q) in handles - {(sel, p)};
    }
  }

  lemma LinkedSame(tables: map<TableSelector, Rib<Arc>>, handles: map<Spot, Arc>, ribs: Ribs, st: State, st': State)
    requires Linked(tables, handles, ribs, st) && Same(handles, st, st')
    ensures Linked(tables, handles, ribs, st')
  {
    hide Meaning;
    forall sel, p
      ensures Get(RibOf(ribs, sel), p) == if (sel, p) in handles then Some(Meaning(st', handles[(sel, p)])) else None
    {
      assert Get(RibOf(ribs, sel), p) == if (sel, p) in handles then Some(Meaning(st, handles[(sel, p)])) else None;
    }
  }

  lemma LinkedDrop(tables: map<TableSelector, Rib<Arc>>, handles: map<Spot, Arc>, ribs: Ribs, st: State, st': State,
                   sel: TableSelector, p: (Key, PathId))
    requires Linked(tables, handles, ribs, st) && Same(handles - {(sel, p)}, st, st')
    ensures Linked(tables[sel := RibOf(tables, sel) - {p}], handles - {(sel, p)}, ribs[sel := RibOf(ribs,
              sel) - {p}], st')
  {
    hide Meaning;
    var tables', handles' := tables[sel := RibOf(tables, sel) - {p}], handles - {(sel, p)};
    var ribs' := ribs[sel := RibOf(ribs, sel) - {p}];
    forall s, q
      ensures Get(RibOf(tables', s), q) == Get(handles', (s, q))
      ensures Get(RibOf(ribs', s), q) == if (s, q) in handles' then Some(Meaning(st', handles'[(s, q)])) else None
    {
      assert Get(RibOf(tables, s), q) == Get(handles, (s, q));
      assert Get(RibOf(ribs, s), q) == if (s, q) in handles then Some(Meaning(st, handles[(s, q)])) else None;
    }
  }

  // ---- Dropping a whole table --------------------------------------------------------------

  ghost function WithoutTable(handles: map<Spot, Arc>, sel: TableSelector): map<Spot, Arc> {
    map p | p in handles && p.0 != sel :: handles[p]
  }

  ghost function SpotOf(sel: TableSelector, route: (IpNet, PathId, Arc)): Spot {
    (sel, (ToKey(route.0), route.1))
  }

  /** The handles that are left when the first `n` routes of a table have been dropped. */
  ghost function Left(handles: map<Spot, Arc>, sel: TableSelector, routes: seq<(IpNet, PathId, Arc)>,
                      n: nat): map<Spot, Arc>
    requires n <= |routes|
  {
    if n == 0 then handles else Left(handles, sel, routes, n - 1) - {SpotOf(sel, routes[n - 1])}
  }

  lemma {:induction false} LeftIs(handles: map<Spot, Arc>, sel: TableSelector, routes: seq<(IpNet, PathId, Arc)>,
                                  n: nat, p: Spot)
    requires n <= |routes|
    ensures Get(Left(handles, sel, routes, n), p) ==
            if exists j :: 0 <= j < n && SpotOf(sel, routes[j]) == p then None else Get(handles, p)
  {
    hide SpotOf;
    if n > 0 {
      LeftIs(handles, sel, routes, n - 1, p);
    }
  }

  lemma LinkedTables(tables: map<TableSelector, Rib<Arc>>, handles: map<Spot, Arc>, ribs: Ribs, st: State,
                     sel: TableSelector)
    requires Linked(tables, handles, ribs, st)
    ensures sel in tables <==> sel in ribs
  {
  }

  /** The next route to be dropped is still there, with its handle. */
  lemma LeftStep(tables: map<TableSelector, Rib<Arc>>, handles: map<Spot, Arc>, ribs: Ribs, st: State,
                 sel: TableSelector,
                 routes: seq<(IpNet, PathId, Arc)>, n: nat)
    requires Linked(tables, handles, ribs, st) && sel in tables && ListsRoutes(routes, tables[sel], None) &&
               n < |routes|
    ensures var p := SpotOf(sel, routes[n]);
            && p in Left(handles, sel, routes, n) && Left(handles, sel, routes, n)[p] == routes[n].2
            && Left(handles, sel, routes, n + 1) == Left(handles, sel, routes, n) - {p}
  {
    hide ToKey, Selects, ShownAs, Meaning;
    var p := SpotOf(sel, routes[n]);
    LeftIs(handles, sel, routes, n, p);
    assert Get(RibOf(tables, sel), p.1) == Some(routes[n].2);
    assert Get(handles, (sel, p.1)) == Some(routes[n].2);
    assert Distinct(routes);
  }

  /** The routes listed are all that the table has. */
  lemma AllSpots(tables: map<TableSelector, Rib<Arc>>, handles: map<Spot, Arc>, ribs: Ribs, st: State,
                 sel: TableSelector,
                 routes: seq<(IpNet, PathId, Arc)>)
    requires Linked(tables, handles, ribs, st) && sel in tables
    requires ListsRoutes(routes, tables[sel], None) && NetPlaces(tables[sel])
    ensures Left(handles, sel, routes, |routes|) == WithoutTable(handles, sel)
  {
    hide ToKey, ShownAs, Meaning, Left;
    var left := Left(handles, sel, routes, |routes|);
    forall p: Spot
      ensures Get(left, p) == Get(WithoutTable(handles, sel), p)
    {
      LeftIs(handles, sel, routes, |routes|, p);
      if p in handles && p.0 == sel {
        assert Get(RibOf(tables, sel), p.1) == Get(handles, (sel, p.1));
        assert p == (sel, p.1) && p.1 == (p.1.0, p.1.1);
        assert p.1 in tables[sel] && Selects(None, StoredKeys(tables[sel]), p.1.0);
        var i :| 0 <= i < |routes| && ToKey(routes[i].0) == p.1.0 && routes[i].1 == p.1.1;
        assert SpotOf(sel, routes[i]) == p;
      }
    }
    hide WithoutTable;
    SameMap(left, WithoutTable(handles, sel));
  }

  lemma LinkedWithout(tables: map<TableSelector, Rib<Arc>>, handles: map<Spot, Arc>, ribs: Ribs, st: State,
                      st': State, sel: TableSelector)
    requires Linked(tables, handles, ribs, st) && Same(WithoutTable(handles, sel), st, st')
    ensures Linked(tables - {sel}, WithoutTable(handles, sel), ribs - {sel}, st')
  {
    hide Meaning;
    forall s, q
      ensures Get(RibOf(tables - {sel}, s), q) == Get(WithoutTable(handles, sel), (s, q))
      ensures Get(RibOf(ribs - {sel}, s), q) ==
              if (s, q) in WithoutTable(handles, sel) then Some(Meaning(st', WithoutTable(handles, sel)[(s,
                  q)])) else None
    {
      assert Get(RibOf(tables, s), q) == Get(handles, (s, q));
      assert Get(RibOf(ribs, s), q) == if (s, q) in handles then Some(Meaning(st, handles[(s, q)])) else None;
      if s != sel && (s, q) in handles {
        assert (s, q) in WithoutTable(handles, sel);
      }
    }
  }

  function Followed(found: seq<(IpNet, PathId, Arc)>, st: State): seq<(IpNet, PathId, RouteAttrs)> {
    seq(|found|, i requires 0 <= i < |found| => (found[i].0, found[i].1, Meaning(st, found[i].2)))
  }

  lemma FollowedLists(tables: map<TableSelector, Rib<Arc>>, handles: map<Spot, Arc>, ribs: Ribs, st: State,
                      sel: TableSelector, query: Option<NetQuery>, found: seq<(IpNet, PathId, Arc)>)
    requires Linked(tables, handles, ribs, st) && sel in tables && sel in ribs && ListsRoutes(found, tables[sel], query)
    ensures ListsRoutes(Followed(found, st), ribs[sel], query)
  {
    hide ToKey, Selects, ShownAs, Meaning;
    var hr, rib, routes := tables[sel], ribs[sel], Followed(found, st);
    forall p
      ensures Get(rib, p) == if p in hr then Some(Meaning(st, hr[p])) else None
    {
      assert Get(RibOf(tables, sel), p) == Get(handles, (sel, p));
      assert Get(RibOf(ribs, sel), p) == if (sel, p) in handles then Some(Meaning(st, handles[(sel, p)])) else None;
    }
    assert forall p :: p in hr <==> p in rib by {
      forall p
        ensures p in hr <==> p in rib
      {
        assert Get(rib, p) == if p in hr then Some(Meaning(st, hr[p])) else None;
      }
    }
    assert StoredKeys(rib) == StoredKeys(hr);
    hide Linked;
    forall i | 0 <= i < |routes|
      ensures Get(rib, (ToKey(routes[i].0), routes[i].1)) == Some(routes[i].2)
      ensures Selects(query, StoredKeys(rib), ToKey(routes[i].0)) && ShownAs(query, ToKey(routes[i].0), routes[i].0)
    {
      assert Get(hr, (ToKey(found[i].0), found[i].1)) == Some(found[i].2);
    }
    forall k, id | (k, id) in rib && Selects(query, StoredKeys(rib), k)
      ensures exists i :: 0 <= i < |routes| && ToKey(routes[i].0) == k && routes[i].1 == id
    {
      var i :| 0 <= i < |found| && ToKey(found[i].0) == k && found[i].1 == id;
      assert routes[i].0 == found[i].0 && routes[i].1 == found[i].1;
    }
    assert Distinct(routes) by {
      assert Distinct(found);
    }
  }

  /** An empty table more changes nothing. */
  lemma LinkedMade(tables: map<TableSelector, Rib<Arc>>, handles: map<Spot, Arc>, ribs: Ribs, st: State,
                   sel: TableSelector)
    requires Linked(tables, handles, ribs, st)
    ensures Linked(tables[sel := RibOf(tables, sel)], handles, ribs[sel := RibOf(ribs, sel)], st)
  {
    hide Meaning;
    forall s
      ensures RibOf(tables[sel := RibOf(tables, sel)], s) == RibOf(tables, s)
      ensures RibOf(ribs[sel := RibOf(ribs, sel)], s) == RibOf(ribs, s)
    {
    }
    hide RibOf;
  }

  class InMemoryStore {
    var clients: map<SocketAddr, Client>
    var sessions: map<Id, PeerSession>
    const tables: TableMap
    const caches: Caches

    ghost var handles: map<Spot, Arc>
    /** What the store means: the routes of each table. */
    ghost var ribs: Ribs
    ghost var Repr: set<object>

    ghost predicate Valid()
      reads this, Repr
      ensures Valid() ==> this in Repr && caches in Repr
    {
      && Owns()
      && tables.Valid() && caches.Valid()
      && Accounts(caches.held, handles)
      && Linked(tables.ribs, handles, ribs, caches.Now())
    }

    ghost predicate Owns()
      reads this, Repr
    {
      && this in Repr && tables in Repr && caches in Repr
      && tables.Repr <= Repr && this !in tables.Repr && caches !in tables.Repr
    }

    constructor ()
      ensures Valid() && fresh(Repr)
      ensures clients == map[] && sessions == map[] && ribs == map[]
    {
      hide TableMap.Valid, Caches.Valid, Accounts, Linked;
      clients, sessions, handles, ribs := map[], map[], map[], map[];
      tables := new TableMap();
      caches := new Caches();
      new;
      NothingStored(caches.Now());
      Repr := {this, caches} + tables.Repr;
    }

    /** The attributes are interned, stored, and the route they replace is dropped. */
    method Exchange(pathId: PathId, net: IpNet, sel: TableSelector, route: RouteAttrs) returns (ghost h: Arc)
      requires Valid()
      modifies caches, tables.Repr
      ensures tables.Valid() && caches.Valid() && fresh(tables.Repr - old(tables.Repr))
      ensures Accounts(caches.held, handles[(sel, (ToKey(net), pathId)) := h])
      ensures Linked(tables.ribs, handles[(sel, (ToKey(net), pathId)) := h],
                     ribs[sel := RibOf(ribs, sel)[(ToKey(net), pathId) := route]], caches.Now())
    {
      hide TableMap.Valid, Caches.Valid, ToKey, Accounts, Linked, RibOf, AttrsOf;
      ghost var place := (ToKey(net), pathId);
      ghost var p := (sel, place);
      ghost var st, hr, held := caches.Now(), tables.ribs, caches.held;
      LinkedAt(hr, handles, ribs, st, sel, place);
      var handle := caches.CompressRouteAttrs(route);
      ghost var st1 := caches.Now();
      assert forall a :: a in held ==> Meaning(st1, a) == Meaning(st, a);
      assert Meaning(st1, handle) == route;
      hide Meaning;
      var replaced := tables.UpdateRoute(pathId, net, sel, handle);
      AccountsPut(held, handles, p, handle);
      if replaced.Some? {
        DropFromCaches(replaced.value);
      }
      SameTwice(handles, p, handle, held, caches.held, st, st1, caches.Now());
      LinkedPut(hr, handles, ribs, st, caches.Now(), sel, place, handle);
      h := handle;
    }

    /** A route is announced and replaces the one its path had. */
    method UpdateRoute(pathId: PathId, net: IpNet, sel: TableSelector, route: RouteAttrs)
      requires Valid()
      modifies Repr
      ensures Valid() && fresh(Repr - old(Repr))
      ensures ribs == old(ribs)[sel := RibOf(old(ribs), sel)[(ToKey(net), pathId) := route]]
      ensures clients == old(clients) && sessions == old(sessions)
    {
      hide TableMap.Valid, Caches.Valid, ToKey, Accounts, Linked, RibOf;
      ghost var h := Exchange(pathId, net, sel, route);
      ghost var place := (ToKey(net), pathId);
      handles, ribs, Repr := handles[(sel, place) := h], ribs[sel := RibOf(ribs, sel)[place := route]],
          Repr + tables.Repr;
    }

    /** The path is removed from its table and its route is dropped. */
    method TakeOut(pathId: PathId, net: IpNet, sel: TableSelector)
      requires Valid()
      modifies caches, tables.Repr
      ensures tables.Valid() && caches.Valid() && fresh(tables.Repr - old(tables.Repr))
      ensures Accounts(caches.held, handles - {(sel, (ToKey(net), pathId))})
      ensures Linked(tables.ribs, handles - {(sel, (ToKey(net), pathId))},
                     ribs[sel := RibOf(ribs, sel) - {(ToKey(net), pathId)}], caches.Now())
    {
      hide TableMap.Valid, Caches.Valid, ToKey, Accounts, Linked, RibOf, Meaning;
      ghost var place := (ToKey(net), pathId);
      ghost var p := (sel, place);
      ghost var st, hr, held := caches.Now(), tables.ribs, caches.held;
      LinkedAt(hr, handles, ribs, st, sel, place);
      var removed := tables.WithdrawRoute(pathId, net, sel);
      if removed.Some? {
        SpotIsHeld(held, handles, p);
        AccountsDrop(held, handles, p);
        DropFromCaches(removed.value);
      } else {
        assert handles - {p} == handles;
      }
      SameOnHeld(handles - {p}, caches.held, st, caches.Now());
      LinkedDrop(hr, handles, ribs, st, caches.Now(), sel, place);
    }

    /** A path is withdrawn. */
    method WithdrawRoute(pathId: PathId, net: IpNet, sel: TableSelector)
      requires Valid()
      modifies Repr
      ensures Valid() && fresh(Repr - old(Repr))
      ensures ribs == old(ribs)[sel := RibOf(old(ribs), sel) - {(ToKey(net), pathId)}]
      ensures clients == old(clients) && sessions == old(sessions)
    {
      hide TableMap.Valid, Caches.Valid, ToKey, Accounts, Linked, RibOf;
      TakeOut(pathId, net, sel);
      ghost var place := (ToKey(net), pathId);
      handles, ribs, Repr := handles - {(sel, place)}, ribs[sel := RibOf(ribs, sel) - {place}], Repr + tables.Repr;
    }

    /** A table is dropped with all its routes. */
    method Discard(sel: TableSelector)
      requires Valid() && sel in ribs
      modifies caches, tables
      ensures tables.Valid() && caches.Valid() && tables.Repr == old(tables.Repr)
      ensures Accounts(caches.held, WithoutTable(handles, sel))
      ensures Linked(tables.ribs, WithoutTable(handles, sel), ribs - {sel}, caches.Now())
    {
      hide TableMap.Valid, Caches.Valid, ToKey, Accounts, Linked, RibOf, Meaning, ListsRoutes, NetPlaces,
          WithoutTable, Left;
      ghost var st, hr := caches.Now(), tables.ribs;
      LinkedTables(hr, handles, ribs, st, sel);
      var routes := tables.Lookup(sel, None);
      AllSpots(hr, handles, ribs, st, sel, routes);
      tables.Remove(sel);
      DropRoutes(sel, routes, hr);
      LinkedWithout(hr, handles, ribs, st, caches.Now(), sel);
    }

    /** The routes of a table are dropped one by one. */
    method DropRoutes(sel: TableSelector, routes: seq<(IpNet, PathId, Arc)>, ghost hr: map<TableSelector, Rib<Arc>>)
      requires caches.Valid() && Accounts(caches.held, handles) && Linked(hr, handles, ribs, caches.Now())
      requires sel in hr && ListsRoutes(routes, hr[sel], None)
      modifies caches
      ensures caches.Valid() && Accounts(caches.held, Left(handles, sel, routes, |routes|))
      ensures Same(Left(handles, sel, routes, |routes|), old(caches.Now()), caches.Now())
    {
      hide Caches.Valid, ToKey, Accounts, Linked, RibOf, Meaning, ListsRoutes;
      ghost var st := caches.Now();
      for i := 0 to |routes|
        invariant caches.Valid() && Accounts(caches.held, Left(handles, sel, routes, i))
        invariant Same(Left(handles, sel, routes, i), st, caches.Now())
      {
        LeftStep(hr, handles, ribs, st, sel, routes, i);
        hide Left, SpotOf;
        ghost var left := Left(handles, sel, routes, i);
        ghost var p := SpotOf(sel, routes[i]);
        SpotIsHeld(caches.held, left, p);
        AccountsDrop(caches.held, left, p);
        ghost var st1 := caches.Now();
        DropFromCaches(routes[i].2);
        SameOnHeld(left - {p}, caches.held, st1, caches.Now());
      }
    }

    /** A handle that was in a table is dropped. */
    method DropFromCaches(h: Arc)
      requires caches.Valid() && h in caches.held
      modifies caches
      ensures caches.Valid() && caches.held == old(caches.held) - multiset{h}
      ensures forall a :: a in caches.held ==> Meaning(caches.Now(), a) == old(Meaning(caches.Now(), a))
    {
      hide Caches.Valid, AttrsOf;
      caches.DropHandle(h);
    }

    /** Dropped tables take their routes along. */
    method DropTable(sel: TableSelector)
      requires Valid() && sel in ribs
      modifies Repr
      ensures Valid() && Repr == old(Repr) && ribs == old(ribs) - {sel}
      ensures clients == old(clients) && sessions == old(sessions)
    {
      hide TableMap.Valid, Caches.Valid, Accounts, Linked, WithoutTable;
      Discard(sel);
      handles, ribs := WithoutTable(handles, sel), ribs - {sel};
    }

    /** `retain` on the tables: the tables named are dropped. */
    method DropTables(sels: set<TableSelector>)
      requires Valid() && forall sel :: sel in sels ==> sel in ribs
      modifies Repr
      ensures Valid() && Repr == old(Repr) && ribs == old(ribs) - sels
      ensures clients == old(clients) && sessions == old(sessions)
    {
      hide Valid;
      var rest := sels;
      assert ribs - (sels - rest) == ribs;
      while rest != {}
        invariant Valid() && Repr == old(Repr)
        invariant rest <= sels && ribs == old(ribs) - (sels - rest)
        invariant clients == old(clients) && sessions == old(sessions)
        decreases |rest|
      {
        var sel :| sel in rest;
        DropTable(sel);
        rest := rest - {sel};
      }
    }

    /** The tables of a client or a session are dropped, and with the dead entries of the caches. */
    method ClearTables(owner: TableQuery)
      requires Valid()
      modifies Repr
      ensures Valid() && Repr == old(Repr) && ribs == Without(old(ribs), owner) && caches.Tidy()
      ensures clients == old(clients) && sessions == old(sessions)
    {
      TablesAreRibs();
      var sels := tables.Selectors();
      WithoutBelonging(ribs, sels, owner);
      hide Valid, Without, BelongsTo;
      DropTables(Belonging(sels, owner));
      RemoveExpiredEntries();
    }

    lemma TablesAreRibs()
      requires Valid()
      ensures tables.Valid() && forall sel :: sel in tables.ribs <==> sel in ribs
    {
    }

    method ClientUp(addr: SocketAddr, data: Client)
      requires Valid()
      modifies this
      ensures Valid() && Repr == old(Repr)
      ensures clients == old(clients)[addr := data]
      ensures sessions == old(sessions) && ribs == old(ribs)
    {
      hide TableMap.Valid, Caches.Valid, Accounts, Linked;
      clients := clients[addr := data];
    }

    /** Nothing of the client is left, and nothing else is touched. */
    method ClientDown(addr: SocketAddr)
      requires Valid()
      modifies Repr
      ensures Valid() && Repr == old(Repr)
      ensures clients == old(clients) - {addr}
      ensures sessions == map id | id in old(sessions) && id.fromClient != addr :: old(sessions)[id]
      ensures ribs == map sel | sel in old(ribs) && !sel.FromClient(addr) :: old(ribs)[sel]
      ensures caches.Tidy()
    {
      hide Valid;
      KeepRoutes(clients - {addr}, map id | id in sessions && id.fromClient != addr :: sessions[id]);
      ClearTables(OfClient(addr));
    }

    method SessionUp(id: Id, data: PeerSession)
      requires Valid()
      modifies this
      ensures Valid() && Repr == old(Repr)
      ensures sessions == old(sessions)[id := data]
      ensures clients == old(clients) && ribs == old(ribs)
    {
      KeepRoutes(clients, sessions[id := data]);
    }

    /** The Adj-RIB-In tables of the session are gone, and nothing else is touched. */
    method SessionDown(id: Id, newState: Option<PeerSession>)
      requires Valid()
      modifies Repr
      ensures Valid() && Repr == old(Repr)
      ensures sessions == if newState.Some? then old(sessions)[id := newState.value] else old(sessions) - {id}
      ensures ribs == old(ribs) - {PrePolicyAdjIn(id), PostPolicyAdjIn(id)}
      ensures clients == old(clients) && caches.Tidy()
    {
      hide Valid;
      if newState.Some? {
        KeepRoutes(clients, sessions[id := newState.value]);
      } else {
        KeepRoutes(clients, sessions - {id});
      }
      ClearTables(OfSession(id));
    }

    /** Clients and sessions change without the tables. */
    method KeepRoutes(newClients: map<SocketAddr, Client>, newSessions: map<Id, PeerSession>)
      requires Valid()
      modifies this
      ensures Valid() && Repr == old(Repr) && ribs == old(ribs)
      ensures clients == newClients && sessions == newSessions
    {
      hide TableMap.Valid, Caches.Valid, Accounts, Linked;
      clients, sessions := newClients, newSessions;
    }

    method RemoveExpiredEntries()
      requires Valid()
      modifies caches
      ensures Valid() && Repr == old(Repr) && ribs == old(ribs) && caches.Tidy()
      ensures clients == old(clients) && sessions == old(sessions)
    {
      hide TableMap.Valid, Caches.Valid, Accounts, Linked, RemoveExpired, AttrsOf;
      ghost var st := caches.Now();
      caches.RemoveAllExpired();
      SameOnHeld(handles, caches.held, st, caches.Now());
      LinkedSame(tables.ribs, handles, ribs, st, caches.Now());
    }

    /** The routes of one table after a BGP update message. */
    method InsertBgpUpdate(sel: TableSelector, update: BgpUpdate)
      requires Valid()
      modifies Repr
      ensures Valid() && fresh(Repr - old(Repr))
      ensures RibOf(ribs, sel) == AfterUpdate(RibOf(old(ribs), sel), update)
      ensures ribs - {sel} == old(ribs) - {sel}
      ensures clients == old(clients) && sessions == old(sessions)
    {
      hide Valid, ToKey, AddrsToNets, NextHopAddr, AllHalves, WithNextHop, Announce, Withdraw, RibOf;
      var attrs, nexthop := DefaultAttrs(), None;
      var updateNets: seq<Announcement> := [];
      var withdrawNets: seq<(PathId, IpNet)> := [];
      var i := 0;
      while i < |update.attrs|
        invariant 0 <= i <= |update.attrs|
        invariant Gathered(attrs, nexthop, updateNets, withdrawNets) == GatherAttrs(update.attrs[..i])
        modifies {}
      {
        assert update.attrs[..i + 1][..i] == update.attrs[..i];
        match update.attrs[i] {
          case MpUpdates(nexthop, addrs) =>
            updateNets := updateNets + WithNextHop(AddrsToNets(addrs), NextHopAddr(nexthop));
          case MpWithdraws(addrs) =>
            withdrawNets := withdrawNets + AddrsToNets(addrs);
          case NextHop(addr) =>
            nexthop := Some(addr);
          case CommunityList(list) =>
            var communities := SplitCommunities(list);
            attrs := attrs.(communities := Some(communities));
          case Med(value) =>
            attrs := attrs.(med := Some(value));
          case LocalPref(value) =>
            attrs := attrs.(localPref := Some(value));
          case Origin(value) =>
            attrs := attrs.(origin := Some(value));
          case AsPath(asns) =>
            attrs := attrs.(asPath := Some(asns));
          case LargeCommunityList(list) =>
            attrs := attrs.(largeCommunities := Some(list));
          case OtherAttr =>
        }
        i := i + 1;
      }
      assert update.attrs[..i] == update.attrs;
      updateNets := updateNets + WithNextHop(AddrsToNets(update.updates), nexthop);
      withdrawNets := withdrawNets + AddrsToNets(update.withdraws);
      ApplyUpdates(sel, attrs, updateNets);
      ApplyWithdraws(sel, withdrawNets);
    }

    method ApplyUpdates(sel: TableSelector, attrs: RouteAttrs, updateNets: seq<Announcement>)
      requires Valid()
      modifies Repr
      ensures Valid() && fresh(Repr - old(Repr))
      ensures RibOf(ribs, sel) == Announce(RibOf(old(ribs), sel), attrs, updateNets)
      ensures ribs - {sel} == old(ribs) - {sel}
      ensures clients == old(clients) && sessions == old(sessions)
    {
      hide Valid, ToKey;
      var i := 0;
      while i < |updateNets|
        invariant 0 <= i <= |updateNets|
        invariant Valid() && fresh(Repr - old(Repr))
        invariant RibOf(ribs, sel) == Announce(RibOf(old(ribs), sel), attrs, updateNets[..i])
        invariant ribs - {sel} == old(ribs) - {sel}
        invariant clients == old(clients) && sessions == old(sessions)
      {
        var u := updateNets[i];
        assert updateNets[..i + 1][..i] == updateNets[..i];
        UpdateRoute(u.path.0, u.path.1, sel, attrs.(nexthop := u.nexthop));
        i := i + 1;
      }
      assert updateNets[..i] == updateNets;
    }

    method ApplyWithdraws(sel: TableSelector, withdrawNets: seq<(PathId, IpNet)>)
      requires Valid()
      modifies Repr
      ensures Valid() && fresh(Repr - old(Repr))
      ensures RibOf(ribs, sel) == Withdraw(RibOf(old(ribs), sel), withdrawNets)
      ensures ribs - {sel} == old(ribs) - {sel}
      ensures clients == old(clients) && sessions == old(sessions)
    {
      hide Valid, ToKey;
      var i := 0;
      while i < |withdrawNets|
        invariant 0 <= i <= |withdrawNets|
        invariant Valid() && fresh(Repr - old(Repr))
        invariant RibOf(ribs, sel) == Withdraw(RibOf(old(ribs), sel), withdrawNets[..i])
        invariant ribs - {sel} == old(ribs) - {sel}
        invariant clients == old(clients) && sessions == old(sessions)
      {
        var w := withdrawNets[i];
        assert withdrawNets[..i + 1][..i] == withdrawNets[..i];
        WithdrawRoute(w.0, w.1, sel);
        i := i + 1;
      }
      assert withdrawNets[..i] == withdrawNets;
    }

    /** The tables that a query names, each once and in any order. */
    method TablesFor(query: Option<TableQuery>) returns (sels: seq<TableSelector>)
      requires Valid() && RoutersKnown(query, ribs, clients)
      modifies Repr
      ensures Valid() && fresh(Repr - old(Repr))
      ensures clients == old(clients) && sessions == old(sessions)
      ensures ribs == WithQueried(old(ribs), query)
      ensures SelectedBy(query, sels, ribs, clients)
    {
      hide Valid;
      if query.Some? && query.value.OfTable? {
        MakeTable(query.value.sel);
        return [query.value.sel];
      }
      sels := TablesWhere(query);
    }

    method TablesWhere(query: Option<TableQuery>) returns (sels: seq<TableSelector>)
      requires Valid() && RoutersKnown(query, ribs, clients)
      ensures SelectedBy(query, sels, ribs, clients)
    {
      TablesAreRibs();
      var keys := tables.Selectors();
      hide Valid, IsNamed;
      sels := Filtered(keys, query, clients);
    }

    /** A query for one table makes it if there is none. */
    method MakeTable(sel: TableSelector)
      requires Valid()
      modifies Repr
      ensures Valid() && fresh(Repr - old(Repr))
      ensures ribs == old(ribs)[sel := RibOf(old(ribs), sel)]
      ensures clients == old(clients) && sessions == old(sessions)
    {
      hide TableMap.Valid, Caches.Valid, Accounts, Linked, RibOf;
      LinkedMade(tables.ribs, handles, ribs, caches.Now(), sel);
      var _ := tables.GetTable(sel);
      ribs, Repr := ribs[sel := RibOf(ribs, sel)], Repr + tables.Repr;
    }

    /** The routes of one table, with their handles followed. */
    method Lookup(sel: TableSelector, netQuery: NetQuery) returns (routes: seq<(IpNet, PathId, RouteAttrs)>)
      requires Valid() && sel in ribs
      ensures ListsRoutes(routes, ribs[sel], Some(netQuery))
    {
      hide TableMap.Valid, Caches.Valid, Accounts, Linked, ListsRoutes, NetPlaces, Followed;
      LinkedTables(tables.ribs, handles, ribs, caches.Now(), sel);
      var found := tables.Lookup(sel, Some(netQuery));
      routes := Followed(found, caches.Now());
      FollowedLists(tables.ribs, handles, ribs, caches.Now(), sel, Some(netQuery), found);
    }

    /** What the tables send, each up to its limit. */
    method Lookups(sels: seq<TableSelector>, netQuery: NetQuery, regex: Option<Regex>, limit: nat)
      returns (sent: seq<Hit>, ghost blocks: seq<seq<Hit>>)
      requires Valid() && forall i :: 0 <= i < |sels| ==> sels[i] in ribs
      ensures TableAnswers(blocks, sels, ribs, netQuery, regex)
      ensures sent == Concat(TakeEach(blocks, limit))
    {
      hide Valid, TableAnswer, ListsRoutes, Concat, TakeEach, HitsOf;
      sent, blocks := [], [];
      NothingSent<Hit>(limit);
      var i := 0;
      while i < |sels|
        invariant 0 <= i <= |sels| && |blocks| == i
        invariant forall j :: 0 <= j < i ==> TableAnswer(blocks[j], sels[j], ribs[sels[j]], netQuery, regex)
        invariant sent == Concat(TakeEach(blocks, limit))
      {
        var routes := Lookup(sels[i], netQuery);
        FilteredTable(sels[i], ribs[sels[i]], netQuery, routes, regex);
        var hits := HitsOf(sels[i], routes, regex);
        TakeEachAppend(blocks, hits, limit);
        blocks := blocks + [hits];
        sent := sent + Take(hits, limit);
        i := i + 1;
      }
    }

    /**
     * The results in the order the stream gives them. `arrival` is the order in which the results
     * of the tables, looked up in parallel, reach the stream.
     */
    method GetRoutes(query: Option<TableQuery>, netQuery: NetQuery, limits: Option<QueryLimits>, regex: Option<Regex>,
                     arrival: seq<Hit> -> seq<Hit>)
      returns (results: seq<QueryResult>, ghost sels: seq<TableSelector>, ghost full: seq<Hit>, ghost hits: seq<Hit>)
      requires Valid() && RoutersKnown(query, ribs, clients)
      requires forall s :: multiset(arrival(s)) == multiset(s)
      modifies Repr
      ensures Valid() && fresh(Repr - old(Repr))
      ensures clients == old(clients) && sessions == old(sessions)
      ensures ribs == WithQueried(old(ribs), query)
      ensures SelectedBy(query, sels, ribs, clients)
      ensures FullAnswer(full, sels, ribs, clients, netQuery, regex)
      ensures multiset(hits) <= multiset(full)
      ensures |hits| == ResultCount(sels, ribs, clients, netQuery, regex,
                if limits.Some? then limits.value else QueryLimits(200, 500))
      ensures Shows(results, hits, clients, sessions)
    {
      hide Valid, FullAnswer, TableAnswers, IsNamed, Total, Connected, Concat, TakeEach;
      var lim := if limits.Some? then limits.value else DefaultLimits();
      var selected := TablesFor(query);
      sels := selected;
      assert forall i :: 0 <= i < |selected| ==> selected[i] in sels;
      var sent;
      ghost var blocks;
      sent, blocks := Lookups(selected, netQuery, regex, lim.maxResultsPerTable);
      var arrived := arrival(sent);
      StreamIsPartOfAnswer(blocks, arrived, selected, ribs, clients, netQuery, regex, lim);
      full := Connected(Concat(blocks), clients);
      var streamed := Streamed(arrived, clients, lim.maxResults);
      StreamedAreConnected(arrived, clients, lim.maxResults);
      hits := streamed;
      hide Streamed;
      results := Results(streamed, clients, sessions);
    }
  }

  /** The selectors that a query names, in the order they are met. */
  method Filtered(keys: set<TableSelector>, query: Option<TableQuery>, clients: map<SocketAddr, Client>)
    returns (sels: seq<TableSelector>)
    requires query.Some? && query.value.OfRouter? ==> forall sel :: sel in keys ==> sel.ClientAddr() in clients
    ensures NoRepeats(sels)
    ensures forall sel :: sel in sels <==> sel in keys && IsNamed(query, sel, clients)
  {
    hide Wanted, IsNamed;
    sels := [];
    var remaining := keys;
    while remaining != {}
      invariant remaining <= keys && NoRepeats(sels)
      invariant forall sel :: sel in sels <==> sel in keys - remaining && IsNamed(query, sel, clients)
      decreases |remaining|
    {
      var sel :| sel in remaining;
      remaining := remaining - {sel};
      WantedIsNamed(query, sel, clients);
      if Wanted(query, sel, clients) {
        sels := sels + [sel];
      }
    }
  }

  ghost predicate RoutersKnown(query: Option<TableQuery>, ribs: Ribs, clients: map<SocketAddr, Client>) {
    query.Some? && query.value.OfRouter? ==> forall sel :: sel in ribs ==> sel.ClientAddr() in clients
  }

  /** A query for one table makes it if there is none. */
  ghost function WithQueried(ribs: Ribs, query: Option<TableQuery>): Ribs {
    if query.Some? && query.value.OfTable? then ribs[query.value.sel := RibOf(ribs, query.value.sel)] else ribs
  }

  ghost predicate SelectedBy(query: Option<TableQuery>, sels: seq<TableSelector>, ribs: Ribs,
                             clients: map<SocketAddr, Client>)
    requires RoutersKnown(query, ribs, clients)
  {
    && NoRepeats(sels)
    && forall sel :: sel in sels <==> sel in ribs && IsNamed(query, sel, clients)
  }

  /** What a query names: one table, the two of a session, those of a client, those of a router, or all. */
  ghost predicate IsNamed(query: Option<TableQuery>, sel: TableSelector, clients: map<SocketAddr, Client>) {
    match query
    case None => true
    case Some(OfTable(table)) => sel == table
    case Some(OfSession(id)) => sel == PrePolicyAdjIn(id) || sel == PostPolicyAdjIn(id)
    case Some(OfClient(addr)) => sel.FromClient(addr)
    case Some(OfRouter(routerId)) =>
      exists addr :: addr in clients && sel.FromClient(addr) && clients[addr].routerId == routerId
  }

  lemma WantedIsNamed(query: Option<TableQuery>, sel: TableSelector, clients: map<SocketAddr, Client>)
    requires query.Some? && query.value.OfRouter? ==> sel.ClientAddr() in clients
    ensures Wanted(query, sel, clients) <==> IsNamed(query, sel, clients)
  {
  }

  ghost function ResultCount(sels: seq<TableSelector>, ribs: Ribs, clients: map<SocketAddr, Client>,
                             query: NetQuery, regex: Option<Regex>, limits: QueryLimits): nat
    requires forall sel :: sel in sels ==> sel in ribs
  {
    Limited(Total(sels, ribs, clients, query, regex, limits.maxResultsPerTable), limits.maxResults)
  }

  predicate Wanted(query: Option<TableQuery>, sel: TableSelector, clients: map<SocketAddr, Client>)
    requires query.Some? && query.value.OfRouter? ==> sel.ClientAddr() in clients
  {
    match query
    case None => true
    case Some(OfRouter(routerId)) => clients[sel.ClientAddr()].routerId == routerId
    case Some(owner) => BelongsTo(sel, owner)
  }

  function ResultOf(h: Hit, clients: map<SocketAddr, Client>, sessions: map<Id, PeerSession>): QueryResult
    requires h.sel.ClientAddr() in clients
  {
    var session := if h.sel.Session().Some? then Get(sessions, h.sel.Session().value) else None;
    QueryResult(h.sel.State(), h.net, h.sel, h.attrs, clients[h.sel.ClientAddr()], session)
  }

  ghost predicate Shows(results: seq<QueryResult>, hits: seq<Hit>, clients: map<SocketAddr, Client>,
                        sessions: map<Id, PeerSession>) {
    && |results| == |hits|
    && forall i :: 0 <= i < |hits| ==> ShowsHit(results[i], hits[i], clients, sessions)
  }

  /** A result shows the table, network and attributes of a hit, with the state, client and session of the table. */
  ghost predicate ShowsHit(result: QueryResult, h: Hit, clients: map<SocketAddr, Client>,
                           sessions: map<Id, PeerSession>) {
    && result.table == h.sel && result.net == h.net && result.attrs == h.attrs
    && (exists addr :: addr in clients && h.sel.FromClient(addr) && result.client == clients[addr])
    && match h.sel
       case LocRib(_, state) => result.state == state && result.session == None
       case PostPolicyAdjIn(id) =>
         result.state == Accepted && result.session == if id in sessions then Some(sessions[id]) else None
       case PrePolicyAdjIn(id) =>
         result.state == Seen && result.session == if id in sessions then Some(sessions[id]) else None
  }

  function Results(hits: seq<Hit>, clients: map<SocketAddr, Client>,
                   sessions: map<Id, PeerSession>): (results: seq<QueryResult>)
    requires forall i :: 0 <= i < |hits| ==> hits[i].sel.ClientAddr() in clients
    ensures Shows(results, hits, clients, sessions)
  {
    var results := seq(|hits|, i requires 0 <= i < |hits| => ResultOf(hits[i], clients, sessions));
    assert forall i :: 0 <= i < |hits| ==> hits[i].sel.FromClient(hits[i].sel.ClientAddr());
    results
  }

  lemma NothingSent<T>(limit: nat)
    ensures Concat(TakeEach<T>([], limit)) == []
  {
  }

  lemma TakeEachAppend<T>(blocks: seq<seq<T>>, block: seq<T>, limit: nat)
    ensures Concat(TakeEach(blocks + [block], limit)) == Concat(TakeEach(blocks, limit)) + Take(block, limit)
  {
    var each := TakeEach(blocks + [block], limit);
    assert each[..|blocks|] == TakeEach(blocks, limit);
  }

  lemma {:induction false} ConnectedHaveClients(hits: seq<Hit>, clients: map<SocketAddr, Client>)
    ensures forall i :: 0 <= i < |Connected(hits, clients)| ==> Connected(hits, clients)[i].sel.ClientAddr() in clients
  {
    if hits != [] {
      ConnectedHaveClients(hits[..|hits| - 1], clients);
    }
  }

  lemma StreamedAreConnected(arrived: seq<Hit>, clients: map<SocketAddr, Client>, maxResults: nat)
    ensures var hits := Streamed(arrived, clients, maxResults);
            forall i :: 0 <= i < |hits| ==> hits[i].sel.ClientAddr() in clients
  {
    ConnectedHaveClients(arrived, clients);
  }

  /** A store without routes keeps nothing alive in its caches. */
  lemma NoRoutesNothingAlive(s: InMemoryStore, a: Arc)
    requires s.Valid() && forall sel :: sel in s.ribs ==> s.ribs[sel] == map[]
    ensures !Live(s.caches.routes, a) && !Live(s.caches.paths, a) && !Live(s.caches.communityLists, a)
    ensures !Live(s.caches.largeLists, a) && !Live(s.caches.larges, a)
  {
    hide TableMap.Valid, Caches.Valid, Live, Linked;
    NoRoutesNoHandles(s.tables.ribs, s.handles, s.ribs, s.caches.Now());
    forall b: Arc
      ensures s.caches.held[b] == 0
    {
      assert SpotsOf(s.handles, b) == {};
    }
    assert s.caches.held == multiset{};
    NothingLeaks(s.caches, a);
  }

  lemma NoRoutesNoHandles(tables: map<TableSelector, Rib<Arc>>, handles: map<Spot, Arc>, ribs: Ribs, st: State)
    requires Linked(tables, handles, ribs, st) && forall sel :: sel in ribs ==> ribs[sel] == map[]
    ensures handles == map[]
  {
    hide Meaning;
    forall p: Spot
      ensures p !in handles
    {
      assert Get(RibOf(ribs, p.0), p.1) == None;
      assert p == (p.0, p.1);
    }
  }
}
