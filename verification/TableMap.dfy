/** The routing tables of a store, one for each selector. */
module TableMaps {
  import opened Prelude
  import opened Bits
  import opened NetKey
  import opened Routes
  import opened Tables
  import opened Interning

  ghost function RibOf<A>(ribs: map<TableSelector, Rib<A>>, sel: TableSelector): Rib<A> {
    if sel in ribs then ribs[sel] else map[]
  }

  class TableMap {
    var tables: map<TableSelector, InMemoryTable<Arc>>

    /** The handles that the tables hold. */
    ghost var ribs: map<TableSelector, Rib<Arc>>
    ghost var Repr: set<object>

    /** Every table is valid, owns its part of the heap, and holds what `ribs` says. */
    ghost predicate Valid()
      reads this, Repr
      ensures Valid() ==> this in Repr
    {
      && this in Repr
      && (forall sel :: sel in tables <==> sel in ribs)
      && (forall sel :: sel in tables ==> Holds(sel))
      && (forall s, t :: s in tables && t in tables && s != t ==> tables[s].Repr !! tables[t].Repr)
    }

    ghost predicate Holds(sel: TableSelector)
      requires this in Repr && sel in tables && (forall sel :: sel in tables <==> sel in ribs)
      reads this, Repr
    {
      var t := tables[sel];
      t in Repr && t.Repr <= Repr - {this} && t.Valid() && t.rib == ribs[sel]
    }

    /** Dropping tables leaves a valid store. */
    twostate lemma StillValid()
      requires old(Valid()) && Repr == old(Repr) && (forall sel :: sel in tables <==> sel in ribs)
      requires forall o :: o in Repr && o != this ==> unchanged(o)
      requires forall sel :: sel in tables ==>
                 sel in old(tables) && tables[sel] == old(tables)[sel] && ribs[sel] == old(ribs)[sel]
      ensures Valid()
    {
      hide InMemoryTable.Valid;
      forall sel | sel in tables
        ensures Holds(sel)
      {
        assert old(Holds(sel));
        assert unchanged(tables[sel]);
      }
    }

    /** A new empty table is added. */
    twostate lemma ValidWithNew(sel: TableSelector)
      requires old(Valid()) && sel !in old(tables) && sel in tables
      requires tables == old(tables)[sel := tables[sel]] && Repr == old(Repr) + tables[sel].Repr
      requires ribs == old(ribs)[sel := map[]] && tables[sel].rib == map[]
      requires forall o :: o in old(Repr) && o != this ==> unchanged(o)
      requires tables[sel].Valid() && fresh(tables[sel].Repr)
      ensures Valid()
    {
      hide InMemoryTable.Valid;
      forall s | s in tables
        ensures Holds(s)
        ensures s != sel ==> tables[s].Repr == old(tables[s].Repr)
      {
        if s != sel {
          assert old(Holds(s));
        }
      }
    }

    /** One table changed inside its own part of the heap. */
    twostate lemma ValidAgain(sel: TableSelector)
      requires old(Valid()) && sel in old(tables)
      requires this in old(Repr) && sel in old(ribs)
      requires tables == old(tables) && Repr == old(Repr) + tables[sel].Repr
      requires forall s :: s in ribs <==> s in old(ribs)
      requires forall s :: s in ribs ==> ribs[s] == if s == sel then tables[s].rib else old(ribs)[s]
      requires forall o :: o in old(Repr) && o != this && o !in old(tables[sel].Repr) ==> unchanged(o)
      requires tables[sel].Valid() && fresh(tables[sel].Repr - old(tables[sel].Repr))
      ensures Valid()
    {
      hide InMemoryTable.Valid;
      forall s | s in tables
        ensures Holds(s)
        ensures s != sel ==> tables[s].Repr == old(tables[s].Repr)
      {
        assert old(Holds(s)) && old(Holds(sel));
        if s != sel {
          assert old(tables[s].Repr) !! old(tables[sel].Repr);
        }
      }
    }

    constructor ()
      ensures Valid() && fresh(Repr) && ribs == map[]
    {
      tables, ribs := map[], map[];
      Repr := {this};
    }

    /** The table of a selector, made on first use. */
    method GetTable(sel: TableSelector) returns (table: InMemoryTable<Arc>)
      requires Valid()
      modifies this
      ensures Valid() && fresh(Repr - old(Repr))
      ensures sel in tables && table == tables[sel]
      ensures ribs == old(ribs)[sel := RibOf(old(ribs), sel)]
    {
      hide InMemoryTable.Valid, ToKey;
      assert sel in tables <==> sel in ribs;
      if sel in tables {
        table := tables[sel];
        assert ribs == ribs[sel := ribs[sel]];
      } else {
        hide Valid;
        table := new InMemoryTable<Arc>();
        tables := tables[sel := table];
        ribs := ribs[sel := map[]];
        Repr := Repr + table.Repr;
        ValidWithNew(sel);
      }
    }

    method UpdateRoute(pathId: PathId, net: IpNet, sel: TableSelector, route: Arc) returns (replaced: Option<Arc>)
      requires Valid()
      modifies Repr
      ensures Valid() && fresh(Repr - old(Repr))
      ensures replaced == Get(RibOf(old(ribs), sel), (ToKey(net), pathId))
      ensures ribs == old(ribs)[sel := RibOf(old(ribs), sel)[(ToKey(net), pathId) := route]]
    {
      hide ToKey, Valid, InMemoryTable.Valid, RibOf;
      ghost var before := ribs;
      var table := GetTable(sel);
      label Before:
      TableHolds(sel);
      hide Holds;
      replaced := table.UpdateRoute(pathId, net, route);
      ribs := before[sel := table.rib];
      Repr := Repr + table.Repr;
      ValidAgain@Before(sel);
    }

    method WithdrawRoute(pathId: PathId, net: IpNet, sel: TableSelector) returns (removed: Option<Arc>)
      requires Valid()
      modifies Repr
      ensures Valid() && fresh(Repr - old(Repr))
      ensures removed == Get(RibOf(old(ribs), sel), (ToKey(net), pathId))
      ensures ribs == old(ribs)[sel := RibOf(old(ribs), sel) - {(ToKey(net), pathId)}]
    {
      hide ToKey, Valid, InMemoryTable.Valid, RibOf;
      ghost var before := ribs;
      var table := GetTable(sel);
      label Before:
      TableHolds(sel);
      hide Holds;
      removed := table.WithdrawRoute(pathId, net);
      ribs := before[sel := table.rib];
      Repr := Repr + table.Repr;
      ValidAgain@Before(sel);
    }

    lemma TableHolds(sel: TableSelector)
      requires Valid() && (sel in tables || sel in ribs)
      ensures this in Repr && sel in tables && sel in ribs && Holds(sel)
      ensures this !in tables[sel].Repr && tables[sel].Repr <= Repr && tables[sel] in Repr
      ensures tables[sel].Valid() && tables[sel].rib == ribs[sel]
    {
    }

    /** A table is dropped. */
    method Remove(sel: TableSelector)
      requires Valid()
      modifies this
      ensures Valid() && Repr == old(Repr) && ribs == old(ribs) - {sel}
    {
      assert forall s :: s in tables <==> s in ribs;
      hide Valid;
      tables, ribs := tables - {sel}, ribs - {sel};
      StillValid();
    }

    method Lookup(sel: TableSelector, query: Option<NetQuery>) returns (routes: seq<(IpNet, PathId, Arc)>)
      requires Valid() && sel in ribs
      ensures ListsRoutes(routes, ribs[sel], query) && NetPlaces(ribs[sel])
    {
      hide Valid, ListsRoutes, NetPlaces;
      TableHolds(sel);
      routes := tables[sel].GetRoutes(query);
    }

    function Selectors(): (sels: set<TableSelector>)
      requires Valid()
      reads this, Repr
      ensures forall sel :: sel in sels <==> sel in ribs
    {
      tables.Keys
    }
  }
}
