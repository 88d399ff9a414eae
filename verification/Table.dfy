/** One routing table: paths per network, kept in a trie of vectors sorted by path id. */
module Tables {
  import opened Prelude
  import opened Bits
  import opened NetKey
  import opened Nodes
  import opened Trie
  import opened TrieQuery
  import opened TrieUpdate

  type PathId = nat

  datatype NetQuery = Contains(net: IpNet) | MostSpecific(net: IpNet) | Exact(net: IpNet) | OrLonger(net: IpNet)

  // ---- Vectors sorted by path id -----------------------------------------------------------

  ghost predicate SortedById<A>(entry: seq<(PathId, A)>) {
    forall i, j :: 0 <= i < j < |entry| ==> entry[i].0 < entry[j].0
  }

  datatype SearchResult = Found(index: nat) | NotFound(index: nat)

  /** `binary_search_by_key`: the position of the id, or the one where it belongs. */
  function Search<A>(entry: seq<(PathId, A)>, id: PathId, lo: nat, hi: nat): (r: SearchResult)
    requires SortedById(entry) && lo <= hi <= |entry|
    requires forall i :: 0 <= i < lo ==> entry[i].0 < id
    requires forall i :: hi <= i < |entry| ==> id < entry[i].0
    ensures r.Found? ==> r.index < |entry| && entry[r.index].0 == id
    ensures r.NotFound? ==>
              && r.index <= |entry|
              && (forall i :: 0 <= i < r.index ==> entry[i].0 < id)
              && (forall i :: r.index <= i < |entry| ==> id < entry[i].0)
    decreases hi - lo
  {
    if lo == hi then NotFound(lo)
    else
      var mid := (lo + hi) / 2;
      if entry[mid].0 == id then Found(mid)
      else if entry[mid].0 < id then Search(entry, id, mid + 1, hi)
      else Search(entry, id, lo, mid)
  }

  function BinarySearchById<A>(entry: seq<(PathId, A)>, id: PathId): SearchResult
    requires SortedById(entry)
  {
    Search(entry, id, 0, |entry|)
  }

  /** The attributes an entry has for a path id. */
  function PathOf<A>(entry: seq<(PathId, A)>, id: PathId): (path: Option<A>)
    ensures path.None? <==> forall i :: 0 <= i < |entry| ==> entry[i].0 != id
    ensures path.Some? ==> exists i :: 0 <= i < |entry| && entry[i] == (id, path.value)
  {
    if entry == [] then None
    else if entry[0].0 == id then Some(entry[0].1)
    else
      var rest := PathOf(entry[1..], id);
      assert forall i :: 0 <= i < |entry[1..]| ==> entry[1..][i] == entry[i + 1];
      rest
  }

  lemma PathAt<A>(entry: seq<(PathId, A)>, i: nat)
    requires SortedById(entry) && i < |entry|
    ensures PathOf(entry, entry[i].0) == Some(entry[i].1)
  {
  }

  function PutPath<A>(entry: seq<(PathId, A)>, id: PathId, a: A): seq<(PathId, A)>
    requires SortedById(entry)
  {
    match BinarySearchById(entry, id)
    case Found(index) => entry[index := (id, a)]
    case NotFound(index) => InsertAt(entry, index, (id, a))
  }

  function DropPath<A>(entry: seq<(PathId, A)>, id: PathId): seq<(PathId, A)>
    requires SortedById(entry)
  {
    match BinarySearchById(entry, id)
    case Found(index) => RemoveAt(entry, index)
    case NotFound(_) => entry
  }

  /** The path that a binary search finds. */
  function PathFound<A>(entry: seq<(PathId, A)>, id: PathId): (path: Option<A>)
    requires SortedById(entry)
    ensures path == PathOf(entry, id)
  {
    match BinarySearchById(entry, id)
    case Found(index) =>
      PathAt(entry, index);
      Some(entry[index].1)
    case NotFound(_) => None
  }

  /** A sorted entry has path `id -> a` exactly when some position holds it. */
  lemma PathOfIff<A>(entry: seq<(PathId, A)>, id: PathId, path: Option<A>)
    requires SortedById(entry)
    requires path.Some? ==> exists i :: 0 <= i < |entry| && entry[i] == (id, path.value)
    requires path.None? ==> forall i :: 0 <= i < |entry| ==> entry[i].0 != id
    ensures PathOf(entry, id) == path
  {
    if path.Some? {
      var i :| 0 <= i < |entry| && entry[i] == (id, path.value);
      PathAt(entry, i);
    }
  }

  ghost predicate Has<A>(entry: seq<(PathId, A)>, path: (PathId, A)) {
    exists i :: 0 <= i < |entry| && entry[i] == path
  }

  /** Where a position of the old vector is found in the new one. */
  ghost predicate Keeps<A>(entry: seq<(PathId, A)>, entry': seq<(PathId, A)>, id: PathId) {
    && (forall i :: 0 <= i < |entry| && entry[i].0 != id ==>
          Has(entry', entry[i]))
    && (forall j :: 0 <= j < |entry'| && entry'[j].0 != id ==>
          Has(entry, entry'[j]))
  }

  lemma KeepsPath<A>(entry: seq<(PathId, A)>, entry': seq<(PathId, A)>, id: PathId, k: PathId)
    requires SortedById(entry) && SortedById(entry') && Keeps(entry, entry', id) && k != id
    ensures PathOf(entry', k) == PathOf(entry, k)
  {
    hide PathOf;
    if PathOf(entry, k).Some? {
      var i :| 0 <= i < |entry| && entry[i] == (k, PathOf(entry, k).value);
      assert Has(entry', entry[i]);
    }
    PathOfIff(entry', k, PathOf(entry, k));
  }

  lemma ReplaceKeeps<A>(entry: seq<(PathId, A)>, index: nat, id: PathId, a: A)
    requires SortedById(entry) && index < |entry| && entry[index].0 == id
    ensures SortedById(entry[index := (id, a)]) && Keeps(entry, entry[index := (id, a)], id)
    ensures Has(entry[index := (id, a)], (id, a))
  {
    var entry' := entry[index := (id, a)];
    forall i | 0 <= i < |entry| && entry[i].0 != id
      ensures Has(entry', entry[i]) && Has(entry, entry'[i])
    {
      assert entry'[i] == entry[i];
    }
    assert entry'[index] == (id, a);
  }

  lemma InsertKeeps<A>(entry: seq<(PathId, A)>, index: nat, id: PathId, a: A)
    requires SortedById(entry) && index <= |entry|
    requires forall i :: 0 <= i < index ==> entry[i].0 < id
    requires forall i :: index <= i < |entry| ==> id < entry[i].0
    ensures SortedById(InsertAt(entry, index, (id, a))) && Keeps(entry, InsertAt(entry, index, (id, a)), id)
    ensures Has(InsertAt(entry, index, (id, a)), (id, a))
  {
    var entry' := InsertAt(entry, index, (id, a));
    InsertAtElements(entry, index, (id, a));
    hide InsertAt;
    forall i | 0 <= i < |entry|
      ensures Has(entry', entry[i])
    {
      assert entry'[if i < index then i else i + 1] == entry[i];
    }
    forall j | 0 <= j < |entry'| && entry'[j].0 != id
      ensures Has(entry, entry'[j])
    {
      assert entry[if j < index then j else j - 1] == entry'[j];
    }
    assert entry'[index] == (id, a);
  }

  lemma RemoveKeeps<A>(entry: seq<(PathId, A)>, index: nat, id: PathId)
    requires SortedById(entry) && index < |entry| && entry[index].0 == id
    ensures SortedById(RemoveAt(entry, index)) && Keeps(entry, RemoveAt(entry, index), id)
    ensures forall j :: 0 <= j < |RemoveAt(entry, index)| ==> RemoveAt(entry, index)[j].0 != id
  {
    var entry' := RemoveAt(entry, index);
    forall i | 0 <= i < |entry| && entry[i].0 != id
      ensures Has(entry', entry[i])
    {
      assert entry'[if i < index then i else i - 1] == entry[i];
    }
    forall j | 0 <= j < |entry'|
      ensures Has(entry, entry'[j])
    {
      assert entry[if j < index then j else j + 1] == entry'[j];
    }
  }

  lemma PutPathPuts<A>(entry: seq<(PathId, A)>, id: PathId, a: A)
    requires SortedById(entry)
    ensures SortedById(PutPath(entry, id, a)) && PutPath(entry, id, a) != []
    ensures forall k :: PathOf(PutPath(entry, id, a), k) == if k == id then Some(a) else PathOf(entry, k)
  {
    hide PathOf, Keeps, SortedById, InsertAt;
    match BinarySearchById(entry, id)
    {
      case Found(index) => ReplaceKeeps(entry, index, id, a);
      case NotFound(index) => InsertKeeps(entry, index, id, a);
    }
    hide PutPath;
    PathOfIff(PutPath(entry, id, a), id, Some(a));
    forall k | k != id
      ensures PathOf(PutPath(entry, id, a), k) == PathOf(entry, k)
    {
      KeepsPath(entry, PutPath(entry, id, a), id, k);
    }
  }

  lemma DropPathDrops<A>(entry: seq<(PathId, A)>, id: PathId)
    requires SortedById(entry)
    ensures SortedById(DropPath(entry, id))
    ensures forall k :: PathOf(DropPath(entry, id), k) == if k == id then None else PathOf(entry, k)
  {
    hide PathOf, SortedById, RemoveAt;
    match BinarySearchById(entry, id)
    {
      case Found(index) => RemoveKeeps(entry, index, id);
      case NotFound(_) =>
        assert Keeps(entry, entry, id);
    }
    hide DropPath, Keeps;
    PathOfIff(DropPath(entry, id), id, None);
    forall k | k != id
      ensures PathOf(DropPath(entry, id), k) == PathOf(entry, k)
    {
      KeepsPath(entry, DropPath(entry, id), id, k);
    }
  }

  // ---- The table as a map ------------------------------------------------------------------

  type Rib<A> = map<(Key, PathId), A>

  /** Every stored vector is non-empty and strictly sorted, and every key is that of a network. */
  ghost predicate Entries<A>(m: map<Key, seq<(PathId, A)>>) {
    forall k :: k in m ==> IsNetKey(k) && m[k] != [] && SortedById(m[k])
  }

  ghost predicate Flat<A>(m: map<Key, seq<(PathId, A)>>, rib: Rib<A>) {
    forall k, id :: Get(rib, (k, id)) == if k in m then PathOf(m[k], id) else None
  }

  class InMemoryTable<A> {
    var table: Node<seq<(PathId, A)>>

    /** The routes by network key and path id. */
    ghost var rib: Rib<A>
    ghost var Repr: set<object>

    ghost predicate Valid()
      reads this, Repr
      ensures Valid() ==> this in Repr
    {
      && this in Repr && table in Repr && table.Repr <= Repr - {this}
      && table.Valid()
      && Entries(table.contents)
      && Flat(table.contents, rib)
    }

    constructor ()
      ensures Valid() && fresh(Repr) && rib == map[]
    {
      table := new Node<seq<(PathId, A)>>();
      rib := map[];
      new;
      Repr := {this} + table.Repr;
    }

    /** The route replaces the one that the path had, which is handed back to be dropped. */
    method UpdateRoute(pathId: PathId, net: IpNet, route: A) returns (replaced: Option<A>)
      requires Valid()
      modifies Repr
      ensures Valid() && fresh(Repr - old(Repr))
      ensures replaced == Get(old(rib), (ToKey(net), pathId))
      ensures rib == old(rib)[(ToKey(net), pathId) := route]
    {
      hide PathOf, PathFound, ToKey, IsNetKey, PutPath, Flat, Entries, SortedById, Refines, WellFormed, Trie.Exact;
      hide Inserted, Rebound;
      var key := ToKey(net);
      ToKeyIsNetKey(net);
      var slot := table.ExactMatch(key);
      var entry := if slot.Some? then slot.value else [];
      PutRefines(table.contents, rib, key, pathId, route);
      replaced := PathFound(entry, pathId);
      var entry' := PutPath(entry, pathId, route);
      if slot.Some? {
        var _ := table.SetExisting(key, entry');
      } else {
        var _ := table.Insert(key, entry');
      }
      Repr := Repr + table.Repr;
      rib := rib[(key, pathId) := route];
    }

    /** The path is gone, and with the last one the whole entry; its route is handed back to be dropped. */
    method WithdrawRoute(pathId: PathId, net: IpNet) returns (removed: Option<A>)
      requires Valid()
      modifies Repr
      ensures Valid() && fresh(Repr - old(Repr))
      ensures removed == Get(old(rib), (ToKey(net), pathId))
      ensures rib == old(rib) - {(ToKey(net), pathId)}
    {
      hide PathOf, PathFound, ToKey, IsNetKey, DropPath, Flat, Entries, SortedById, Refines, WellFormed, Trie.Exact;
      hide Inserted, Rebound;
      var key := ToKey(net);
      DropRefines(table.contents, rib, key, pathId);
      var slot := table.ExactMatch(key);
      if slot.None? {
        rib := rib - {(key, pathId)};
        return None;
      }
      removed := PathFound(slot.value, pathId);
      var entry' := DropPath(slot.value, pathId);
      ghost var m := table.contents;
      var _ := table.SetExisting(key, entry');
      if entry' == [] {
        var _ := table.Remove(key);
        assert m[key := entry'] - {key} == m - {key};
      }
      Repr := Repr + table.Repr;
      rib := rib - {(key, pathId)};
    }

    method GetRoutes(query: Option<NetQuery>) returns (out: seq<(IpNet, PathId, A)>)
      requires Valid()
      ensures ListsRoutes(out, rib, query)
      ensures NetPlaces(rib)
    {
      hide PathOf, ToKey, IsNetKey, NetOf, Flat, Refines, WellFormed, Trie.Exact, Selects, Chosen, Iter, Matches;
      hide TrieQuery.OrLonger, LongestStored, Flatten, ListsRoutes;
      var t := table.AsTree();
      ghost var m := table.contents;
      var pairs: seq<(Key, seq<(PathId, A)>)>;
      match query {
        case None =>
          pairs := Iter(t);
          ChosenAll(t, m);
        case Some(Exact(net)) =>
          var slot := table.ExactMatch(ToKey(net));
          pairs := if slot.Some? then [(ToKey(net), slot.value)] else [];
          ChosenExact(m, net, pairs);
        case Some(MostSpecific(net)) =>
          var longest := LongestMatch(t, ToKey(net));
          pairs := if longest.Some? then [longest.value] else [];
          ChosenMostSpecific(t, m, net, pairs);
        case Some(Contains(net)) =>
          pairs := Matches(t, ToKey(net));
          ChosenContains(t, m, net);
        case Some(OrLonger(net)) =>
          pairs := TrieQuery.OrLonger(t, ToKey(net));
          ChosenOrLonger(t, m, net);
      }
      ChosenAreNets(m, pairs, query);
      var nets: seq<(IpNet, seq<(PathId, A)>)>;
      if query.Some? && query.value.Exact? {
        nets := seq(|pairs|, i requires 0 <= i < |pairs| => (query.value.net, pairs[i].1));
      } else {
        nets := seq(|pairs|, i requires 0 <= i < |pairs| => (NetOf(pairs[i].0), pairs[i].1));
      }
      out := Flatten(nets);
      FlattenLists(m, rib, query, pairs, nets);
      FlatNetPlaces(m, rib);
    }
  }

  lemma PutRefines<A>(m: map<Key, seq<(PathId, A)>>, rib: Rib<A>, key: Key, id: PathId, a: A)
    requires Entries(m) && Flat(m, rib) && IsNetKey(key)
    ensures var entry := if key in m then m[key] else [];
            && SortedById(entry)
            && PathOf(entry, id) == Get(rib, (key, id))
            && Entries(m[key := PutPath(entry, id, a)])
            && Flat(m[key := PutPath(entry, id, a)], rib[(key, id) := a])
  {
    var entry := if key in m then m[key] else [];
    PutPathPuts(entry, id, a);
  }

  lemma DropRefines<A>(m: map<Key, seq<(PathId, A)>>, rib: Rib<A>, key: Key, id: PathId)
    requires Entries(m) && Flat(m, rib)
    ensures key !in m ==> Flat(m, rib - {(key, id)}) && Get(rib, (key, id)) == None
    ensures key in m ==> SortedById(m[key]) && PathOf(m[key], id) == Get(rib, (key, id))
    ensures key in m ==>
              var entry' := DropPath(m[key], id);
              var m' := if entry' == [] then m - {key} else m[key := entry'];
              Entries(m') && Flat(m', rib - {(key, id)})
  {
    hide PathOf, DropPath, SortedById, IsNetKey;
    if key in m {
      DropPathDrops(m[key], id);
      var entry' := DropPath(m[key], id);
      var m' := if entry' == [] then m - {key} else m[key := entry'];
      forall k, i
        ensures Get(rib - {(key, id)}, (k, i)) == if k in m' then PathOf(m'[k], i) else None
      {
        assert Get(rib, (k, i)) == if k in m then PathOf(m[k], i) else None;
        if k == key && entry' == [] {
          NoPaths<A>(i);
        }
      }
    }
  }

  lemma NoPaths<A>(id: PathId)
    ensures PathOf<A>([], id) == None
  {
  }

  // ---- get_routes --------------------------------------------------------------------------

  ghost function StoredKeys<A>(rib: Rib<A>): set<Key> {
    set p | p in rib :: p.0
  }

  /** What a query asks for, said of networks; `keys` are those of all stored networks. */
  ghost predicate Selects(query: Option<NetQuery>, keys: set<Key>, k: Key) {
    && IsNetKey(k)
    && match query
       case None => true
       case Some(Exact(net)) => k == ToKey(net)
       case Some(Contains(net)) => NetKey.Contains(NetOf(k), net)
       case Some(OrLonger(net)) => NetKey.Contains(net, NetOf(k))
       case Some(MostSpecific(net)) =>
         && NetKey.Contains(NetOf(k), net)
         && forall k' :: k' in keys && IsNetKey(k') && NetKey.Contains(NetOf(k'), net) ==>
              NetOf(k').prefixLen <= NetOf(k).prefixLen
  }

  ghost predicate Distinct<A>(out: seq<(IpNet, PathId, A)>) {
    forall i, j :: 0 <= i < j < |out| ==> (ToKey(out[i].0), out[i].1) != (ToKey(out[j].0), out[j].1)
  }

  /** `out` has each selected route once, with the network asked for or the one of its key. */
  ghost predicate ListsRoutes<A>(out: seq<(IpNet, PathId, A)>, rib: Rib<A>, query: Option<NetQuery>) {
    && Distinct(out)
    && (forall i :: 0 <= i < |out| ==>
          && Get(rib, (ToKey(out[i].0), out[i].1)) == Some(out[i].2)
          && Selects(query, StoredKeys(rib), ToKey(out[i].0))
          && ShownAs(query, ToKey(out[i].0), out[i].0))
    && (forall k, id :: (k, id) in rib && Selects(query, StoredKeys(rib), k) ==>
          exists i :: 0 <= i < |out| && ToKey(out[i].0) == k && out[i].1 == id)
  }

  /** Routes are stored at keys of networks. */
  ghost predicate NetPlaces<A>(rib: Rib<A>) {
    forall p :: p in rib ==> IsNetKey(p.0)
  }

  lemma FlatNetPlaces<A>(m: map<Key, seq<(PathId, A)>>, rib: Rib<A>)
    requires Entries(m) && Flat(m, rib)
    ensures NetPlaces(rib)
  {
    forall p | p in rib
      ensures IsNetKey(p.0)
    {
      assert Get(rib, (p.0, p.1)).Some?;
    }
  }

  ghost predicate ShownAs(query: Option<NetQuery>, k: Key, net: IpNet) {
    && IsNetKey(k)
    && net == if query.Some? && query.value.Exact? then query.value.net else NetOf(k)
  }

  /** The entries that a query picks, each key once. */
  ghost predicate Chosen<V>(m: map<Key, V>, pairs: seq<(Key, V)>, query: Option<NetQuery>) {
    && (forall i, j :: 0 <= i < j < |pairs| ==> pairs[i].0 != pairs[j].0)
    && (forall i :: 0 <= i < |pairs| ==> Get(m, pairs[i].0) == Some(pairs[i].1) && Selects(query, m.Keys, pairs[i].0))
    && (forall k :: k in m && Selects(query, m.Keys, k) ==> exists i :: 0 <= i < |pairs| && pairs[i].0 == k)
  }

  ghost predicate NetKeys<V>(m: map<Key, V>) {
    forall k :: k in m ==> IsNetKey(k)
  }

  /** A listing of the trie, read through the map it refines. */
  lemma ListsToChosen<V>(t: Tree<V>, m: map<Key, V>, pairs: seq<(Key, V)>, sel: iset<Key>, query: Option<NetQuery>)
    requires WellFormed(t) && Refines(t, m) && Lists(pairs, t, [], sel)
    requires forall k :: k in m ==> (k in sel <==> Selects(query, m.Keys, k))
    ensures Chosen(m, pairs, query)
  {
    hide Trie.Exact, WellFormed, Selects;
    forall i | 0 <= i < |pairs|
      ensures Get(m, pairs[i].0) == Some(pairs[i].1) && pairs[i].0 in sel
    {
      assert pairs[i].0[0..] == pairs[i].0;
      RefinesAt(t, m, pairs[i].0);
    }
    forall k | k in m && Selects(query, m.Keys, k)
      ensures exists i :: 0 <= i < |pairs| && pairs[i].0 == k
    {
      RefinesAt(t, m, k);
      var i :| 0 <= i < |pairs| && pairs[i].0 == [] + k;
    }
  }

  lemma ChosenAll<V>(t: Tree<V>, m: map<Key, V>)
    requires WellFormed(t) && Refines(t, m) && NetKeys(m)
    ensures Chosen(m, Iter(t), None)
  {
    hide Chosen, Lists, Refines, Trie.Exact, WellFormed;
    IterLists(t, []);
    assert forall k: Key :: StartsWith(k, []);
    ListsToChosen(t, m, Iter(t), Extensions([]), None);
  }

  lemma ChosenExact<V>(m: map<Key, V>, net: IpNet, pairs: seq<(Key, V)>)
    requires pairs == if ToKey(net) in m then [(ToKey(net), m[ToKey(net)])] else []
    ensures Chosen(m, pairs, Some(Exact(net)))
  {
    hide ToKey, NetOf;
    ToKeyIsNetKey(net);
    if ToKey(net) in m {
      assert pairs[0].0 == ToKey(net);
    }
  }

  lemma ChosenContains<V>(t: Tree<V>, m: map<Key, V>, net: IpNet)
    requires WellFormed(t) && Refines(t, m) && NetKeys(m)
    ensures Chosen(m, Matches(t, ToKey(net)), Some(Contains(net)))
  {
    hide Chosen, Lists, Refines, Trie.Exact, WellFormed, ToKey, NetOf, NetKey.Contains;
    MatchesLists(t, [], ToKey(net));
    forall k | k in m
      ensures k in PrefixesOf(ToKey(net)) <==> Selects(Some(Contains(net)), m.Keys, k)
    {
      KeyRoundTrip(k);
      ContainsIsPrefix(NetOf(k), net);
    }
    ListsToChosen(t, m, Matches(t, ToKey(net)), PrefixesOf(ToKey(net)), Some(Contains(net)));
  }

  lemma ChosenOrLonger<V>(t: Tree<V>, m: map<Key, V>, net: IpNet)
    requires WellFormed(t) && Refines(t, m) && NetKeys(m)
    ensures Chosen(m, TrieQuery.OrLonger(t, ToKey(net)), Some(OrLonger(net)))
  {
    hide Chosen, Lists, Refines, Trie.Exact, WellFormed, ToKey, NetOf, NetKey.Contains;
    OrLongerLists(t, [], ToKey(net));
    forall k | k in m
      ensures k in Extensions(ToKey(net)) <==> Selects(Some(OrLonger(net)), m.Keys, k)
    {
      KeyRoundTrip(k);
      ContainsIsPrefix(net, NetOf(k));
    }
    ListsToChosen(t, m, TrieQuery.OrLonger(t, ToKey(net)), Extensions(ToKey(net)), Some(OrLonger(net)));
  }

  lemma NetOfKey<V>(t: Tree<V>, m: map<Key, V>, net: IpNet, k: Key)
    requires WellFormed(t) && Refines(t, m) && k in m && IsNetKey(k)
    ensures NetKey.Contains(NetOf(k), net) <==> StartsWith(ToKey(net), k)
    ensures NetOf(k).prefixLen == |k| - 1
    ensures Trie.Exact(t, k) == Some(m[k])
  {
    hide Trie.Exact, WellFormed, Refines, ToKey, NetOf, NetKey.Contains;
    KeyRoundTrip(k);
    ContainsIsPrefix(NetOf(k), net);
    RefinesAt(t, m, k);
  }

  /** Longest match in the trie is the most specific network that contains the one asked for. */
  lemma LongestIsMostSpecific<V>(t: Tree<V>, m: map<Key, V>, net: IpNet, k: Key)
    requires WellFormed(t) && Refines(t, m) && NetKeys(m) && k in m
    ensures var longest := LongestStored(t, ToKey(net));
            Selects(Some(MostSpecific(net)), m.Keys, k) <==> longest.Some? && k == longest.value.0
  {
    hide Trie.Exact, WellFormed, ToKey, NetOf, NetKey.Contains, LongestStored, Refines, StartsWith;
    var longest := LongestStored(t, ToKey(net));
    NetOfKey(t, m, net, k);
    if longest.Some? {
      var l := longest.value.0;
      RefinesAt(t, m, l);
      NetOfKey(t, m, net, l);
      if k == l {
        forall k' | k' in m && NetKey.Contains(NetOf(k'), net)
          ensures NetOf(k').prefixLen <= NetOf(k).prefixLen
        {
          NetOfKey(t, m, net, k');
        }
      } else if Selects(Some(MostSpecific(net)), m.Keys, k) {
        SameLengthPrefixes(ToKey(net), k, l);
      }
    }
  }

  lemma SameLengthPrefixes(key: Key, k: Key, l: Key)
    requires StartsWith(key, k) && StartsWith(key, l) && |k| == |l|
    ensures k == l
  {
    assert k == key[..|k|] && l == key[..|l|];
  }

  lemma ChosenMostSpecific<V>(t: Tree<V>, m: map<Key, V>, net: IpNet, pairs: seq<(Key, V)>)
    requires WellFormed(t) && Refines(t, m) && NetKeys(m)
    requires pairs == match LongestStored(t, ToKey(net)) case None => [] case Some(p) => [p]
    ensures Chosen(m, pairs, Some(MostSpecific(net)))
  {
    hide Trie.Exact, WellFormed, ToKey, LongestStored, Refines, StartsWith, Selects;
    var longest := LongestStored(t, ToKey(net));
    if longest.Some? {
      RefinesAt(t, m, longest.value.0);
      assert pairs[0] == longest.value;
    }
    forall k | k in m
      ensures Selects(Some(MostSpecific(net)), m.Keys, k) <==> longest.Some? && k == longest.value.0
    {
      LongestIsMostSpecific(t, m, net, k);
    }
  }

  lemma ChosenAreNets<V>(m: map<Key, V>, pairs: seq<(Key, V)>, query: Option<NetQuery>)
    requires Chosen(m, pairs, query)
    ensures forall i :: 0 <= i < |pairs| ==> IsNetKey(pairs[i].0)
  {
  }

  function Paths<A>(net: IpNet, entry: seq<(PathId, A)>): seq<(IpNet, PathId, A)> {
    seq(|entry|, i requires 0 <= i < |entry| => (net, entry[i].0, entry[i].1))
  }

  /** `flat_map` of the entries to their paths. */
  function Flatten<A>(nets: seq<(IpNet, seq<(PathId, A)>)>): seq<(IpNet, PathId, A)> {
    if nets == [] then []
    else Flatten(nets[..|nets| - 1]) + Paths(nets[|nets| - 1].0, nets[|nets| - 1].1)
  }

  ghost predicate HasPath<A>(nets: seq<(IpNet, seq<(PathId, A)>)>, n: int, j: int) {
    0 <= n < |nets| && 0 <= j < |nets[n].1|
  }

  /** Entry and position that a flattened route comes from. */
  ghost predicate ComesFrom<A>(route: (IpNet, PathId, A), nets: seq<(IpNet, seq<(PathId, A)>)>, n: int, j: int) {
    && HasPath(nets, n, j)
    && route.0 == nets[n].0 && route.1 == nets[n].1[j].0 && route.2 == nets[n].1[j].1
  }

  ghost predicate Sourced<A>(route: (IpNet, PathId, A), nets: seq<(IpNet, seq<(PathId, A)>)>) {
    exists n, j :: ComesFrom(route, nets, n, j)
  }

  ghost predicate Reached<A>(out: seq<(IpNet, PathId, A)>, nets: seq<(IpNet, seq<(PathId, A)>)>, n: int, j: int) {
    exists i :: 0 <= i < |out| && ComesFrom(out[i], nets, n, j)
  }

  ghost predicate Covers<A>(out: seq<(IpNet, PathId, A)>, nets: seq<(IpNet, seq<(PathId, A)>)>) {
    && (forall i :: 0 <= i < |out| ==> Sourced(out[i], nets))
    && (forall n, j :: HasPath(nets, n, j) ==> Reached(out, nets, n, j))
  }

  lemma {:induction false} FlattenCovers<A>(nets: seq<(IpNet, seq<(PathId, A)>)>)
    ensures Covers(Flatten(nets), nets)
  {
    if nets != [] {
      FlattenCovers(nets[..|nets| - 1]);
      CoversOneMore(Flatten(nets[..|nets| - 1]), nets);
    }
  }

  lemma CoversOneMore<A>(front: seq<(IpNet, PathId, A)>, nets: seq<(IpNet, seq<(PathId, A)>)>)
    requires nets != [] && Covers(front, nets[..|nets| - 1])
    ensures Covers(front + Paths(nets[|nets| - 1].0, nets[|nets| - 1].1), nets)
  {
    var last := |nets| - 1;
    var paths := Paths(nets[last].0, nets[last].1);
    var out := front + paths;
    forall i | 0 <= i < |out|
      ensures Sourced(out[i], nets)
    {
      if i < |front| {
        assert Sourced(front[i], nets[..last]);
        var n, j :| ComesFrom(front[i], nets[..last], n, j);
        assert ComesFrom(out[i], nets, n, j);
      } else {
        assert ComesFrom(out[i], nets, last, i - |front|);
      }
    }
    forall n, j | HasPath(nets, n, j)
      ensures Reached(out, nets, n, j)
    {
      if n < last {
        assert HasPath(nets[..last], n, j);
        assert Reached(front, nets[..last], n, j);
        var i :| 0 <= i < |front| && ComesFrom(front[i], nets[..last], n, j);
        assert ComesFrom(out[i], nets, n, j);
      } else {
        assert ComesFrom(out[|front| + j], nets, n, j);
      }
    }
    hide Sourced, Reached;
  }

  /** Networks with different keys and sorted entries flatten to different routes. */
  lemma {:induction false} FlattenDistinct<A>(nets: seq<(IpNet, seq<(PathId, A)>)>)
    requires forall m, n :: 0 <= m < n < |nets| ==> ToKey(nets[m].0) != ToKey(nets[n].0)
    requires forall n :: 0 <= n < |nets| ==> SortedById(nets[n].1)
    ensures Distinct(Flatten(nets))
  {
    if nets != [] {
      hide ToKey, Distinct, Covers, SortedById;
      var last := |nets| - 1;
      FlattenDistinct(nets[..last]);
      FlattenCovers(nets[..last]);
      DistinctOneMore(Flatten(nets[..last]), nets);
    }
  }

  lemma DistinctOneMore<A>(front: seq<(IpNet, PathId, A)>, nets: seq<(IpNet, seq<(PathId, A)>)>)
    requires nets != [] && Covers(front, nets[..|nets| - 1]) && Distinct(front)
    requires forall m, n :: 0 <= m < n < |nets| ==> ToKey(nets[m].0) != ToKey(nets[n].0)
    requires SortedById(nets[|nets| - 1].1)
    ensures Distinct(front + Paths(nets[|nets| - 1].0, nets[|nets| - 1].1))
  {
    hide ToKey;
    var last := |nets| - 1;
    forall i | 0 <= i < |front|
      ensures ToKey(front[i].0) != ToKey(nets[last].0)
    {
      assert Sourced(front[i], nets[..last]);
      var n, k :| ComesFrom(front[i], nets[..last], n, k);
      assert nets[..last][n] == nets[n];
    }
  }

  /** The stored networks are the keys of the trie. */
  lemma StoredAreKeys<A>(m: map<Key, seq<(PathId, A)>>, rib: Rib<A>)
    requires Entries(m) && Flat(m, rib)
    ensures StoredKeys(rib) == m.Keys
  {
    forall k
      ensures k in StoredKeys(rib) <==> k in m
    {
      if k in m {
        PathAt(m[k], 0);
        assert Get(rib, (k, m[k][0].0)).Some?;
        assert (k, m[k][0].0) in rib;
      }
      if k in StoredKeys(rib) {
        var p :| p in rib && p.0 == k;
        assert Get(rib, (k, p.1)).Some?;
      }
    }
  }

  lemma ShownHasKey(query: Option<NetQuery>, keys: set<Key>, k: Key, net: IpNet)
    requires Selects(query, keys, k) && ShownAs(query, k, net)
    ensures ToKey(net) == k
  {
    hide ToKey, NetOf;
    KeyRoundTrip(k);
  }

  lemma FlattenLists<A>(m: map<Key, seq<(PathId, A)>>, rib: Rib<A>, query: Option<NetQuery>,
                        pairs: seq<(Key, seq<(PathId, A)>)>, nets: seq<(IpNet, seq<(PathId, A)>)>)
    requires Entries(m) && Flat(m, rib) && Chosen(m, pairs, query)
    requires |nets| == |pairs|
    requires forall n :: 0 <= n < |nets| ==>
               nets[n].1 == pairs[n].1 && ShownAs(query, pairs[n].0, nets[n].0)
    ensures ListsRoutes(Flatten(nets), rib, query)
  {
    hide PathOf, NetOf, ToKey, Flat, ListsRoutes, SortedById, Selects, ShownAs, Flatten, Covers, Distinct;
    var out := Flatten(nets);
    StoredAreKeys(m, rib);
    forall n | 0 <= n < |nets|
      ensures ToKey(nets[n].0) == pairs[n].0 && SortedById(nets[n].1)
    {
      assert Get(m, pairs[n].0) == Some(pairs[n].1);
      ShownHasKey(query, m.Keys, pairs[n].0, nets[n].0);
    }
    FlattenDistinct(nets);
    FlattenCovers(nets);
    hide Chosen, Entries;
    FlatLists(m, rib, query, pairs, nets, out);
  }

  lemma FlatLists<A>(m: map<Key, seq<(PathId, A)>>, rib: Rib<A>, query: Option<NetQuery>,
                     pairs: seq<(Key, seq<(PathId, A)>)>, nets: seq<(IpNet, seq<(PathId, A)>)>,
                     out: seq<(IpNet, PathId, A)>)
    requires Flat(m, rib) && Chosen(m, pairs, query) && StoredKeys(rib) == m.Keys
    requires |nets| == |pairs|
    requires forall n :: 0 <= n < |nets| ==>
               && nets[n].1 == pairs[n].1 && SortedById(nets[n].1)
               && ShownAs(query, pairs[n].0, nets[n].0) && ToKey(nets[n].0) == pairs[n].0
    requires Covers(out, nets) && Distinct(out)
    ensures ListsRoutes(out, rib, query)
  {
    hide PathOf, NetOf, ToKey, Selects, ShownAs, SortedById, Chosen, Flat, Covers;
    forall i | 0 <= i < |out|
      ensures Get(rib, (ToKey(out[i].0), out[i].1)) == Some(out[i].2)
      ensures Selects(query, StoredKeys(rib), ToKey(out[i].0)) && ShownAs(query, ToKey(out[i].0), out[i].0)
    {
      FlatListed(m, rib, query, pairs, nets, out, i);
    }
    forall k, id | (k, id) in rib && Selects(query, StoredKeys(rib), k)
      ensures exists i :: 0 <= i < |out| && ToKey(out[i].0) == k && out[i].1 == id
    {
      FlatFound(m, rib, query, pairs, nets, out, k, id);
    }
  }

  lemma FlatListed<A>(m: map<Key, seq<(PathId, A)>>, rib: Rib<A>, query: Option<NetQuery>,
                      pairs: seq<(Key, seq<(PathId, A)>)>, nets: seq<(IpNet, seq<(PathId, A)>)>,
                      out: seq<(IpNet, PathId, A)>, i: nat)
    requires Flat(m, rib) && Chosen(m, pairs, query)
    requires |nets| == |pairs|
    requires forall n :: 0 <= n < |nets| ==>
               && nets[n].1 == pairs[n].1 && SortedById(nets[n].1)
               && ShownAs(query, pairs[n].0, nets[n].0) && ToKey(nets[n].0) == pairs[n].0
    requires Covers(out, nets) && i < |out|
    ensures Get(rib, (ToKey(out[i].0), out[i].1)) == Some(out[i].2)
    ensures Selects(query, m.Keys, ToKey(out[i].0)) && ShownAs(query, ToKey(out[i].0), out[i].0)
  {
    hide PathOf, NetOf, ToKey, Selects, ShownAs, SortedById;
    assert Sourced(out[i], nets);
    var n, j :| ComesFrom(out[i], nets, n, j);
    PathAt(nets[n].1, j);
    assert Get(m, pairs[n].0) == Some(nets[n].1);
  }

  lemma FlatFound<A>(m: map<Key, seq<(PathId, A)>>, rib: Rib<A>, query: Option<NetQuery>,
                     pairs: seq<(Key, seq<(PathId, A)>)>, nets: seq<(IpNet, seq<(PathId, A)>)>,
                     out: seq<(IpNet, PathId, A)>, k: Key, id: PathId)
    requires Flat(m, rib) && Chosen(m, pairs, query)
    requires |nets| == |pairs|
    requires forall n :: 0 <= n < |nets| ==> nets[n].1 == pairs[n].1 && ToKey(nets[n].0) == pairs[n].0
    requires Covers(out, nets) && (k, id) in rib && k in m && Selects(query, m.Keys, k)
    ensures exists i :: 0 <= i < |out| && ToKey(out[i].0) == k && out[i].1 == id
  {
    hide PathOf, ToKey, Selects;
    assert Get(rib, (k, id)).Some?;
    var n :| 0 <= n < |pairs| && pairs[n].0 == k;
    assert Get(m, pairs[n].0) == Some(nets[n].1);
    PathSits(nets[n].1, id);
    var j :| 0 <= j < |nets[n].1| && nets[n].1[j].0 == id;
    assert HasPath(nets, n, j);
    assert Reached(out, nets, n, j);
    var i :| 0 <= i < |out| && ComesFrom(out[i], nets, n, j);
  }

  lemma PathSits<A>(entry: seq<(PathId, A)>, id: PathId)
    requires PathOf(entry, id).Some?
    ensures exists j :: 0 <= j < |entry| && entry[j].0 == id
  {
  }
}
