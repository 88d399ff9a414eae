/** How query results are filtered, limited, merged and streamed. */
module StoreQueries {
  import opened Prelude
  import opened Bits
  import opened Decimal
  import opened NetKey
  import opened Routes
  import opened Tables
  import opened Text

  /** A route on its way to the stream; the path id is dropped from the final result. */
  datatype Hit = Hit(sel: TableSelector, net: IpNet, pathId: PathId, attrs: RouteAttrs)

  /** A regular expression, known by the texts it matches. */
  type Regex = string -> bool

  function AsPathText(asPath: seq<U32>): string {
    Join(seq(|asPath|, i requires 0 <= i < |asPath| => Dec(asPath[i])), ' ')
  }

  /** The text of a path: its numbers, in the order of the path, with a blank between two of them. */
  ghost predicate IsPathText(asPath: seq<U32>, text: string) {
    if asPath == [] then text == ""
    else
      var words := Split(text, ' ');
      |words| == |asPath| && forall i :: 0 <= i < |asPath| ==> words[i] == Dec(asPath[i])
  }

  lemma PathTextIs(asPath: seq<U32>, text: string)
    ensures IsPathText(asPath, text) <==> text == AsPathText(asPath)
  {
    if asPath != [] {
      var words := seq(|asPath|, i requires 0 <= i < |asPath| => Dec(asPath[i]));
      SplitJoin(words, ' ');
      JoinSplit(text, ' ');
      if IsPathText(asPath, text) {
        assert Split(text, ' ') == words;
      }
    }
  }

  predicate Accepts(regex: Option<Regex>, attrs: RouteAttrs) {
    regex.Some? ==> attrs.asPath.Some? && regex.value(AsPathText(attrs.asPath.value))
  }

  /** With a regular expression, only routes with a path are wanted, and only if it matches the text of the path. */
  ghost predicate Wants(regex: Option<Regex>, attrs: RouteAttrs) {
    regex.Some? ==>
      attrs.asPath.Some? && exists text :: IsPathText(attrs.asPath.value, text) && regex.value(text)
  }

  lemma AcceptsWanted(regex: Option<Regex>, attrs: RouteAttrs)
    ensures Accepts(regex, attrs) <==> Wants(regex, attrs)
  {
    hide AsPathText, IsPathText;
    if attrs.asPath.Some? {
      PathTextIs(attrs.asPath.value, AsPathText(attrs.asPath.value));
      forall text: string
        ensures IsPathText(attrs.asPath.value, text) ==> text == AsPathText(attrs.asPath.value)
      {
        PathTextIs(attrs.asPath.value, text);
      }
    }
  }

  // ---- One table ---------------------------------------------------------------------------

  /** The routes of a table that pass the filter. */
  function HitsOf(sel: TableSelector, routes: seq<(IpNet, PathId, RouteAttrs)>, regex: Option<Regex>): seq<Hit> {
    if routes == [] then []
    else
      var (net, id, attrs) := routes[|routes| - 1];
      HitsOf(sel, routes[..|routes| - 1], regex) + if Accepts(regex, attrs) then [Hit(sel, net, id, attrs)] else []
  }

  /** A limit of 0 is none. */
  function Take<T>(s: seq<T>, limit: nat): seq<T> {
    if limit == 0 || |s| <= limit then s else s[..limit]
  }

  function Limited(n: nat, limit: nat): nat {
    if limit == 0 || n <= limit then n else limit
  }

  function Place(h: Hit): (Key, PathId) {
    (ToKey(h.net), h.pathId)
  }

  /** The stored paths that a query asks for. */
  ghost function Matching(rib: Rib<RouteAttrs>, query: NetQuery, regex: Option<Regex>): set<(Key, PathId)> {
    set p | p in rib && Selects(Some(query), StoredKeys(rib), p.0) && Wants(regex, rib[p])
  }

  /** `h` is a stored route that the query asks for, shown with its network. */
  ghost predicate IsMatch(h: Hit, rib: Rib<RouteAttrs>, query: NetQuery, regex: Option<Regex>) {
    && Place(h) in Matching(rib, query, regex)
    && rib[Place(h)] == h.attrs
    && ShownAs(Some(query), ToKey(h.net), h.net)
  }

  ghost predicate NoTwoAlike(hits: seq<Hit>) {
    forall i, j :: 0 <= i < j < |hits| ==> Place(hits[i]) != Place(hits[j])
  }

  /** All matches of one table, each once. */
  ghost predicate TableAnswer(hits: seq<Hit>, sel: TableSelector, rib: Rib<RouteAttrs>, query: NetQuery,
                              regex: Option<Regex>) {
    && NoTwoAlike(hits)
    && (forall i :: 0 <= i < |hits| ==> hits[i].sel == sel && IsMatch(hits[i], rib, query, regex))
    && (forall p :: p in Matching(rib, query, regex) ==> exists i :: 0 <= i < |hits| && Place(hits[i]) == p)
  }

  ghost predicate From(h: Hit, sel: TableSelector, routes: seq<(IpNet, PathId, RouteAttrs)>, j: int) {
    0 <= j < |routes| && h.sel == sel && h.net == routes[j].0 && h.pathId == routes[j].1 && h.attrs == routes[j].2
  }

  ghost predicate Comes(h: Hit, sel: TableSelector, routes: seq<(IpNet, PathId, RouteAttrs)>, regex: Option<Regex>) {
    exists j :: From(h, sel, routes, j) && Accepts(regex, h.attrs)
  }

  ghost predicate Survives(hits: seq<Hit>, sel: TableSelector, routes: seq<(IpNet, PathId, RouteAttrs)>, j: int) {
    exists i :: 0 <= i < |hits| && From(hits[i], sel, routes, j)
  }

  /** `hits` are the routes that the filter accepts. */
  ghost predicate Filters(hits: seq<Hit>, sel: TableSelector, routes: seq<(IpNet, PathId, RouteAttrs)>,
                          regex: Option<Regex>) {
    && (forall i :: 0 <= i < |hits| ==> Comes(hits[i], sel, routes, regex))
    && (forall j :: 0 <= j < |routes| && Accepts(regex, routes[j].2) ==> Survives(hits, sel, routes, j))
  }

  lemma {:induction false} HitsOfFilters(sel: TableSelector, routes: seq<(IpNet, PathId, RouteAttrs)>,
                                         regex: Option<Regex>)
    ensures Filters(HitsOf(sel, routes, regex), sel, routes, regex)
  {
    hide Accepts;
    if routes != [] {
      HitsOfFilters(sel, routes[..|routes| - 1], regex);
      FiltersOneMore(HitsOf(sel, routes[..|routes| - 1], regex), sel, routes, regex);
    }
  }

  lemma FiltersOneMore(before: seq<Hit>, sel: TableSelector, routes: seq<(IpNet, PathId, RouteAttrs)>,
                       regex: Option<Regex>)
    requires routes != [] && Filters(before, sel, routes[..|routes| - 1], regex)
    ensures var (net, id, attrs) := routes[|routes| - 1];
            Filters(before + if Accepts(regex, attrs) then [Hit(sel, net, id, attrs)] else [], sel, routes, regex)
  {
    hide Accepts;
    var front, last := routes[..|routes| - 1], |routes| - 1;
    var (net, id, attrs) := routes[last];
    var hits := before + if Accepts(regex, attrs) then [Hit(sel, net, id, attrs)] else [];
    forall i | 0 <= i < |hits|
      ensures Comes(hits[i], sel, routes, regex)
    {
      if i < |before| {
        assert Comes(before[i], sel, front, regex);
        var j :| From(before[i], sel, front, j) && Accepts(regex, before[i].attrs);
        assert From(hits[i], sel, routes, j);
      } else {
        assert From(hits[i], sel, routes, last);
      }
    }
    forall j | 0 <= j < |routes| && Accepts(regex, routes[j].2)
      ensures Survives(hits, sel, routes, j)
    {
      if j < last {
        assert Accepts(regex, front[j].2);
        assert Survives(before, sel, front, j);
        var i :| 0 <= i < |before| && From(before[i], sel, front, j);
        assert From(hits[i], sel, routes, j);
      } else {
        assert From(hits[|before|], sel, routes, last);
      }
    }
  }

  lemma {:induction false} HitsOfNoTwoAlike(sel: TableSelector, routes: seq<(IpNet, PathId, RouteAttrs)>,
                                            regex: Option<Regex>)
    requires Distinct(routes)
    ensures NoTwoAlike(HitsOf(sel, routes, regex))
  {
    hide Accepts, ToKey;
    if routes != [] {
      var front := routes[..|routes| - 1];
      HitsOfNoTwoAlike(sel, front, regex);
      HitsOfFilters(sel, front, regex);
      var before := HitsOf(sel, front, regex);
      forall i | 0 <= i < |before|
        ensures Place(before[i]) != (ToKey(routes[|routes| - 1].0), routes[|routes| - 1].1)
      {
        assert Comes(before[i], sel, front, regex);
        var j :| From(before[i], sel, front, j) && Accepts(regex, before[i].attrs);
        assert front[j] == routes[j];
      }
    }
  }

  lemma FilteredTable(sel: TableSelector, rib: Rib<RouteAttrs>, query: NetQuery,
                      routes: seq<(IpNet, PathId, RouteAttrs)>, regex: Option<Regex>)
    requires ListsRoutes(routes, rib, Some(query))
    ensures TableAnswer(HitsOf(sel, routes, regex), sel, rib, query, regex)
  {
    hide Accepts, ToKey, Matching, HitsOf, ListsRoutes, Filters, IsMatch, NoTwoAlike;
    var hits := HitsOf(sel, routes, regex);
    HitsOfFilters(sel, routes, regex);
    forall i | 0 <= i < |hits|
      ensures hits[i].sel == sel && IsMatch(hits[i], rib, query, regex)
    {
      HitMatches(sel, rib, query, routes, regex, hits, i);
    }
    forall p | p in Matching(rib, query, regex)
      ensures exists i :: 0 <= i < |hits| && Place(hits[i]) == p
    {
      MatchIsHit(sel, rib, query, routes, regex, hits, p);
    }
    assert Distinct(routes) by {
      ListsDistinct(routes, rib, query);
    }
    HitsOfNoTwoAlike(sel, routes, regex);
  }

  lemma ListsDistinct(routes: seq<(IpNet, PathId, RouteAttrs)>, rib: Rib<RouteAttrs>, query: NetQuery)
    requires ListsRoutes(routes, rib, Some(query))
    ensures Distinct(routes)
  {
  }

  lemma HitMatches(sel: TableSelector, rib: Rib<RouteAttrs>, query: NetQuery, routes: seq<(IpNet, PathId, RouteAttrs)>,
                   regex: Option<Regex>, hits: seq<Hit>, i: nat)
    requires ListsRoutes(routes, rib, Some(query)) && Filters(hits, sel, routes, regex) && i < |hits|
    ensures hits[i].sel == sel && IsMatch(hits[i], rib, query, regex)
  {
    hide Accepts, Wants, ToKey, Selects, ShownAs, Distinct;
    assert Comes(hits[i], sel, routes, regex);
    var j :| From(hits[i], sel, routes, j) && Accepts(regex, hits[i].attrs);
    AcceptsWanted(regex, hits[i].attrs);
    assert Get(rib, (ToKey(routes[j].0), routes[j].1)) == Some(routes[j].2);
  }

  lemma MatchIsHit(sel: TableSelector, rib: Rib<RouteAttrs>, query: NetQuery, routes: seq<(IpNet, PathId, RouteAttrs)>,
                   regex: Option<Regex>, hits: seq<Hit>, p: (Key, PathId))
    requires ListsRoutes(routes, rib, Some(query)) && Filters(hits, sel, routes, regex)
    requires p in Matching(rib, query, regex)
    ensures exists i :: 0 <= i < |hits| && Place(hits[i]) == p
  {
    hide Accepts, Wants, ToKey, Selects, ShownAs, Distinct;
    var (k, id) := p;
    var j :| 0 <= j < |routes| && ToKey(routes[j].0) == k && routes[j].1 == id;
    AcceptsWanted(regex, routes[j].2);
    assert Get(rib, (ToKey(routes[j].0), routes[j].1)) == Some(routes[j].2);
    assert Survives(hits, sel, routes, j);
    var i :| 0 <= i < |hits| && From(hits[i], sel, routes, j);
  }

  ghost function Places(hits: seq<Hit>): set<(Key, PathId)> {
    set i | 0 <= i < |hits| :: Place(hits[i])
  }

  lemma {:induction false} PlacesCount(hits: seq<Hit>)
    requires NoTwoAlike(hits)
    ensures |Places(hits)| == |hits|
  {
    hide Place;
    if hits != [] {
      var front, last := hits[..|hits| - 1], hits[|hits| - 1];
      PlacesCount(front);
      assert Places(hits) == Places(front) + {Place(last)};
      assert Place(last) !in Places(front);
    }
  }

  lemma AnswerCount(hits: seq<Hit>, sel: TableSelector, rib: Rib<RouteAttrs>, query: NetQuery, regex: Option<Regex>)
    requires TableAnswer(hits, sel, rib, query, regex)
    ensures |hits| == |Matching(rib, query, regex)|
  {
    hide Place, Matching;
    PlacesCount(hits);
    forall p
      ensures p in Places(hits) <==> p in Matching(rib, query, regex)
    {
      if p in Places(hits) {
        var i :| 0 <= i < |hits| && Place(hits[i]) == p;
        assert IsMatch(hits[i], rib, query, regex);
      }
      if p in Matching(rib, query, regex) {
        var i :| 0 <= i < |hits| && Place(hits[i]) == p;
      }
    }
    assert Places(hits) == Matching(rib, query, regex);
  }

  // ---- All tables --------------------------------------------------------------------------

  function Concat<T>(blocks: seq<seq<T>>): seq<T> {
    if blocks == [] then [] else Concat(blocks[..|blocks| - 1]) + blocks[|blocks| - 1]
  }

  function TakeEach<T>(blocks: seq<seq<T>>, limit: nat): seq<seq<T>> {
    seq(|blocks|, i requires 0 <= i < |blocks| => Take(blocks[i], limit))
  }

  /** Results of clients that are not connected are left out. */
  function Connected(hits: seq<Hit>, clients: map<SocketAddr, Client>): seq<Hit> {
    if hits == [] then []
    else
      var last := hits[|hits| - 1];
      Connected(hits[..|hits| - 1], clients) + if last.sel.ClientAddr() in clients then [last] else []
  }

  lemma {:induction false} ConnectedAppend(a: seq<Hit>, b: seq<Hit>, clients: map<SocketAddr, Client>)
    ensures Connected(a + b, clients) == Connected(a, clients) + Connected(b, clients)
  {
    if b == [] {
      assert a + b == a;
    } else {
      ConnectedAppend(a, b[..|b| - 1], clients);
      assert (a + b)[..|a + b| - 1] == a + b[..|b| - 1];
    }
  }

  lemma {:induction false} ConnectedCount(hits: seq<Hit>, clients: map<SocketAddr, Client>, h: Hit)
    ensures multiset(Connected(hits, clients))[h] == if h.sel.ClientAddr() in clients then multiset(hits)[h] else 0
  {
    if hits != [] {
      ConnectedCount(hits[..|hits| - 1], clients, h);
      assert hits == hits[..|hits| - 1] + [hits[|hits| - 1]];
    }
  }

  /** Whatever order the results arrive in, the same ones pass the filter. */
  lemma ConnectedAnyOrder(a: seq<Hit>, b: seq<Hit>, clients: map<SocketAddr, Client>)
    requires multiset(a) <= multiset(b)
    ensures multiset(Connected(a, clients)) <= multiset(Connected(b, clients))
    ensures multiset(a) == multiset(b) ==> |Connected(a, clients)| == |Connected(b, clients)|
  {
    forall h
      ensures multiset(Connected(a, clients))[h] <= multiset(Connected(b, clients))[h]
      ensures multiset(a) == multiset(b) ==> multiset(Connected(a, clients))[h] == multiset(Connected(b, clients))[h]
    {
      ConnectedCount(a, clients, h);
      ConnectedCount(b, clients, h);
    }
    if multiset(a) == multiset(b) {
      assert multiset(Connected(a, clients)) == multiset(Connected(b, clients));
      assert |multiset(Connected(a, clients))| == |multiset(Connected(b, clients))|;
    }
  }

  lemma NoHits(clients: map<SocketAddr, Client>)
    ensures Connected([], clients) == []
  {
  }

  lemma ConnectedStep(front: seq<Hit>, last: Hit, clients: map<SocketAddr, Client>)
    ensures Connected(front + [last], clients) ==
            Connected(front, clients) + if last.sel.ClientAddr() in clients then [last] else []
  {
    assert (front + [last])[..|front|] == front;
  }

  lemma {:induction false} OneBlock(block: seq<Hit>, sel: TableSelector, clients: map<SocketAddr, Client>)
    requires forall i :: 0 <= i < |block| ==> block[i].sel == sel
    ensures Connected(block, clients) == if sel.ClientAddr() in clients then block else []
  {
    hide Connected;
    if block == [] {
      NoHits(clients);
    } else {
      var front, last := block[..|block| - 1], block[|block| - 1];
      OneBlock(front, sel, clients);
      ConnectedStep(front, last, clients);
      assert block == front + [last];
    }
  }

  lemma {:induction false} TakeEachWithin(blocks: seq<seq<Hit>>, limit: nat)
    ensures multiset(Concat(TakeEach(blocks, limit))) <= multiset(Concat(blocks))
  {
    if blocks != [] {
      var last := blocks[|blocks| - 1];
      TakeEachWithin(blocks[..|blocks| - 1], limit);
      assert TakeEach(blocks, limit)[..|blocks| - 1] == TakeEach(blocks[..|blocks| - 1], limit);
      TakeWithin(last, limit);
    }
  }

  lemma TakeWithin<T>(s: seq<T>, limit: nat)
    ensures multiset(Take(s, limit)) <= multiset(s)
    ensures |Take(s, limit)| == Limited(|s|, limit)
  {
    if limit != 0 && limit < |s| {
      assert s == s[..limit] + s[limit..];
    }
  }

  /** The answers of the tables, and how many results they may send. */
  ghost predicate TableAnswers(blocks: seq<seq<Hit>>, sels: seq<TableSelector>,
                               ribs: map<TableSelector, Rib<RouteAttrs>>,
                               query: NetQuery, regex: Option<Regex>) {
    && |blocks| == |sels|
    && forall i :: 0 <= i < |sels| ==> sels[i] in ribs && TableAnswer(blocks[i], sels[i], ribs[sels[i]], query, regex)
  }

  ghost function Total(sels: seq<TableSelector>, ribs: map<TableSelector, Rib<RouteAttrs>>,
                       clients: map<SocketAddr, Client>,
                       query: NetQuery, regex: Option<Regex>, limit: nat): nat
    requires forall i :: 0 <= i < |sels| ==> sels[i] in ribs
  {
    if sels == [] then 0
    else
      var last := sels[|sels| - 1];
      Total(sels[..|sels| - 1], ribs, clients, query, regex, limit)
      + if last.ClientAddr() in clients then Limited(|Matching(ribs[last], query, regex)|, limit) else 0
  }

  lemma {:induction false} SentCount(blocks: seq<seq<Hit>>, sels: seq<TableSelector>,
                                     ribs: map<TableSelector, Rib<RouteAttrs>>,
                                     clients: map<SocketAddr, Client>, query: NetQuery, regex: Option<Regex>,
                                       limit: nat)
    requires TableAnswers(blocks, sels, ribs, query, regex)
    ensures |Connected(Concat(TakeEach(blocks, limit)), clients)| == Total(sels, ribs, clients, query, regex, limit)
  {
    hide TableAnswer, Matching, Connected;
    if sels != [] {
      var n := |sels| - 1;
      SentCount(blocks[..n], sels[..n], ribs, clients, query, regex, limit);
      assert TakeEach(blocks, limit)[..n] == TakeEach(blocks[..n], limit);
      var sent := Take(blocks[n], limit);
      ConnectedAppend(Concat(TakeEach(blocks[..n], limit)), sent, clients);
      BlockCount(blocks[n], sels[n], ribs[sels[n]], clients, query, regex, limit);
    } else {
      NoHits(clients);
    }
  }

  lemma BlockCount(block: seq<Hit>, sel: TableSelector, rib: Rib<RouteAttrs>, clients: map<SocketAddr, Client>,
                   query: NetQuery, regex: Option<Regex>, limit: nat)
    requires TableAnswer(block, sel, rib, query, regex)
    ensures |Connected(Take(block, limit), clients)| ==
            if sel.ClientAddr() in clients then Limited(|Matching(rib, query, regex)|, limit) else 0
  {
    hide Matching, Connected;
    AnswerCount(block, sel, rib, query, regex);
    OneBlock(Take(block, limit), sel, clients);
    TakeWithin(block, limit);
  }

  // ---- The answer --------------------------------------------------------------------------

  /** All matches in the tables of connected clients, each once. */
  ghost predicate FullAnswer(full: seq<Hit>, sels: seq<TableSelector>, ribs: map<TableSelector, Rib<RouteAttrs>>,
                             clients: map<SocketAddr, Client>, query: NetQuery, regex: Option<Regex>) {
    && (forall i, j :: 0 <= i < j < |full| ==> full[i].sel != full[j].sel || Place(full[i]) != Place(full[j]))
    && (forall i :: 0 <= i < |full| ==>
          && full[i].sel in sels && full[i].sel in ribs && full[i].sel.ClientAddr() in clients
          && IsMatch(full[i], ribs[full[i].sel], query, regex))
    && (forall s :: 0 <= s < |sels| && sels[s] in ribs && sels[s].ClientAddr() in clients ==>
          Covered(full, sels[s], Matching(ribs[sels[s]], query, regex)))
  }

  ghost predicate Covered(full: seq<Hit>, sel: TableSelector, places: set<(Key, PathId)>) {
    forall p :: p in places ==> exists i :: 0 <= i < |full| && full[i].sel == sel && Place(full[i]) == p
  }

  ghost predicate NoRepeats<T>(s: seq<T>) {
    forall i, j :: 0 <= i < j < |s| ==> s[i] != s[j]
  }

  lemma FullOneMore(front: seq<Hit>, block: seq<Hit>, sels: seq<TableSelector>,
                    ribs: map<TableSelector, Rib<RouteAttrs>>,
                    clients: map<SocketAddr, Client>, query: NetQuery, regex: Option<Regex>)
    requires sels != [] && NoRepeats(sels)
    requires FullAnswer(front, sels[..|sels| - 1], ribs, clients, query, regex)
    requires var last := sels[|sels| - 1];
             && last in ribs && last.ClientAddr() in clients
             && TableAnswer(block, last, ribs[last], query, regex)
    ensures FullAnswer(front + block, sels, ribs, clients, query, regex)
  {
    hide Place, IsMatch, Matching;
    var n := |sels| - 1;
    var full := front + block;
    forall s | 0 <= s < |sels| && sels[s] in ribs && sels[s].ClientAddr() in clients
      ensures Covered(full, sels[s], Matching(ribs[sels[s]], query, regex))
    {
      forall p | p in Matching(ribs[sels[s]], query, regex)
        ensures exists i :: 0 <= i < |full| && full[i].sel == sels[s] && Place(full[i]) == p
      {
        if s < n {
          assert sels[..n][s] == sels[s];
          assert Covered(front, sels[s], Matching(ribs[sels[s]], query, regex));
          var i :| 0 <= i < |front| && front[i].sel == sels[s] && Place(front[i]) == p;
          assert full[i] == front[i];
        } else {
          var i :| 0 <= i < |block| && Place(block[i]) == p;
          assert full[|front| + i] == block[i];
        }
      }
    }
    hide Covered;
    forall i | 0 <= i < |front|
      ensures front[i].sel != sels[n] && front[i].sel in sels
    {
      var s :| 0 <= s < n && sels[..n][s] == front[i].sel;
      assert sels[s] == front[i].sel;
    }
  }

  /** A table of a client that is not connected adds nothing. */
  lemma FullSkipsOne(front: seq<Hit>, sels: seq<TableSelector>, ribs: map<TableSelector, Rib<RouteAttrs>>,
                     clients: map<SocketAddr, Client>, query: NetQuery, regex: Option<Regex>)
    requires sels != [] && sels[|sels| - 1].ClientAddr() !in clients
    requires FullAnswer(front, sels[..|sels| - 1], ribs, clients, query, regex)
    ensures FullAnswer(front, sels, ribs, clients, query, regex)
  {
    hide Place, IsMatch, Matching, Covered;
    var n := |sels| - 1;
    forall s | 0 <= s < |sels| && sels[s] in ribs && sels[s].ClientAddr() in clients
      ensures Covered(front, sels[s], Matching(ribs[sels[s]], query, regex))
    {
      assert sels[..n][s] == sels[s];
    }
  }

  lemma {:induction false} FullOfBlocks(blocks: seq<seq<Hit>>, sels: seq<TableSelector>,
                                        ribs: map<TableSelector, Rib<RouteAttrs>>,
                                        clients: map<SocketAddr, Client>, query: NetQuery, regex: Option<Regex>)
    requires TableAnswers(blocks, sels, ribs, query, regex) && NoRepeats(sels)
    ensures FullAnswer(Connected(Concat(blocks), clients), sels, ribs, clients, query, regex)
  {
    hide TableAnswer, TableAnswers, Connected, FullAnswer, NoRepeats;
    if sels == [] {
      NoMatches(blocks, ribs, clients, query, regex);
    } else {
      var n := |sels| - 1;
      AnswersFront(blocks, sels, ribs, query, regex);
      FullOfBlocks(blocks[..n], sels[..n], ribs, clients, query, regex);
      assert Concat(blocks) == Concat(blocks[..n]) + blocks[n];
      hide Concat;
      ConnectedAppend(Concat(blocks[..n]), blocks[n], clients);
      var front := Connected(Concat(blocks[..n]), clients);
      BlockConnected(blocks[n], sels[n], ribs[sels[n]], clients, query, regex);
      if sels[n].ClientAddr() in clients {
        FullOneMore(front, blocks[n], sels, ribs, clients, query, regex);
      } else {
        FullSkipsOne(front, sels, ribs, clients, query, regex);
        assert front + [] == front;
      }
    }
  }

  lemma NoMatches(blocks: seq<seq<Hit>>, ribs: map<TableSelector, Rib<RouteAttrs>>, clients: map<SocketAddr, Client>,
                  query: NetQuery, regex: Option<Regex>)
    requires TableAnswers(blocks, [], ribs, query, regex)
    ensures FullAnswer(Connected(Concat(blocks), clients), [], ribs, clients, query, regex)
  {
    NoHits(clients);
  }

  lemma AnswersFront(blocks: seq<seq<Hit>>, sels: seq<TableSelector>, ribs: map<TableSelector, Rib<RouteAttrs>>,
                     query: NetQuery, regex: Option<Regex>)
    requires TableAnswers(blocks, sels, ribs, query, regex) && NoRepeats(sels) && sels != []
    ensures |blocks| == |sels|
    ensures var n := |sels| - 1;
            && TableAnswers(blocks[..n], sels[..n], ribs, query, regex) && NoRepeats(sels[..n])
            && sels[n] in ribs && TableAnswer(blocks[n], sels[n], ribs[sels[n]], query, regex)
  {
    hide TableAnswer;
  }

  lemma BlockConnected(block: seq<Hit>, sel: TableSelector, rib: Rib<RouteAttrs>, clients: map<SocketAddr, Client>,
                       query: NetQuery, regex: Option<Regex>)
    requires TableAnswer(block, sel, rib, query, regex)
    ensures Connected(block, clients) == if sel.ClientAddr() in clients then block else []
  {
    OneBlock(block, sel, clients);
  }

  /** The stream: what arrives, without unconnected clients, up to the limit. */
  function Streamed(arrived: seq<Hit>, clients: map<SocketAddr, Client>, maxResults: nat): seq<Hit> {
    Take(Connected(arrived, clients), maxResults)
  }

  /**
   * Whatever order the tables' results arrive in, the stream is part of the full answer, and
   * its size depends only on the limits and the number of matches in each table.
   */
  lemma StreamIsPartOfAnswer(blocks: seq<seq<Hit>>, arrived: seq<Hit>, sels: seq<TableSelector>,
                             ribs: map<TableSelector, Rib<RouteAttrs>>, clients: map<SocketAddr, Client>,
                             query: NetQuery, regex: Option<Regex>, limits: QueryLimits)
    requires TableAnswers(blocks, sels, ribs, query, regex) && NoRepeats(sels)
    requires multiset(arrived) == multiset(Concat(TakeEach(blocks, limits.maxResultsPerTable)))
    ensures var full := Connected(Concat(blocks), clients);
            var hits := Streamed(arrived, clients, limits.maxResults);
            && FullAnswer(full, sels, ribs, clients, query, regex)
            && multiset(hits) <= multiset(full)
            && |hits| == Limited(Total(sels, ribs, clients, query, regex, limits.maxResultsPerTable), limits.maxResults)
  {
    hide FullAnswer, Connected, TakeEach, Concat, Total, Take;
    FullOfBlocks(blocks, sels, ribs, clients, query, regex);
    var sent := Concat(TakeEach(blocks, limits.maxResultsPerTable));
    TakeEachWithin(blocks, limits.maxResultsPerTable);
    ConnectedAnyOrder(arrived, sent, clients);
    ConnectedAnyOrder(sent, Concat(blocks), clients);
    SentCount(blocks, sels, ribs, clients, query, regex, limits.maxResultsPerTable);
    TakeWithin(Connected(arrived, clients), limits.maxResults);
  }
}
