/** What a BGP update message does to a table. */
module BgpUpdates {
  import opened Prelude
  import opened Bits
  import opened NetKey
  import opened Routes
  import opened Tables

  // ---- Messages ----------------------------------------------------------------------------

  datatype BgpAddrs =
    | Ipv4UnicastPaths(paths4: seq<(PathId, Octets4, nat)>)
    | Ipv6UnicastPaths(paths6: seq<(PathId, Octets16, nat)>)
    | Ipv4Unicast(nets4: seq<(Octets4, nat)>)
    | Ipv6Unicast(nets6: seq<(Octets16, nat)>)
    | OtherAddrs

  datatype BgpAddr = NextHop4(v4: Octets4) | NextHop6(v6: Octets16) | OtherNextHop

  datatype BgpAttr =
    | MpUpdates(nexthop: BgpAddr, updated: BgpAddrs)
    | MpWithdraws(withdrawn: BgpAddrs)
    | NextHop(addr: IpAddr)
    | CommunityList(communities: seq<U32>)
    | Med(med: U32)
    | LocalPref(localPref: U32)
    | Origin(origin: RouteOrigin)
    | AsPath(asns: seq<U32>)
    | LargeCommunityList(largeCommunities: seq<(U32, U32, U32)>)
    | OtherAttr

  datatype BgpUpdate = BgpUpdate(attrs: seq<BgpAttr>, updates: BgpAddrs, withdraws: BgpAddrs)

  /** A prefix length that does not fit the address family makes no network. */
  function MakeNet(addr: IpAddr, prefixLen: nat): Option<IpNet> {
    if prefixLen <= Width(addr.IsIpv6()) then Some(AddrAndLen(addr, prefixLen)) else None
  }

  function ValidNets(nlri: seq<(PathId, IpAddr, nat)>): seq<(PathId, IpNet)> {
    if nlri == [] then []
    else
      var (id, addr, len) := nlri[|nlri| - 1];
      var net := MakeNet(addr, len);
      ValidNets(nlri[..|nlri| - 1]) + if net.Some? then [(id, net.value)] else []
  }

  function Nlri(addrs: BgpAddrs): seq<(PathId, IpAddr, nat)> {
    match addrs
    case Ipv4UnicastPaths(s) => seq(|s|, i requires 0 <= i < |s| => (s[i].0, V4(s[i].1), s[i].2))
    case Ipv6UnicastPaths(s) => seq(|s|, i requires 0 <= i < |s| => (s[i].0, V6(s[i].1), s[i].2))
    case Ipv4Unicast(s) => seq(|s|, i requires 0 <= i < |s| => (0, V4(s[i].0), s[i].1))
    case Ipv6Unicast(s) => seq(|s|, i requires 0 <= i < |s| => (0, V6(s[i].0), s[i].1))
    case OtherAddrs => []
  }

  /** `bgp_addrs_to_nets`. */
  function AddrsToNets(addrs: BgpAddrs): seq<(PathId, IpNet)> {
    ValidNets(Nlri(addrs))
  }

  function NextHopAddr(nexthop: BgpAddr): Option<IpAddr> {
    match nexthop
    case NextHop4(v4) => Some(V4(v4))
    case NextHop6(v6) => Some(V6(v6))
    case OtherNextHop => None
  }

  /** Positions in a list of `n` entries, in increasing order. */
  ghost predicate Positions(picks: seq<nat>, n: nat) {
    && (forall i :: 0 <= i < |picks| ==> picks[i] < n)
    && forall i, j :: 0 <= i < j < |picks| ==> picks[i] < picks[j]
  }

  /** The network with its path id is made of these parts. */
  ghost predicate MadeOf(net: (PathId, IpNet), id: PathId, addr: IpAddr, len: nat) {
    net.0 == id && net.1.addr == addr && net.1.prefixLen == len
  }

  lemma {:induction false} ValidNetsAre(nlri: seq<(PathId, IpAddr, nat)>) returns (picks: seq<nat>)
    ensures var nets := ValidNets(nlri);
            && |picks| == |nets| && Positions(picks, |nlri|)
            && (forall i :: 0 <= i < |nets| ==>
                  MadeOf(nets[i], nlri[picks[i]].0, nlri[picks[i]].1, nlri[picks[i]].2))
    ensures forall j :: 0 <= j < |nlri| ==> (j in picks <==> nlri[j].2 <= Width(nlri[j].1.IsIpv6()))
  {
    picks := [];
    if nlri != [] {
      var last := |nlri| - 1;
      var shorter := nlri[..last];
      picks := ValidNetsAre(shorter);
      var front, nets := picks, ValidNets(nlri);
      if nlri[last].2 <= Width(nlri[last].1.IsIpv6()) {
        picks := front + [last];
      }
      hide ValidNets;
      forall i | 0 <= i < |nets|
        ensures MadeOf(nets[i], nlri[picks[i]].0, nlri[picks[i]].1, nlri[picks[i]].2)
      {
        if i < |front| {
          assert nlri[picks[i]] == shorter[front[i]];
        }
      }
      forall j | 0 <= j < |nlri|
        ensures j in picks <==> nlri[j].2 <= Width(nlri[j].1.IsIpv6())
      {
        if j < last {
          assert nlri[j] == shorter[j];
        }
      }
    }
  }

  /**
   * The networks of a list are those of its entries whose length fits the address, in the order of
   * the list, with the path id of the entry, or 0 in the families without one.
   */
  lemma AddrsToNetsAre(addrs: BgpAddrs) returns (picks: seq<nat>)
    ensures |picks| == |AddrsToNets(addrs)|
    ensures var nets := AddrsToNets(addrs);
            match addrs
            case Ipv4UnicastPaths(s) =>
              && Positions(picks, |s|) && (forall j :: 0 <= j < |s| ==> (j in picks <==> s[j].2 <= 32))
              && forall i :: 0 <= i < |nets| ==>
                   MadeOf(nets[i], s[picks[i]].0, V4(s[picks[i]].1), s[picks[i]].2)
            case Ipv6UnicastPaths(s) =>
              && Positions(picks, |s|) && (forall j :: 0 <= j < |s| ==> (j in picks <==> s[j].2 <= 128))
              && forall i :: 0 <= i < |nets| ==>
                   MadeOf(nets[i], s[picks[i]].0, V6(s[picks[i]].1), s[picks[i]].2)
            case Ipv4Unicast(s) =>
              && Positions(picks, |s|) && (forall j :: 0 <= j < |s| ==> (j in picks <==> s[j].1 <= 32))
              && forall i :: 0 <= i < |nets| ==> MadeOf(nets[i], 0, V4(s[picks[i]].0), s[picks[i]].1)
            case Ipv6Unicast(s) =>
              && Positions(picks, |s|) && (forall j :: 0 <= j < |s| ==> (j in picks <==> s[j].1 <= 128))
              && forall i :: 0 <= i < |nets| ==> MadeOf(nets[i], 0, V6(s[picks[i]].0), s[picks[i]].1)
            case OtherAddrs => nets == []
  {
    picks := ValidNetsAre(Nlri(addrs));
    var nlri := Nlri(addrs);
    assert forall j :: 0 <= j < |nlri| ==> (j in picks <==> nlri[j].2 <= Width(nlri[j].1.IsIpv6()));
    hide ValidNets;
  }

  /** Of a family with path ids, the network of an entry has the entry's id; of the others, id 0. */
  lemma NetIsListed(addrs: BgpAddrs, id: PathId, net: IpNet)
    ensures (id, net) in AddrsToNets(addrs) <==>
            match addrs
            case Ipv4UnicastPaths(s) =>
              net.addr.V4? && net.prefixLen <= 32 && (id, net.addr.octets4, net.prefixLen) in s
            case Ipv6UnicastPaths(s) =>
              net.addr.V6? && net.prefixLen <= 128 && (id, net.addr.octets16, net.prefixLen) in s
            case Ipv4Unicast(s) =>
              id == 0 && net.addr.V4? && net.prefixLen <= 32 && (net.addr.octets4, net.prefixLen) in s
            case Ipv6Unicast(s) =>
              id == 0 && net.addr.V6? && net.prefixLen <= 128 && (net.addr.octets16, net.prefixLen) in s
            case OtherAddrs => false
  {
    var nets := AddrsToNets(addrs);
    var picks := AddrsToNetsAre(addrs);
    hide AddrsToNets;
    if (id, net) in nets {
      var i :| 0 <= i < |nets| && nets[i] == (id, net);
    }
    match addrs {
      case Ipv4UnicastPaths(s) =>
        if j :| 0 <= j < |s| && net.addr.V4? && s[j] == (id, net.addr.octets4, net.prefixLen) {
          var i :| 0 <= i < |picks| && picks[i] == j;
          assert nets[i] == (id, net);
        }
      case Ipv6UnicastPaths(s) =>
        if j :| 0 <= j < |s| && net.addr.V6? && s[j] == (id, net.addr.octets16, net.prefixLen) {
          var i :| 0 <= i < |picks| && picks[i] == j;
          assert nets[i] == (id, net);
        }
      case Ipv4Unicast(s) =>
        if j :| 0 <= j < |s| && id == 0 && net.addr.V4? && s[j] == (net.addr.octets4, net.prefixLen) {
          var i :| 0 <= i < |picks| && picks[i] == j;
          assert nets[i] == (id, net);
        }
      case Ipv6Unicast(s) =>
        if j :| 0 <= j < |s| && id == 0 && net.addr.V6? && s[j] == (net.addr.octets16, net.prefixLen) {
          var i :| 0 <= i < |picks| && picks[i] == j;
          assert nets[i] == (id, net);
        }
      case OtherAddrs =>
    }
  }

  /** Only an IPv4 or IPv6 next hop is one, and it is kept as it is. */
  lemma NextHopIs(nexthop: BgpAddr, addr: IpAddr)
    ensures NextHopAddr(nexthop) == Some(addr) <==>
            nexthop == if addr.V4? then NextHop4(addr.octets4) else NextHop6(addr.octets16)
  {
  }

  /** High and low half of a community. */
  function Halves(community: U32): (U16, U16) {
    (community / 0x1_0000, community % 0x1_0000)
  }

  function AllHalves(list: seq<U32>): (r: seq<(U16, U16)>)
    ensures |r| == |list| && forall i :: 0 <= i < |r| ==> r[i].0 as int * 0x1_0000 + r[i].1 as int == list[i] as int
  {
    seq(|list|, i requires 0 <= i < |list| => Halves(list[i]))
  }

  method SplitCommunities(list: seq<U32>) returns (communities: seq<(U16, U16)>)
    ensures communities == AllHalves(list)
  {
    communities := [];
    for i := 0 to |list|
      invariant communities == AllHalves(list[..i])
    {
      communities := communities + [Halves(list[i])];
    }
    assert list[..|list|] == list;
  }

  // ---- Gathering the attributes ------------------------------------------------------------

  /** A path announced with its next hop. */
  datatype Announcement = Announcement(path: (PathId, IpNet), nexthop: Option<IpAddr>)

  function At(path: (PathId, IpNet)): (Key, PathId) {
    (ToKey(path.1), path.0)
  }

  function WithNextHop(paths: seq<(PathId, IpNet)>, nexthop: Option<IpAddr>): seq<Announcement> {
    seq(|paths|, i requires 0 <= i < |paths| => Announcement(paths[i], nexthop))
  }

  datatype Gathered = Gathered(
    attrs: RouteAttrs, nexthop: Option<IpAddr>, updates: seq<Announcement>, withdraws: seq<(PathId, IpNet)>)

  function Step(g: Gathered, attr: BgpAttr): Gathered {
    match attr
    case MpUpdates(nexthop, addrs) =>
      g.(updates := g.updates + WithNextHop(AddrsToNets(addrs), NextHopAddr(nexthop)))
    case MpWithdraws(addrs) => g.(withdraws := g.withdraws + AddrsToNets(addrs))
    case NextHop(addr) => g.(nexthop := Some(addr))
    case CommunityList(list) => g.(attrs := g.attrs.(communities := Some(AllHalves(list))))
    case Med(value) => g.(attrs := g.attrs.(med := Some(value)))
    case LocalPref(value) => g.(attrs := g.attrs.(localPref := Some(value)))
    case Origin(value) => g.(attrs := g.attrs.(origin := Some(value)))
    case AsPath(asns) => g.(attrs := g.attrs.(asPath := Some(asns)))
    case LargeCommunityList(list) => g.(attrs := g.attrs.(largeCommunities := Some(list)))
    case OtherAttr => g
  }

  function GatherAttrs(attrs: seq<BgpAttr>): Gathered {
    if attrs == [] then Gathered(DefaultAttrs(), None, [], [])
    else Step(GatherAttrs(attrs[..|attrs| - 1]), attrs[|attrs| - 1])
  }

  /** The plain lists of the message come after those of its attributes. */
  function Gather(update: BgpUpdate): Gathered {
    var g := GatherAttrs(update.attrs);
    g.(updates := g.updates + WithNextHop(AddrsToNets(update.updates), g.nexthop),
       withdraws := g.withdraws + AddrsToNets(update.withdraws))
  }

  function Announce(rib: Rib<RouteAttrs>, attrs: RouteAttrs, updates: seq<Announcement>): Rib<RouteAttrs> {
    if updates == [] then rib
    else
      var last := updates[|updates| - 1];
      Announce(rib, attrs, updates[..|updates| - 1])[At(last.path) := attrs.(nexthop := last.nexthop)]
  }

  function Withdraw(rib: Rib<RouteAttrs>, withdraws: seq<(PathId, IpNet)>): Rib<RouteAttrs> {
    if withdraws == [] then rib
    else Withdraw(rib, withdraws[..|withdraws| - 1]) - {At(withdraws[|withdraws| - 1])}
  }

  /** Announcements first, then withdrawals. */
  function AfterUpdate(rib: Rib<RouteAttrs>, update: BgpUpdate): Rib<RouteAttrs> {
    var g := Gather(update);
    Withdraw(Announce(rib, g.attrs, g.updates), g.withdraws)
  }

  // ---- The effect of a message, path by path -------------------------------------------------

  ghost predicate AnnouncedBy(attr: BgpAttr, u: Announcement) {
    attr.MpUpdates? && u.nexthop == NextHopAddr(attr.nexthop) && u.path in AddrsToNets(attr.updated)
  }

  ghost predicate WithdrawnBy(attr: BgpAttr, w: (PathId, IpNet)) {
    attr.MpWithdraws? && w in AddrsToNets(attr.withdrawn)
  }

  ghost predicate AnnouncedIn(attrs: seq<BgpAttr>, u: Announcement) {
    exists i :: 0 <= i < |attrs| && AnnouncedBy(attrs[i], u)
  }

  ghost predicate WithdrawnIn(attrs: seq<BgpAttr>, w: (PathId, IpNet)) {
    exists i :: 0 <= i < |attrs| && WithdrawnBy(attrs[i], w)
  }

  lemma InWithNextHop(paths: seq<(PathId, IpNet)>, nexthop: Option<IpAddr>, u: Announcement)
    ensures u in WithNextHop(paths, nexthop) <==> u.path in paths && u.nexthop == nexthop
  {
    if u.path in paths && u.nexthop == nexthop {
      var i :| 0 <= i < |paths| && paths[i] == u.path;
      assert WithNextHop(paths, nexthop)[i] == u;
    }
  }

  lemma {:induction false} GatheredPaths(attrs: seq<BgpAttr>, u: Announcement, w: (PathId, IpNet))
    ensures u in GatherAttrs(attrs).updates <==> AnnouncedIn(attrs, u)
    ensures w in GatherAttrs(attrs).withdraws <==> WithdrawnIn(attrs, w)
  {
    hide AllHalves, AddrsToNets, WithNextHop, NextHopAddr;
    if attrs != [] {
      var front, last := attrs[..|attrs| - 1], attrs[|attrs| - 1];
      GatheredPaths(front, u, w);
      assert GatherAttrs(attrs) == Step(GatherAttrs(front), last);
      hide GatherAttrs;
      if last.MpUpdates? {
        InWithNextHop(AddrsToNets(last.updated), NextHopAddr(last.nexthop), u);
      }
      assert AnnouncedIn(attrs, u) <==> AnnouncedIn(front, u) || AnnouncedBy(last, u);
      assert WithdrawnIn(attrs, w) <==> WithdrawnIn(front, w) || WithdrawnBy(last, w);
    }
  }

  ghost predicate Lists(paths: seq<(PathId, IpNet)>, p: (Key, PathId)) {
    exists i :: 0 <= i < |paths| && At(paths[i]) == p
  }

  /** The attribute announces the path. */
  ghost predicate Reaches(attr: BgpAttr, p: (Key, PathId)) {
    attr.MpUpdates? && Lists(AddrsToNets(attr.updated), p)
  }

  /** The attribute withdraws the path. */
  ghost predicate Unreaches(attr: BgpAttr, p: (Key, PathId)) {
    attr.MpWithdraws? && Lists(AddrsToNets(attr.withdrawn), p)
  }

  /** The plain list of the message announces the path. */
  ghost predicate Plain(update: BgpUpdate, p: (Key, PathId)) {
    Lists(AddrsToNets(update.updates), p)
  }

  ghost predicate Withdrawn(update: BgpUpdate, p: (Key, PathId)) {
    || Lists(AddrsToNets(update.withdraws), p)
    || exists i :: 0 <= i < |update.attrs| && Unreaches(update.attrs[i], p)
  }

  ghost predicate LastToReach(attrs: seq<BgpAttr>, p: (Key, PathId), i: nat) {
    i < |attrs| && Reaches(attrs[i], p) && forall k :: i < k < |attrs| ==> !Reaches(attrs[k], p)
  }

  /** The last announcement of a path. */
  ghost function LastFor(updates: seq<Announcement>, p: (Key, PathId)): (last: Option<Announcement>)
    ensures last.Some? ==> last.value in updates && At(last.value.path) == p
    ensures last.None? ==> forall i :: 0 <= i < |updates| ==> At(updates[i].path) != p
  {
    if updates == [] then None
    else if At(updates[|updates| - 1].path) == p then Some(updates[|updates| - 1])
    else LastFor(updates[..|updates| - 1], p)
  }

  lemma {:induction false} AnnounceAt(rib: Rib<RouteAttrs>, attrs: RouteAttrs, updates: seq<Announcement>,
                                      p: (Key, PathId))
    ensures Get(Announce(rib, attrs, updates), p) ==
            match LastFor(updates, p)
            case None => Get(rib, p)
            case Some(u) => Some(attrs.(nexthop := u.nexthop))
  {
    hide At;
    if updates != [] {
      AnnounceAt(rib, attrs, updates[..|updates| - 1], p);
    }
  }

  lemma {:induction false} WithdrawAt(rib: Rib<RouteAttrs>, withdraws: seq<(PathId, IpNet)>, p: (Key, PathId))
    ensures Get(Withdraw(rib, withdraws), p) == if Lists(withdraws, p) then None else Get(rib, p)
  {
    hide At;
    if withdraws != [] {
      var front := withdraws[..|withdraws| - 1];
      WithdrawAt(rib, front, p);
      assert Lists(withdraws, p) <==> Lists(front, p) || At(withdraws[|withdraws| - 1]) == p;
    }
  }

  /** Paths that are announced later come first. */
  lemma {:induction false} LastForPaths(before: seq<Announcement>, paths: seq<(PathId, IpNet)>,
                                        nexthop: Option<IpAddr>, p: (Key, PathId))
    ensures var last := LastFor(before + WithNextHop(paths, nexthop), p);
            if Lists(paths, p) then last.Some? && last.value.nexthop == nexthop else last == LastFor(before, p)
  {
    hide At;
    if paths == [] {
      assert before + WithNextHop(paths, nexthop) == before;
    } else {
      var front := paths[..|paths| - 1];
      var all := before + WithNextHop(paths, nexthop);
      LastForPaths(before, front, nexthop, p);
      assert all[..|all| - 1] == before + WithNextHop(front, nexthop);
      assert Lists(paths, p) <==> Lists(front, p) || At(paths[|paths| - 1]) == p;
    }
  }

  lemma {:induction false} LastForReach(attrs: seq<BgpAttr>, p: (Key, PathId), i: nat)
    requires LastToReach(attrs, p, i)
    ensures var last := LastFor(GatherAttrs(attrs).updates, p);
            last.Some? && last.value.nexthop == NextHopAddr(attrs[i].nexthop)
  {
    hide AddrsToNets, WithNextHop, NextHopAddr, Lists, LastFor, AllHalves;
    var front, last := attrs[..|attrs| - 1], attrs[|attrs| - 1];
    var g := GatherAttrs(front);
    if i < |attrs| - 1 {
      LastForReach(front, p, i);
    }
    if last.MpUpdates? {
      LastForPaths(g.updates, AddrsToNets(last.updated), NextHopAddr(last.nexthop), p);
    }
  }

  lemma {:induction false} LastForNone(attrs: seq<BgpAttr>, p: (Key, PathId))
    requires forall i :: 0 <= i < |attrs| ==> !Reaches(attrs[i], p)
    ensures LastFor(GatherAttrs(attrs).updates, p) == None
  {
    hide AddrsToNets, WithNextHop, NextHopAddr, Lists, AllHalves;
    if attrs != [] {
      var front, last := attrs[..|attrs| - 1], attrs[|attrs| - 1];
      LastForNone(front, p);
      if last.MpUpdates? {
        LastForPaths(GatherAttrs(front).updates, AddrsToNets(last.updated), NextHopAddr(last.nexthop), p);
      }
    }
  }

  lemma GatheredWithdraws(update: BgpUpdate, p: (Key, PathId))
    ensures Lists(Gather(update).withdraws, p) <==> Withdrawn(update, p)
  {
    hide AddrsToNets, WithNextHop, At, GatherAttrs;
    var g := GatherAttrs(update.attrs);
    var all := Gather(update).withdraws;
    if Lists(all, p) {
      var i :| 0 <= i < |all| && At(all[i]) == p;
      if i < |g.withdraws| {
        GatheredPaths(update.attrs, Announcement(all[i], None), all[i]);
        var k :| 0 <= k < |update.attrs| && WithdrawnBy(update.attrs[k], all[i]);
        assert Unreaches(update.attrs[k], p);
      } else {
        assert At(AddrsToNets(update.withdraws)[i - |g.withdraws|]) == p;
      }
    }
    if exists k :: 0 <= k < |update.attrs| && Unreaches(update.attrs[k], p) {
      var k :| 0 <= k < |update.attrs| && Unreaches(update.attrs[k], p);
      var nets := AddrsToNets(update.attrs[k].withdrawn);
      var i :| 0 <= i < |nets| && At(nets[i]) == p;
      assert WithdrawnBy(update.attrs[k], nets[i]);
      GatheredPaths(update.attrs, Announcement(nets[i], None), nets[i]);
      var j :| 0 <= j < |g.withdraws| && g.withdraws[j] == nets[i];
      assert At(all[j]) == p;
    }
    if Lists(AddrsToNets(update.withdraws), p) {
      var i :| 0 <= i < |AddrsToNets(update.withdraws)| && At(AddrsToNets(update.withdraws)[i]) == p;
      assert At(all[|g.withdraws| + i]) == p;
    }
  }

  lemma RouteAfter(rib: Rib<RouteAttrs>, update: BgpUpdate, p: (Key, PathId))
    ensures Get(AfterUpdate(rib, update), p) ==
            if Withdrawn(update, p) then None
            else match LastFor(Gather(update).updates, p)
                 case None => Get(rib, p)
                 case Some(u) => Some(GatherAttrs(update.attrs).attrs.(nexthop := u.nexthop))
  {
    var g := Gather(update);
    assert g.attrs == GatherAttrs(update.attrs).attrs;
    hide Announce, Withdraw, LastFor, At, GatherAttrs, Gather, Lists, Withdrawn;
    AnnounceAt(rib, g.attrs, g.updates, p);
    WithdrawAt(Announce(rib, g.attrs, g.updates), g.withdraws, p);
    GatheredWithdraws(update, p);
  }

  /**
   * The whole effect of a message: a withdrawn path is gone; one of the plain list has the next hop
   * of the message; one of the attributes has the next hop of the last that lists it; others stay.
   */
  lemma AfterUpdateAt(rib: Rib<RouteAttrs>, update: BgpUpdate, p: (Key, PathId))
    ensures Withdrawn(update, p) ==> Get(AfterUpdate(rib, update), p) == None
    ensures !Withdrawn(update, p) && Plain(update, p) ==>
              var g := GatherAttrs(update.attrs);
              Get(AfterUpdate(rib, update), p) == Some(g.attrs.(nexthop := g.nexthop))
    ensures forall i: nat :: !Withdrawn(update, p) && !Plain(update, p) && LastToReach(update.attrs, p, i) ==>
              Get(AfterUpdate(rib, update), p) ==
              Some(GatherAttrs(update.attrs).attrs.(nexthop := NextHopAddr(update.attrs[i].nexthop)))
    ensures !Withdrawn(update, p) && !Plain(update, p) &&
            (forall i :: 0 <= i < |update.attrs| ==> !Reaches(update.attrs[i], p)) ==>
              Get(AfterUpdate(rib, update), p) == Get(rib, p)
  {
    hide AfterUpdate, LastFor, AddrsToNets, WithNextHop, GatherAttrs, Lists, Withdrawn, NextHopAddr;
    var g := GatherAttrs(update.attrs);
    RouteAfter(rib, update, p);
    LastForPaths(g.updates, AddrsToNets(update.updates), g.nexthop, p);
    if forall i :: 0 <= i < |update.attrs| ==> !Reaches(update.attrs[i], p) {
      LastForNone(update.attrs, p);
    }
    forall i: nat | LastToReach(update.attrs, p, i)
      ensures LastFor(g.updates, p).Some?
      ensures LastFor(g.updates, p).value.nexthop == NextHopAddr(update.attrs[i].nexthop)
    {
      LastForReach(update.attrs, p, i);
    }
  }

  // ---- The fields of the message -----------------------------------------------------------

  /** The attributes that say one thing of the whole message, by the field they set. */
  datatype Field =
    | NextHopField
    | CommunityField
    | MedField
    | LocalPrefField
    | OriginField
    | AsPathField
    | LargeCommunityField

  function FieldOf(attr: BgpAttr): Option<Field> {
    match attr
    case NextHop(_) => Some(NextHopField)
    case CommunityList(_) => Some(CommunityField)
    case Med(_) => Some(MedField)
    case LocalPref(_) => Some(LocalPrefField)
    case Origin(_) => Some(OriginField)
    case AsPath(_) => Some(AsPathField)
    case LargeCommunityList(_) => Some(LargeCommunityField)
    case _ => None
  }

  /** The last attribute for each field that has one. */
  ghost function LastOf(attrs: seq<BgpAttr>): (last: map<Field, BgpAttr>)
    ensures forall f :: f in last ==> last[f] in attrs && FieldOf(last[f]) == Some(f)
    ensures forall f :: f !in last ==> forall i :: 0 <= i < |attrs| ==> FieldOf(attrs[i]) != Some(f)
  {
    if attrs == [] then map[]
    else
      var last := attrs[|attrs| - 1];
      var front := LastOf(attrs[..|attrs| - 1]);
      if FieldOf(last).Some? then front[FieldOf(last).value := last] else front
  }

  ghost predicate LastToSet(attrs: seq<BgpAttr>, f: Field, i: nat) {
    i < |attrs| && FieldOf(attrs[i]) == Some(f) && forall k :: i < k < |attrs| ==> FieldOf(attrs[k]) != Some(f)
  }

  lemma {:induction false} LastToSetIsLast(attrs: seq<BgpAttr>, f: Field, i: nat)
    requires LastToSet(attrs, f, i)
    ensures Get(LastOf(attrs), f) == Some(attrs[i])
  {
    if i < |attrs| - 1 {
      LastToSetIsLast(attrs[..|attrs| - 1], f, i);
    }
  }

  /** A field as its attribute, if there is one, sets it. */
  ghost predicate FieldIs(setter: Option<BgpAttr>, g: Gathered, f: Field) {
    match f
    case NextHopField => g.nexthop == (match setter case Some(NextHop(v)) => Some(v) case _ => None)
    case OriginField => g.attrs.origin == (match setter case Some(Origin(v)) => Some(v) case _ => None)
    case AsPathField => g.attrs.asPath == (match setter case Some(AsPath(v)) => Some(v) case _ => None)
    case CommunityField =>
      g.attrs.communities == (match setter case Some(CommunityList(v)) => Some(AllHalves(v)) case _ => None)
    case LargeCommunityField =>
      g.attrs.largeCommunities == (match setter case Some(LargeCommunityList(v)) => Some(v) case _ => None)
    case MedField => g.attrs.med == (match setter case Some(Med(v)) => Some(v) case _ => None)
    case LocalPrefField => g.attrs.localPref == (match setter case Some(LocalPref(v)) => Some(v) case _ => None)
  }

  ghost predicate FieldsAre(last: map<Field, BgpAttr>, g: Gathered) {
    && (forall f :: FieldIs(Get(last, f), g, f))
    && g.attrs.nexthop == None
  }

  lemma StepField(last: map<Field, BgpAttr>, g: Gathered, attr: BgpAttr, f: Field)
    requires FieldIs(Get(last, f), g, f)
    ensures var after := if FieldOf(attr).Some? then last[FieldOf(attr).value := attr] else last;
            FieldIs(Get(after, f), Step(g, attr), f)
    ensures Step(g, attr).attrs.nexthop == g.attrs.nexthop
  {
    hide AllHalves, AddrsToNets, WithNextHop;
  }

  lemma {:induction false} GatheredFields(attrs: seq<BgpAttr>)
    ensures FieldsAre(LastOf(attrs), GatherAttrs(attrs))
  {
    if attrs != [] {
      var front, last := attrs[..|attrs| - 1], attrs[|attrs| - 1];
      GatheredFields(front);
      hide Step, FieldIs;
      forall f
        ensures FieldIs(Get(LastOf(attrs), f), GatherAttrs(attrs), f)
      {
        StepField(LastOf(front), GatherAttrs(front), last, f);
      }
      StepField(LastOf(front), GatherAttrs(front), last, NextHopField);
    }
  }

  /** A route carries what an attribute of its message says. */
  ghost predicate Carries(route: RouteAttrs, attr: BgpAttr) {
    match attr
    case NextHop(addr) => route.nexthop == Some(addr)
    case CommunityList(list) => route.communities == Some(AllHalves(list))
    case Med(value) => route.med == Some(value)
    case LocalPref(value) => route.localPref == Some(value)
    case Origin(value) => route.origin == Some(value)
    case AsPath(asns) => route.asPath == Some(asns)
    case LargeCommunityList(list) => route.largeCommunities == Some(list)
    case _ => true
  }

  lemma GatheredCarries(attrs: seq<BgpAttr>, f: Field, j: nat)
    requires LastToSet(attrs, f, j)
    ensures var g := GatherAttrs(attrs); Carries(g.attrs.(nexthop := g.nexthop), attrs[j])
  {
    hide LastOf, AllHalves, GatherAttrs;
    GatheredFields(attrs);
    LastToSetIsLast(attrs, f, j);
    assert FieldIs(Get(LastOf(attrs), f), GatherAttrs(attrs), f);
  }

  /** One list of communities only is split into the given halves. */
  lemma HalvesJoin(a: seq<U32>, b: seq<U32>)
    requires AllHalves(a) == AllHalves(b)
    ensures a == b
  {
    var halves := AllHalves(a);
    assert |a| == |b| == |halves|;
    forall i | 0 <= i < |a|
      ensures a[i] == b[i]
    {
      assert halves[i].0 as int * 0x1_0000 + halves[i].1 as int == a[i] as int;
      assert halves[i].0 as int * 0x1_0000 + halves[i].1 as int == b[i] as int;
    }
  }

  /** A route tells the attribute of a field that it carries. */
  lemma CarriesOne(route: RouteAttrs, a: BgpAttr, b: BgpAttr)
    requires FieldOf(a).Some? && FieldOf(a) == FieldOf(b)
    requires Carries(route, a) && Carries(route, b)
    ensures a == b
  {
    hide AllHalves;
    if a.CommunityList? {
      HalvesJoin(a.communities, b.communities);
    }
  }

  /**
   * A prefix of an `MP_REACH_NLRI` attribute keeps that attribute's next hop, unless a later one
   * lists it too, and the other attributes reach it wherever they are listed.
   */
  lemma MpPrefixKeepsNextHop(rib: Rib<RouteAttrs>, update: BgpUpdate, p: (Key, PathId), i: nat, f: Field, j: nat)
    requires !Withdrawn(update, p) && !Plain(update, p)
    requires LastToReach(update.attrs, p, i) && LastToSet(update.attrs, f, j)
    ensures var route := Get(AfterUpdate(rib, update), p);
            && route.Some? && route.value.nexthop == NextHopAddr(update.attrs[i].nexthop)
            && (f.NextHopField? || Carries(route.value, update.attrs[j]))
  {
    hide AfterUpdate, GatherAttrs, Withdrawn, Plain, Reaches, AllHalves, NextHopAddr;
    AfterUpdateAt(rib, update, p);
    GatheredCarries(update.attrs, f, j);
  }

  /** The plain prefixes take the `NEXT_HOP` attribute, even if an `MP_REACH_NLRI` lists them too. */
  lemma PlainPrefixTakesNextHop(rib: Rib<RouteAttrs>, update: BgpUpdate, p: (Key, PathId), f: Field, j: nat)
    requires !Withdrawn(update, p) && Plain(update, p) && LastToSet(update.attrs, f, j)
    ensures var route := Get(AfterUpdate(rib, update), p);
            route.Some? && Carries(route.value, update.attrs[j])
  {
    hide AfterUpdate, GatherAttrs, Withdrawn, Plain, Reaches, Carries, NextHopAddr;
    AfterUpdateAt(rib, update, p);
    GatheredCarries(update.attrs, f, j);
  }

  // ---- When the order of the attributes does not matter ------------------------------------

  /** The same attributes, in any order. */
  ghost predicate SameAttrs(a: seq<BgpAttr>, b: seq<BgpAttr>) {
    && (forall i :: 0 <= i < |a| ==> a[i] in b)
    && (forall j :: 0 <= j < |b| ==> b[j] in a)
  }

  lemma PermutationIsSameAttrs(a: seq<BgpAttr>, b: seq<BgpAttr>)
    requires multiset(a) == multiset(b)
    ensures SameAttrs(a, b)
  {
    assert forall i :: 0 <= i < |a| ==> a[i] in multiset(a);
    assert forall j :: 0 <= j < |b| ==> b[j] in multiset(b);
  }

  /** A message with its attributes in another order. */
  ghost predicate Reordered(a: BgpUpdate, b: BgpUpdate) {
    multiset(a.attrs) == multiset(b.attrs) && a.updates == b.updates && a.withdraws == b.withdraws
  }

  /** The path stays and is announced. */
  ghost predicate Stays(update: BgpUpdate, p: (Key, PathId)) {
    && !Withdrawn(update, p)
    && (Plain(update, p) || exists i :: 0 <= i < |update.attrs| && Reaches(update.attrs[i], p))
  }

  /** A path that stays takes the field: only those of the plain list take the next hop of the message. */
  ghost predicate Takes(update: BgpUpdate, f: Field, p: (Key, PathId)) {
    Stays(update, p) && (f.NextHopField? ==> Plain(update, p))
  }

  /** The field is not given two values. */
  ghost predicate FieldSettled(attrs: seq<BgpAttr>, f: Field) {
    forall i, j :: 0 <= i < |attrs| && 0 <= j < |attrs| && FieldOf(attrs[i]) == Some(f) == FieldOf(attrs[j]) ==>
      attrs[i] == attrs[j]
  }

  /** The attributes do not give the path two next hops. */
  ghost predicate NextHopSettled(attrs: seq<BgpAttr>, p: (Key, PathId)) {
    forall i, j :: 0 <= i < |attrs| && 0 <= j < |attrs| && Reaches(attrs[i], p) && Reaches(attrs[j], p) ==>
      NextHopAddr(attrs[i].nexthop) == NextHopAddr(attrs[j].nexthop)
  }

  /**
   * Each path that stays is told one thing: no field that it takes is given two values and, if the
   * plain list does not have it, its attributes agree on its next hop.
   */
  ghost predicate Unambiguous(update: BgpUpdate) {
    && (forall f, p :: Takes(update, f, p) ==> FieldSettled(update.attrs, f))
    && (forall p :: Stays(update, p) && !Plain(update, p) ==> NextHopSettled(update.attrs, p))
  }

  lemma ReorderedPath(a: BgpUpdate, b: BgpUpdate, p: (Key, PathId))
    requires Reordered(a, b)
    ensures Plain(a, p) <==> Plain(b, p)
    ensures Withdrawn(a, p) <==> Withdrawn(b, p)
    ensures Stays(a, p) <==> Stays(b, p)
  {
    hide Lists, AddrsToNets, Reaches, Unreaches;
    PermutationIsSameAttrs(a.attrs, b.attrs);
  }

  lemma SameLast(a: seq<BgpAttr>, b: seq<BgpAttr>, f: Field)
    requires SameAttrs(a, b) && FieldSettled(a, f)
    ensures Get(LastOf(a), f) == Get(LastOf(b), f)
  {
    hide LastOf, FieldOf;
    if f in LastOf(b) {
      var j :| 0 <= j < |b| && b[j] == LastOf(b)[f];
      assert b[j] in a;
    }
    if f in LastOf(a) {
      var i :| 0 <= i < |a| && a[i] == LastOf(a)[f];
      assert a[i] in b;
    }
  }

  lemma SameField(a: seq<BgpAttr>, b: seq<BgpAttr>, f: Field)
    requires SameAttrs(a, b) && FieldSettled(a, f)
    ensures exists setter ::
              FieldIs(setter, GatherAttrs(a), f) && FieldIs(setter, GatherAttrs(b), f)
  {
    hide GatherAttrs, LastOf, FieldIs, FieldSettled, SameAttrs;
    SameLast(a, b, f);
    GatheredFields(a);
    GatheredFields(b);
    assert FieldIs(Get(LastOf(a), f), GatherAttrs(a), f);
  }

  lemma SameFields(a: seq<BgpAttr>, b: seq<BgpAttr>)
    requires SameAttrs(a, b) && forall f: Field :: f.NextHopField? || FieldSettled(a, f)
    ensures GatherAttrs(a).attrs == GatherAttrs(b).attrs
  {
    hide GatherAttrs, AllHalves, FieldSettled, SameAttrs;
    GatheredFields(a);
    GatheredFields(b);
    SameField(a, b, OriginField);
    SameField(a, b, AsPathField);
    SameField(a, b, CommunityField);
    SameField(a, b, LargeCommunityField);
    SameField(a, b, MedField);
    SameField(a, b, LocalPrefField);
  }

  lemma LastReachExists(attrs: seq<BgpAttr>, p: (Key, PathId), i: nat) returns (last: nat)
    requires i < |attrs| && Reaches(attrs[i], p)
    ensures LastToReach(attrs, p, last)
    decreases |attrs| - i
  {
    hide Reaches;
    if k :| i < k < |attrs| && Reaches(attrs[k], p) {
      last := LastReachExists(attrs, p, k);
    } else {
      last := i;
    }
  }

  lemma ReorderedAt(rib: Rib<RouteAttrs>, a: BgpUpdate, b: BgpUpdate, p: (Key, PathId))
    requires Unambiguous(a) && Reordered(a, b)
    ensures Get(AfterUpdate(rib, a), p) == Get(AfterUpdate(rib, b), p)
  {
    hide AfterUpdate, Withdrawn, Plain, Reaches, GatherAttrs, FieldSettled, SameAttrs, NextHopAddr;
    ReorderedPath(a, b, p);
    PermutationIsSameAttrs(a.attrs, b.attrs);
    AfterUpdateAt(rib, a, p);
    AfterUpdateAt(rib, b, p);
    if Stays(a, p) {
      assert forall f: Field :: f.NextHopField? || Takes(a, f, p);
      SameFields(a.attrs, b.attrs);
      if Plain(a, p) {
        assert Takes(a, NextHopField, p);
        SameField(a.attrs, b.attrs, NextHopField);
      } else {
        SameReach(a, b, p);
      }
    } else {
      assert Withdrawn(a, p) || forall i :: 0 <= i < |b.attrs| ==> !Reaches(b.attrs[i], p);
    }
  }

  lemma SameReach(a: BgpUpdate, b: BgpUpdate, p: (Key, PathId))
    requires Reordered(a, b) && NextHopSettled(a.attrs, p) && Stays(a, p) && !Plain(a, p)
    ensures exists i: nat, j: nat :: LastToReach(a.attrs, p, i) && LastToReach(b.attrs, p, j) &&
                                     NextHopAddr(a.attrs[i].nexthop) == NextHopAddr(b.attrs[j].nexthop)
  {
    hide Reaches, Withdrawn, Plain, NextHopAddr;
    PermutationIsSameAttrs(a.attrs, b.attrs);
    var i :| 0 <= i < |a.attrs| && Reaches(a.attrs[i], p);
    hide Reordered, Stays;
    var j :| 0 <= j < |b.attrs| && b.attrs[j] == a.attrs[i];
    var m := LastReachExists(a.attrs, p, i);
    var n := LastReachExists(b.attrs, p, j);
    var k :| 0 <= k < |a.attrs| && a.attrs[k] == b.attrs[n];
    assert LastToReach(a.attrs, p, m) && LastToReach(b.attrs, p, n);
  }

  function MovedLast(attrs: seq<BgpAttr>, i: nat): (moved: seq<BgpAttr>)
    requires i < |attrs|
    ensures |moved| == |attrs| && moved[|moved| - 1] == attrs[i]
  {
    attrs[..i] + attrs[i + 1..] + [attrs[i]]
  }

  lemma MovedIsReordered(update: BgpUpdate, i: nat)
    requires i < |update.attrs|
    ensures Reordered(update, update.(attrs := MovedLast(update.attrs, i)))
  {
    assert update.attrs == update.attrs[..i] + [update.attrs[i]] + update.attrs[i + 1..];
  }

  /** The attribute moved to the end gives its next hop to each path that it announces. */
  lemma LastNextHopWins(rib: Rib<RouteAttrs>, update: BgpUpdate, i: nat, p: (Key, PathId))
    requires i < |update.attrs| && Reaches(update.attrs[i], p)
    requires !Withdrawn(update, p) && !Plain(update, p)
    ensures var route := Get(AfterUpdate(rib, update.(attrs := MovedLast(update.attrs, i))), p);
            route.Some? && route.value.nexthop == NextHopAddr(update.attrs[i].nexthop)
  {
    hide AfterUpdate, Withdrawn, Plain, Reaches, GatherAttrs, NextHopAddr, MovedLast;
    MovedIsReordered(update, i);
    var moved := update.(attrs := MovedLast(update.attrs, i));
    ReorderedPath(update, moved, p);
    AfterUpdateAt(rib, moved, p);
    assert LastToReach(moved.attrs, p, |moved.attrs| - 1);
  }

  /** The attribute moved to the end gives its value to each path that takes it. */
  lemma LastValueWins(rib: Rib<RouteAttrs>, update: BgpUpdate, i: nat, f: Field, p: (Key, PathId))
    requires i < |update.attrs| && FieldOf(update.attrs[i]) == Some(f) && Takes(update, f, p)
    ensures var route := Get(AfterUpdate(rib, update.(attrs := MovedLast(update.attrs, i))), p);
            route.Some? && Carries(route.value, update.attrs[i])
  {
    hide AfterUpdate, Withdrawn, Plain, Reaches, Carries, MovedLast, NextHopAddr;
    MovedIsReordered(update, i);
    var moved := update.(attrs := MovedLast(update.attrs, i));
    ReorderedPath(update, moved, p);
    assert LastToSet(moved.attrs, f, |moved.attrs| - 1);
    if Plain(moved, p) {
      PlainPrefixTakesNextHop(rib, moved, p, f, |moved.attrs| - 1);
    } else {
      var k :| 0 <= k < |moved.attrs| && Reaches(moved.attrs[k], p);
      var last := LastReachExists(moved.attrs, p, k);
      MpPrefixKeepsNextHop(rib, moved, p, last, f, |moved.attrs| - 1);
    }
  }

  /** Every order of the attributes gives the table the same content. */
  ghost predicate OrderIsForgotten(rib: Rib<RouteAttrs>, a: BgpUpdate) {
    forall b :: Reordered(a, b) ==> AfterUpdate(rib, a) == AfterUpdate(rib, b)
  }

  lemma MovedGivesSame(rib: Rib<RouteAttrs>, a: BgpUpdate, i: nat)
    requires OrderIsForgotten(rib, a) && i < |a.attrs|
    ensures AfterUpdate(rib, a.(attrs := MovedLast(a.attrs, i))) == AfterUpdate(rib, a)
  {
    hide AfterUpdate, Reordered, MovedLast;
    MovedIsReordered(a, i);
  }

  lemma ForgottenSettlesField(rib: Rib<RouteAttrs>, a: BgpUpdate, f: Field, p: (Key, PathId))
    requires OrderIsForgotten(rib, a) && Takes(a, f, p)
    ensures FieldSettled(a.attrs, f)
  {
    hide AfterUpdate, Takes, Carries, FieldOf, OrderIsForgotten, MovedLast;
    var route := Get(AfterUpdate(rib, a), p);
    forall i, j | 0 <= i < |a.attrs| && 0 <= j < |a.attrs| && FieldOf(a.attrs[i]) == Some(f) == FieldOf(a.attrs[j])
      ensures a.attrs[i] == a.attrs[j]
    {
      MovedGivesSame(rib, a, i);
      MovedGivesSame(rib, a, j);
      LastValueWins(rib, a, i, f, p);
      LastValueWins(rib, a, j, f, p);
      CarriesOne(route.value, a.attrs[i], a.attrs[j]);
    }
  }

  lemma ForgottenSettlesNextHop(rib: Rib<RouteAttrs>, a: BgpUpdate, p: (Key, PathId))
    requires OrderIsForgotten(rib, a) && !Withdrawn(a, p) && !Plain(a, p)
    ensures NextHopSettled(a.attrs, p)
  {
    hide AfterUpdate, Withdrawn, Plain, Lists, OrderIsForgotten, NextHopAddr, MovedLast;
    forall i, j | 0 <= i < |a.attrs| && 0 <= j < |a.attrs| && Reaches(a.attrs[i], p) && Reaches(a.attrs[j], p)
      ensures NextHopAddr(a.attrs[i].nexthop) == NextHopAddr(a.attrs[j].nexthop)
    {
      MovedGivesSame(rib, a, i);
      MovedGivesSame(rib, a, j);
      LastNextHopWins(rib, a, i, p);
      LastNextHopWins(rib, a, j, p);
    }
  }

  lemma SameMap<K, V>(m: map<K, V>, n: map<K, V>)
    requires forall k :: Get(m, k) == Get(n, k)
    ensures m == n
  {
    forall k
      ensures k in m <==> k in n
      ensures k in m && k in n ==> m[k] == n[k]
    {
      assert Get(m, k) == Get(n, k);
    }
  }

  lemma StaysIsNotWithdrawn(a: BgpUpdate, p: (Key, PathId))
    requires Stays(a, p)
    ensures !Withdrawn(a, p)
  {
  }

  /** The order of the attributes does not matter, for any table, exactly if no path is told two things. */
  lemma AttributeOrderIsForgotten(rib: Rib<RouteAttrs>, a: BgpUpdate)
    ensures OrderIsForgotten(rib, a) <==> Unambiguous(a)
  {
    hide AfterUpdate, Reordered, Takes, Stays, Plain, FieldSettled, NextHopSettled;
    if Unambiguous(a) {
      forall b | Reordered(a, b)
        ensures AfterUpdate(rib, a) == AfterUpdate(rib, b)
      {
        forall p
          ensures Get(AfterUpdate(rib, a), p) == Get(AfterUpdate(rib, b), p)
        {
          ReorderedAt(rib, a, b, p);
        }
        SameMap(AfterUpdate(rib, a), AfterUpdate(rib, b));
      }
    }
    if OrderIsForgotten(rib, a) {
      forall f, p | Takes(a, f, p)
        ensures FieldSettled(a.attrs, f)
      {
        ForgottenSettlesField(rib, a, f, p);
      }
      forall p | Stays(a, p) && !Plain(a, p)
        ensures NextHopSettled(a.attrs, p)
      {
        StaysIsNotWithdrawn(a, p);
        ForgottenSettlesNextHop(rib, a, p);
      }
    }
  }
}
