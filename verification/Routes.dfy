/** Routes, table selectors and queries of the store. */
module Routes {
  import opened Prelude
  import opened NetKey

  type U16 = x: int | 0 <= x < 0x1_0000
  type U32 = x: int | 0 <= x < 0x1_0000_0000

  datatype RouteOrigin = Igp | Egp | Incomplete

  datatype RouteAttrs = RouteAttrs(
    origin: Option<RouteOrigin>,
    asPath: Option<seq<U32>>,
    communities: Option<seq<(U16, U16)>>,
    largeCommunities: Option<seq<(U32, U32, U32)>>,
    med: Option<U32>,
    localPref: Option<U32>,
    nexthop: Option<IpAddr>)

  function DefaultAttrs(): RouteAttrs {
    RouteAttrs(None, None, None, None, None, None, None)
  }

  datatype SocketAddr = SocketAddr(ip: IpAddr, port: U16)

  type RouterId = Octets4

  datatype Id = SessionId(fromClient: SocketAddr, peerAddress: IpAddr)

  datatype RouteState = Seen | Accepted | Active | Selected

  datatype TableSelector =
    | PrePolicyAdjIn(session: Id)
    | PostPolicyAdjIn(session: Id)
    | LocRib(fromClient: SocketAddr, routeState: RouteState)
  {
    ghost predicate FromClient(addr: SocketAddr) {
      || (exists state :: this == LocRib(addr, state))
      || (exists peer :: this == PostPolicyAdjIn(SessionId(addr, peer)))
      || (exists peer :: this == PrePolicyAdjIn(SessionId(addr, peer)))
    }

    function ClientAddr(): (addr: SocketAddr)
      ensures forall a :: FromClient(a) <==> a == addr
    {
      match this
      case LocRib(fromClient, _) => fromClient
      case PostPolicyAdjIn(session) => session.fromClient
      case PrePolicyAdjIn(session) => session.fromClient
    }

    function Session(): (session: Option<Id>)
      ensures forall id :: session == Some(id) <==> this == PostPolicyAdjIn(id) || this == PrePolicyAdjIn(id)
    {
      match this
      case LocRib(_, _) => None
      case PostPolicyAdjIn(session) => Some(session)
      case PrePolicyAdjIn(session) => Some(session)
    }

    function State(): RouteState {
      match this
      case LocRib(_, routeState) => routeState
      case PostPolicyAdjIn(_) => Accepted
      case PrePolicyAdjIn(_) => Seen
    }
  }

  datatype TableQuery =
    | OfTable(sel: TableSelector)
    | OfSession(id: Id)
    | OfClient(addr: SocketAddr)
    | OfRouter(routerId: RouterId)

  /** What is saved of a connected router. */
  datatype Client = Client(clientName: string, routerId: RouterId)

  /** What is saved of a connected peer: nothing yet. */
  datatype PeerSession = PeerSession

  datatype QueryLimits = QueryLimits(maxResultsPerTable: nat, maxResults: nat)

  function DefaultLimits(): QueryLimits {
    QueryLimits(200, 500)
  }

  datatype QueryResult = QueryResult(
    state: RouteState, net: IpNet, table: TableSelector, attrs: RouteAttrs, client: Client,
        session: Option<PeerSession>)
}
