/** The BMP collector of one client: a reader, a task for each peer, and the store they share. */
module BmpCollector {
  import opened Prelude
  import opened Bits
  import opened NetKey
  import opened Routes
  import opened Tables
  import opened BgpUpdates

  // ---- Messages ----------------------------------------------------------------------------

  type U8 = x: int | 0 <= x < 256

  datatype PeerHeader = PeerHeader(peerType: U8, flags: U8, peerAddress: IpAddr)

  /** The second most significant bit: the routes are those after the inbound policy. */
  predicate PostPolicy(flags: U8) {
    flags / 64 % 2 == 1
  }

  function TableSelectorForPeer(client: SocketAddr, peer: PeerHeader): Option<TableSelector> {
    if peer.peerType == 0 && !PostPolicy(peer.flags) then Some(PrePolicyAdjIn(SessionId(client, peer.peerAddress)))
    else if peer.peerType == 0 then Some(PostPolicyAdjIn(SessionId(client, peer.peerAddress)))
    else if peer.peerType == 3 then Some(LocRib(client, Selected))
    else None
  }

  function SessionForPeer(client: SocketAddr, peer: PeerHeader): (id: Option<Id>)
    ensures id == if peer.peerType == 0 then Some(SessionId(client, peer.peerAddress)) else None
  {
    var sel := TableSelectorForPeer(client, peer);
    if sel.Some? then sel.value.Session() else None
  }

  /** The table of a peer, by its type and the bit of weight 64 among its flags. */
  lemma TableOfPeer(client: SocketAddr, peerType: U8, top: nat, policy: nat, low: nat, a: IpAddr)
    requires top < 2 && policy < 2 && low < 64
    ensures var peer := PeerHeader(peerType, 128 * top + 64 * policy + low, a);
            TableSelectorForPeer(client, peer) ==
            match peerType
            case 0 =>
              var id := SessionId(client, a);
              Some(if policy == 1 then PostPolicyAdjIn(id) else PrePolicyAdjIn(id))
            case 3 => Some(LocRib(client, Selected))
            case _ => None
  {
  }

  /** What the reader gets from the stream. */
  datatype Input =
    | Initiation
    | PeerUp(peer: PeerHeader)
    | RouteMonitoring(peer: PeerHeader, update: BgpUpdate)
    | PeerDown(peerAddress: IpAddr)
    | Termination
    | OtherMessage
    | EndOfStream

  /** What a task gets from its channel. */
  datatype Msg = Monitoring(peer: PeerHeader, update: BgpUpdate) | Down

  // ---- The state ---------------------------------------------------------------------------

  const CAPACITY: nat := 16

  /** One `update_route` or `withdraw_route` of a message. */
  datatype RouteOp = RouteOp(sel: TableSelector, at: (Key, PathId), route: Option<RouteAttrs>)

  /**
   * `Applying` has the calls still to make and, once looked up, the table of the first one.
   * `Stopping` has still to remove its session, `Clearing` its tables.
   */
  datatype Phase =
    | Starting
    | Receiving
    | Applying(ops: seq<RouteOp>, table: Option<nat>)
    | Stopping
    | Clearing
    | Done

  /** A peer task; `sent` and `taken` are the history of its channel, `written` of its calls. */
  datatype Task = Task(
    peer: PeerHeader, phase: Phase, queue: seq<Msg>, sent: seq<Msg>, taken: seq<Msg>, written: seq<RouteOp>)

  datatype Reader = AwaitInitiation | AwaitPeerUp | Reading | Sending(task: nat, msg: Msg) | Ended

  /** Tables are shared by reference: a task may still write one that the map has dropped. */
  datatype Shared = Shared(
    clients: set<SocketAddr>, sessions: set<Id>, tables: map<TableSelector, nat>, ribs: seq<Rib<RouteAttrs>>)

  /** `cleanup` counts the parts of `client_down` that have run; `lost` is a send that was cancelled. */
  datatype State = State(
    client: SocketAddr, reader: Reader, cleanup: nat, channels: map<IpAddr, nat>, tasks: seq<Task>,
    lost: Option<(nat, Msg)>, store: Shared)

  function Init(client: SocketAddr, store: Shared): State {
    State(client, AwaitInitiation, 0, map[], [], None, store)
  }

  // ---- Steps -------------------------------------------------------------------------------

  datatype Action =
    | Read(input: Input)
    | Deliver
    | Cancel
    | CleanUp
    | Start(i: nat)
    | Receive(i: nat)
    | HangUp(i: nat)
    | Fetch(i: nat)
    | Write(i: nat)
    | Applied(i: nat)
    | RemoveSession(i: nat)
    | RemoveTables(i: nat)
    | Others(store: Shared)

  predicate InChannels(s: State, i: nat)
    requires i < |s.tasks|
  {
    var a := s.tasks[i].peer.peerAddress;
    a in s.channels && s.channels[a] == i
  }

  predicate SenderAlive(s: State, i: nat)
    requires i < |s.tasks|
  {
    InChannels(s, i) || (s.reader.Sending? && s.reader.task == i)
  }

  /** Other clients and queries change nothing of this client, but may make an empty table. */
  ghost predicate Foreign(client: SocketAddr, s: Shared, s': Shared) {
    && (forall id: Id :: id.fromClient == client ==> (id in s.sessions <==> id in s'.sessions))
    && |s.ribs| <= |s'.ribs|
    && (forall sel :: sel in s'.tables ==> s'.tables[sel] < |s'.ribs|)
    && (forall x, y :: x in s'.tables && y in s'.tables && x != y ==> s'.tables[x] != s'.tables[y])
    && (forall sel :: sel in s'.tables ==>
          s'.tables[sel] >= |s.ribs| || (sel in s.tables && s.tables[sel] == s'.tables[sel]))
    && (forall sel :: sel in s'.tables && sel.ClientAddr() == client ==>
          if sel in s.tables
          then
            && s'.tables[sel] == s.tables[sel] && s.tables[sel] < |s.ribs|
            && s'.ribs[s.tables[sel]] == s.ribs[s.tables[sel]]
          else s'.ribs[s'.tables[sel]] == map[])
  }

  ghost predicate Enabled(s: State, a: Action) {
    match a
    case Read(_) => s.reader.AwaitInitiation? || s.reader.AwaitPeerUp? || s.reader.Reading?
    case Deliver => s.reader.Sending? && s.reader.task < |s.tasks| && |s.tasks[s.reader.task].queue| < CAPACITY
    case Cancel => !s.reader.Ended?
    case CleanUp => s.reader.Ended? && s.cleanup < 3
    case Start(i) => i < |s.tasks| && s.tasks[i].phase.Starting?
    case Receive(i) => i < |s.tasks| && s.tasks[i].phase.Receiving? && s.tasks[i].queue != []
    case HangUp(i) => i < |s.tasks| && s.tasks[i].phase.Receiving? && s.tasks[i].queue == [] && !SenderAlive(s, i)
    case Fetch(i) =>
      i < |s.tasks| && s.tasks[i].phase.Applying? && s.tasks[i].phase.ops != [] && s.tasks[i].phase.table.None?
    case Write(i) =>
      i < |s.tasks| && s.tasks[i].phase.Applying? && s.tasks[i].phase.ops != [] && s.tasks[i].phase.table.Some?
      && s.tasks[i].phase.table.value < |s.store.ribs|
    case Applied(i) => i < |s.tasks| && s.tasks[i].phase.Applying? && s.tasks[i].phase.ops == []
    case RemoveSession(i) => i < |s.tasks| && s.tasks[i].phase.Stopping?
    case RemoveTables(i) => i < |s.tasks| && s.tasks[i].phase.Clearing?
    case Others(store) => Foreign(s.client, s.store, store)
  }

  /** The reader gives up: its future is dropped, and with it all senders. */
  function EndReader(s: State): State {
    s.(reader := Ended, channels := map[],
       lost := if s.reader.Sending? then Some((s.reader.task, s.reader.msg)) else None)
  }

  function Spawn(s: State, peer: PeerHeader): State {
    s.(tasks := s.tasks + [Task(peer, Starting, [], [], [], [])],
       channels := s.channels[peer.peerAddress := |s.tasks|])
  }

  function StartSending(s: State, i: nat, msg: Msg): State
    requires i < |s.tasks|
  {
    s.(reader := Sending(i, msg), tasks := s.tasks[i := s.tasks[i].(sent := s.tasks[i].sent + [msg])])
  }

  /** The dispatch loop. Channels always name a task (`SendersOk`); the guards on that make the function total. */
  function AfterRead(s: State, input: Input): State {
    match s.reader
    case AwaitInitiation => if input.Initiation? then s.(reader := AwaitPeerUp) else EndReader(s)
    case AwaitPeerUp =>
      if input.PeerUp? then s.(reader := Reading, store := s.store.(clients := s.store.clients + {s.client}))
      else EndReader(s)
    case Reading =>
      (match input
       case RouteMonitoring(peer, update) =>
         var s' := if peer.peerAddress in s.channels then s else Spawn(s, peer);
         var i := s'.channels[peer.peerAddress];
         if i < |s'.tasks| then StartSending(s', i, Monitoring(peer, update)) else s'
       case PeerUp(peer) => Spawn(s, peer)
       case PeerDown(a) =>
         if a in s.channels && s.channels[a] < |s.tasks|
         then StartSending(s.(channels := s.channels - {a}), s.channels[a], Down)
         else s
       case Termination => EndReader(s)
       case EndOfStream => EndReader(s)
       case Initiation => s
       case OtherMessage => s)
    case _ => s
  }

  /** The parts of `client_down`, each under its own lock. */
  function AfterCleanUp(client: SocketAddr, cleanup: nat, store: Shared): Shared {
    if cleanup == 0 then store.(clients := store.clients - {client})
    else if cleanup == 1 then store.(sessions := set id | id in store.sessions && id.fromClient != client)
    else store.(tables := map sel | sel in store.tables && sel.ClientAddr() != client :: store.tables[sel])
  }

  function UpdateOps(sel: TableSelector, attrs: RouteAttrs, updates: seq<Announcement>): seq<RouteOp> {
    seq(|updates|, k requires 0 <= k < |updates| =>
      RouteOp(sel, At(updates[k].path), Some(attrs.(nexthop := updates[k].nexthop))))
  }

  function WithdrawOps(sel: TableSelector, withdraws: seq<(PathId, IpNet)>): seq<RouteOp> {
    seq(|withdraws|, k requires 0 <= k < |withdraws| => RouteOp(sel, At(withdraws[k]), None))
  }

  /** The calls that `insert_bgp_update` makes; none for an unknown peer type. */
  function OpsFor(client: SocketAddr, peer: PeerHeader, update: BgpUpdate): seq<RouteOp> {
    var sel := TableSelectorForPeer(client, peer);
    if sel.None? then []
    else
      var g := Gather(update);
      UpdateOps(sel.value, g.attrs, g.updates) + WithdrawOps(sel.value, g.withdraws)
  }

  function ApplyOp(rib: Rib<RouteAttrs>, op: RouteOp): Rib<RouteAttrs> {
    if op.route.Some? then rib[op.at := op.route.value] else rib - {op.at}
  }

  function WithPhase(s: State, i: nat, phase: Phase): State
    requires i < |s.tasks|
  {
    s.(tasks := s.tasks[i := s.tasks[i].(phase := phase)])
  }

  function AfterReceive(s: State, i: nat): State
    requires i < |s.tasks| && s.tasks[i].queue != []
  {
    var t, msg := s.tasks[i], s.tasks[i].queue[0];
    var phase := if msg.Down? then Stopping else Applying(OpsFor(s.client, msg.peer, msg.update), None);
    s.(tasks := s.tasks[i := t.(phase := phase, queue := t.queue[1..], taken := t.taken + [msg])])
  }

  function AfterFetch(s: State, i: nat): State
    requires i < |s.tasks| && s.tasks[i].phase.Applying? && s.tasks[i].phase.ops != []
  {
    var ops := s.tasks[i].phase.ops;
    var sel := ops[0].sel;
    if sel in s.store.tables then WithPhase(s, i, Applying(ops, Some(s.store.tables[sel])))
    else
      var id := |s.store.ribs|;
      WithPhase(s, i, Applying(ops, Some(id))).(
        store := s.store.(tables := s.store.tables[sel := id], ribs := s.store.ribs + [map[]]))
  }

  function AfterWrite(s: State, i: nat): State
    requires i < |s.tasks| && s.tasks[i].phase.Applying? && s.tasks[i].phase.ops != []
    requires s.tasks[i].phase.table.Some? && s.tasks[i].phase.table.value < |s.store.ribs|
  {
    var ops, id := s.tasks[i].phase.ops, s.tasks[i].phase.table.value;
    var t := s.tasks[i].(phase := Applying(ops[1..], None), written := s.tasks[i].written + [ops[0]]);
    s.(tasks := s.tasks[i := t],
       store := s.store.(ribs := s.store.ribs[id := ApplyOp(s.store.ribs[id], ops[0])]))
  }

  function WithSession(s: State, i: nat): Shared
    requires i < |s.tasks|
  {
    var id := SessionForPeer(s.client, s.tasks[i].peer);
    if id.Some? then s.store.(sessions := s.store.sessions + {id.value}) else s.store
  }

  function WithoutItsSession(s: State, i: nat): Shared
    requires i < |s.tasks|
  {
    var id := SessionForPeer(s.client, s.tasks[i].peer);
    if id.Some? then s.store.(sessions := s.store.sessions - {id.value}) else s.store
  }

  function WithoutItsTables(s: State, i: nat): Shared
    requires i < |s.tasks|
  {
    var id := SessionForPeer(s.client, s.tasks[i].peer);
    if id.Some?
    then s.store.(tables := map sel | sel in s.store.tables && sel.Session() != id :: s.store.tables[sel])
    else s.store
  }

  ghost function Next(s: State, a: Action): State
    requires Enabled(s, a)
  {
    match a
    case Read(input) => AfterRead(s, input)
    case Deliver =>
      var i, msg := s.reader.task, s.reader.msg;
      s.(reader := Reading, tasks := s.tasks[i := s.tasks[i].(queue := s.tasks[i].queue + [msg])])
    case Cancel => EndReader(s)
    case CleanUp => s.(cleanup := s.cleanup + 1, store := AfterCleanUp(s.client, s.cleanup, s.store))
    case Start(i) => WithPhase(s, i, Receiving).(store := WithSession(s, i))
    case Receive(i) => AfterReceive(s, i)
    case HangUp(i) => WithPhase(s, i, Stopping)
    case Fetch(i) => AfterFetch(s, i)
    case Write(i) => AfterWrite(s, i)
    case Applied(i) => WithPhase(s, i, Receiving)
    case RemoveSession(i) => WithPhase(s, i, Clearing).(store := WithoutItsSession(s, i))
    case RemoveTables(i) => WithPhase(s, i, Done).(store := WithoutItsTables(s, i))
    case Others(store) => s.(store := store)
  }

  /** `s'` is reached from `s` by these steps, in this order. */
  ghost predicate Runs(s: State, actions: seq<Action>, s': State)
    decreases |actions|
  {
    if actions == [] then s == s'
    else Enabled(s, actions[0]) && Runs(Next(s, actions[0]), actions[1..], s')
  }

  // ---- Channels ----------------------------------------------------------------------------

  /** The task still receives, so its end of the channel is open. */
  predicate Early(phase: Phase) {
    phase.Starting? || phase.Receiving? || phase.Applying?
  }

  /** A message that was sent to a peer task but did not arrive in its queue. */
  function InFlight(s: State, i: nat): seq<Msg> {
    if s.reader.Sending? && s.reader.task == i then [s.reader.msg]
    else if s.lost.Some? && s.lost.value.0 == i then [s.lost.value.1]
    else []
  }

  /** Every sender has a receiver. */
  ghost predicate SendersOk(s: State) {
    && (forall a :: a in s.channels ==> ChannelOk(s, a))
    && (s.reader.Sending? ==>
          && s.reader.task < |s.tasks| && Early(s.tasks[s.reader.task].phase)
          && InChannels(s, s.reader.task) == s.reader.msg.Monitoring?)
    && (s.reader.Ended? ==> s.channels == map[])
    && (!s.reader.Ended? ==> s.lost == None)
  }

  ghost predicate ChannelOk(s: State, a: IpAddr)
    requires a in s.channels
  {
    var i := s.channels[a];
    i < |s.tasks| && s.tasks[i].peer.peerAddress == a && Early(s.tasks[i].phase)
  }

  /** `Down` comes last and only when no other sender is left. */
  ghost predicate DownIsLast(s: State, i: nat)
    requires i < |s.tasks|
  {
    forall k :: 0 <= k < |s.tasks[i].sent| && s.tasks[i].sent[k].Down? ==>
      k == |s.tasks[i].sent| - 1 && !InChannels(s, i)
  }

  ghost predicate TaskOk(s: State, i: nat)
    requires i < |s.tasks|
  {
    var t := s.tasks[i];
    && |t.queue| <= CAPACITY
    && t.sent == t.taken + t.queue + InFlight(s, i)
    && DownIsLast(s, i)
    && (Early(t.phase) ==> forall k :: 0 <= k < |t.taken| ==> !t.taken[k].Down?)
    && (!Early(t.phase) ==> t.queue == [] && !SenderAlive(s, i))
  }

  ghost predicate Transport(s: State) {
    SendersOk(s) && forall i :: 0 <= i < |s.tasks| ==> TaskOk(s, i)
  }

  lemma SpawnTransport(s: State, peer: PeerHeader)
    requires Transport(s) && s.reader.Reading?
    ensures Transport(Spawn(s, peer))
  {
    var s' := Spawn(s, peer);
    forall i | 0 <= i < |s'.tasks|
      ensures TaskOk(s', i)
    {
      if i < |s.tasks| {
        assert TaskOk(s, i);
        assert InChannels(s', i) ==> InChannels(s, i);
      }
    }
    forall a | a in s'.channels
      ensures ChannelOk(s', a)
    {
      if a != peer.peerAddress {
        assert ChannelOk(s, a);
      }
    }
  }

  lemma SendTransport(s: State, i: nat, msg: Msg)
    requires Transport(s) && s.reader.Reading? && i < |s.tasks| && Early(s.tasks[i].phase)
    requires InChannels(s, i) == msg.Monitoring?
    requires forall k :: 0 <= k < |s.tasks[i].sent| ==> !s.tasks[i].sent[k].Down?
    ensures Transport(StartSending(s, i, msg))
  {
    var s' := StartSending(s, i, msg);
    forall j | 0 <= j < |s'.tasks|
      ensures TaskOk(s', j)
    {
      assert TaskOk(s, j);
      assert InChannels(s', j) == InChannels(s, j);
    }
    forall a | a in s'.channels
      ensures ChannelOk(s', a)
    {
      assert ChannelOk(s, a);
    }
  }

  lemma EndTransport(s: State)
    requires Transport(s) && !s.reader.Ended?
    ensures Transport(EndReader(s))
  {
    var s' := EndReader(s);
    forall i | 0 <= i < |s'.tasks|
      ensures TaskOk(s', i)
    {
      assert TaskOk(s, i);
    }
  }

  lemma NoDownYet(s: State, a: IpAddr)
    requires Transport(s) && a in s.channels
    ensures var i := s.channels[a];
            && i < |s.tasks| && InChannels(s, i) && Early(s.tasks[i].phase) && s.tasks[i].peer.peerAddress == a
            && forall k :: 0 <= k < |s.tasks[i].sent| ==> !s.tasks[i].sent[k].Down?
  {
    assert ChannelOk(s, a);
    assert TaskOk(s, s.channels[a]);
  }

  lemma RemoveTransport(s: State, a: IpAddr)
    requires Transport(s) && s.reader.Reading? && a in s.channels
    ensures Transport(s.(channels := s.channels - {a}))
  {
    var s' := s.(channels := s.channels - {a});
    forall i | 0 <= i < |s'.tasks|
      ensures TaskOk(s', i)
    {
      assert TaskOk(s, i);
    }
    forall b | b in s'.channels
      ensures ChannelOk(s', b)
    {
      assert ChannelOk(s, b);
    }
  }

  lemma ReadTransport(s: State, input: Input)
    requires Transport(s) && Enabled(s, Read(input))
    ensures Transport(AfterRead(s, input))
  {
    hide Transport, TaskOk, SendersOk, DownIsLast, Spawn, StartSending, EndReader;
    if !s.reader.Reading? {
      if !(s.reader.AwaitInitiation? && input.Initiation?) && !(s.reader.AwaitPeerUp? && input.PeerUp?) {
        EndTransport(s);
      } else {
        StageTransport(s, AfterRead(s, input));
      }
    } else {
      match input
      case RouteMonitoring(peer, update) =>
        SpawnTransport(s, peer);
        var s' := if peer.peerAddress in s.channels then s else Spawn(s, peer);
        assert s'.reader.Reading? && peer.peerAddress in s'.channels by { SpawnAdds(s, peer); }
        NoDownYet(s', peer.peerAddress);
        SendTransport(s', s'.channels[peer.peerAddress], Monitoring(peer, update));
      case PeerUp(peer) => SpawnTransport(s, peer);
      case PeerDown(a) =>
        if a in s.channels {
          NoDownYet(s, a);
          RemoveTransport(s, a);
          SendTransport(s.(channels := s.channels - {a}), s.channels[a], Down);
        }
      case Termination => EndTransport(s);
      case EndOfStream => EndTransport(s);
      case Initiation =>
      case OtherMessage =>
    }
  }

  lemma SpawnAdds(s: State, peer: PeerHeader)
    ensures Spawn(s, peer).reader == s.reader && peer.peerAddress in Spawn(s, peer).channels
  {
  }

  /** Only the stage of the reader and the store differ. */
  lemma StageTransport(s: State, s': State)
    requires Transport(s) && !s.reader.Sending? && !s.reader.Ended? && !s'.reader.Sending? && !s'.reader.Ended?
    requires s'.(reader := s.reader, store := s.store) == s
    ensures Transport(s')
  {
    forall i | 0 <= i < |s'.tasks|
      ensures TaskOk(s', i)
    {
      assert TaskOk(s, i);
    }
    forall a | a in s'.channels
      ensures ChannelOk(s', a)
    {
      assert ChannelOk(s, a);
    }
  }

  lemma StoreTransport(s: State, store: Shared, cleanup: nat)
    requires Transport(s)
    ensures Transport(s.(store := store, cleanup := cleanup))
  {
    var s' := s.(store := store, cleanup := cleanup);
    forall i | 0 <= i < |s'.tasks|
      ensures TaskOk(s', i)
    {
      assert TaskOk(s, i);
    }
    forall a | a in s'.channels
      ensures ChannelOk(s', a)
    {
      assert ChannelOk(s, a);
    }
  }

  lemma DeliverTransport(s: State)
    requires Transport(s) && Enabled(s, Deliver)
    ensures Transport(Next(s, Deliver))
  {
    var s' := Next(s, Deliver);
    forall i | 0 <= i < |s'.tasks|
      ensures TaskOk(s', i)
    {
      assert TaskOk(s, i);
      assert InChannels(s', i) == InChannels(s, i);
    }
    forall a | a in s'.channels
      ensures ChannelOk(s', a)
    {
      assert ChannelOk(s, a);
    }
  }

  /** One task moves on; what it was sent stays. */
  lemma TaskTransport(s: State, i: nat, t: Task)
    requires Transport(s) && i < |s.tasks| && Early(s.tasks[i].phase)
    requires t.peer == s.tasks[i].peer && t.sent == s.tasks[i].sent && |t.queue| <= |s.tasks[i].queue|
    requires t.taken + t.queue == s.tasks[i].taken + s.tasks[i].queue
    requires Early(t.phase) ==> forall k :: 0 <= k < |t.taken| ==> !t.taken[k].Down?
    requires !Early(t.phase) ==> t.queue == [] && !SenderAlive(s, i)
    ensures Transport(s.(tasks := s.tasks[i := t]))
  {
    var s' := s.(tasks := s.tasks[i := t]);
    forall j | 0 <= j < |s'.tasks|
      ensures TaskOk(s', j)
    {
      assert TaskOk(s, j);
      assert InChannels(s', j) == InChannels(s, j);
    }
    forall a | a in s'.channels
      ensures ChannelOk(s', a)
    {
      assert ChannelOk(s, a);
      assert InChannels(s, s.channels[a]);
    }
  }

  /** A task that has stopped receiving goes on stopping. */
  lemma LateTransport(s: State, i: nat, phase: Phase)
    requires Transport(s) && i < |s.tasks| && !Early(s.tasks[i].phase) && !Early(phase)
    ensures Transport(WithPhase(s, i, phase))
  {
    var s' := WithPhase(s, i, phase);
    forall j | 0 <= j < |s'.tasks|
      ensures TaskOk(s', j)
    {
      assert TaskOk(s, j);
      assert InChannels(s', j) == InChannels(s, j);
    }
    forall a | a in s'.channels
      ensures ChannelOk(s', a)
    {
      assert ChannelOk(s, a);
    }
  }

  lemma ReceiveTransport(s: State, i: nat)
    requires Transport(s) && Enabled(s, Receive(i))
    ensures Transport(AfterReceive(s, i))
  {
    hide OpsFor, Transport;
    var t, t' := s.tasks[i], AfterReceive(s, i).tasks[i];
    assert TaskOk(s, i) by { TransportAt(s, i); }
    var msg := t.queue[0];
    assert t.queue == [msg] + t.queue[1..];
    assert t'.taken + t'.queue == t.taken + t.queue;
    if msg.Down? {
      assert t.sent[|t.taken|] == msg;
      assert !SenderAlive(s, i) by { DownEnds(s, i); }
    }
    TaskTransport(s, i, t');
  }

  lemma TransportAt(s: State, i: nat)
    requires Transport(s) && i < |s.tasks|
    ensures TaskOk(s, i)
  {
  }

  /** Behind `Down` the channel is empty and closed. */
  lemma DownEnds(s: State, i: nat)
    requires Transport(s) && i < |s.tasks| && s.tasks[i].queue != [] && s.tasks[i].queue[0].Down?
    ensures |s.tasks[i].queue| == 1 && !SenderAlive(s, i)
  {
    var t := s.tasks[i];
    assert TaskOk(s, i);
    assert t.sent[|t.taken|] == t.queue[0];
    assert InFlight(s, i) == [];
  }

  lemma TransportKept(s: State, a: Action)
    requires Transport(s) && Enabled(s, a)
    ensures Transport(Next(s, a))
  {
    hide Transport, TaskOk, SendersOk, InFlight, AfterReceive, AfterRead, EndReader, OpsFor, Foreign;
    hide WithSession, WithoutItsSession, WithoutItsTables, AfterCleanUp, ApplyOp;
    match a
    case Read(input) => ReadTransport(s, input);
    case Deliver => DeliverTransport(s);
    case Cancel => EndTransport(s);
    case CleanUp => StoreTransport(s, AfterCleanUp(s.client, s.cleanup, s.store), s.cleanup + 1);
    case Start(i) =>
      PhaseTransport(s, i, Receiving);
      StoreTransport(WithPhase(s, i, Receiving), WithSession(s, i), s.cleanup);
    case Receive(i) => ReceiveTransport(s, i);
    case HangUp(i) =>
      TransportAt(s, i);
      TaskTransport(s, i, s.tasks[i].(phase := Stopping));
    case Fetch(i) =>
      PhaseTransport(s, i, AfterFetch(s, i).tasks[i].phase);
      StoreTransport(WithPhase(s, i, AfterFetch(s, i).tasks[i].phase), AfterFetch(s, i).store, s.cleanup);
    case Write(i) =>
      TransportAt(s, i);
      TaskTransport(s, i, AfterWrite(s, i).tasks[i]);
      StoreTransport(s.(tasks := AfterWrite(s, i).tasks), AfterWrite(s, i).store, s.cleanup);
    case Applied(i) => PhaseTransport(s, i, Receiving);
    case RemoveSession(i) =>
      LateTransport(s, i, Clearing);
      StoreTransport(WithPhase(s, i, Clearing), WithoutItsSession(s, i), s.cleanup);
    case RemoveTables(i) =>
      LateTransport(s, i, Done);
      StoreTransport(WithPhase(s, i, Done), WithoutItsTables(s, i), s.cleanup);
    case Others(store) => StoreTransport(s, store, s.cleanup);
  }

  /** A task that goes on receiving. */
  lemma PhaseTransport(s: State, i: nat, phase: Phase)
    requires Transport(s) && i < |s.tasks| && Early(s.tasks[i].phase) && Early(phase)
    ensures Transport(WithPhase(s, i, phase))
  {
    assert TaskOk(s, i);
    TaskTransport(s, i, s.tasks[i].(phase := phase));
  }

  // ---- The calls a task makes --------------------------------------------------------------

  /** The calls for all messages, in order. */
  function AllOps(client: SocketAddr, msgs: seq<Msg>): seq<RouteOp> {
    if msgs == [] then []
    else
      var last := msgs[|msgs| - 1];
      AllOps(client, msgs[..|msgs| - 1]) + if last.Down? then [] else OpsFor(client, last.peer, last.update)
  }

  /** What is written and what is still to write are the calls for the messages taken. */
  ghost predicate Writes(client: SocketAddr, t: Task) {
    t.written + (if t.phase.Applying? then t.phase.ops else []) == AllOps(client, t.taken)
  }

  ghost predicate AllWrite(s: State) {
    forall i :: 0 <= i < |s.tasks| ==> Writes(s.client, s.tasks[i])
  }

  lemma WritesKept(s: State, a: Action)
    requires AllWrite(s) && Enabled(s, a)
    ensures AllWrite(Next(s, a))
  {
    hide AllOps, OpsFor, Foreign, WithSession, WithoutItsSession, WithoutItsTables, AfterCleanUp, ApplyOp;
    var s' := Next(s, a);
    forall i | 0 <= i < |s'.tasks|
      ensures Writes(s'.client, s'.tasks[i])
    {
      if i < |s.tasks| {
        assert Writes(s.client, s.tasks[i]);
        WriteStep(s, a, i);
      } else {
        NoOps(s.client);
      }
    }
  }

  lemma NoOps(client: SocketAddr)
    ensures AllOps(client, []) == []
  {
  }

  /** A step that leaves the calls of a task alone. */
  ghost predicate SameCalls(t: Task, t': Task) {
    && t'.taken == t.taken && t'.written == t.written
    && (if t'.phase.Applying? then t'.phase.ops else []) == (if t.phase.Applying? then t.phase.ops else [])
  }

  lemma ReadKeepsCalls(s: State, input: Input, i: nat)
    requires i < |s.tasks|
    ensures AfterRead(s, input).client == s.client && i < |AfterRead(s, input).tasks|
    ensures SameCalls(s.tasks[i], AfterRead(s, input).tasks[i])
  {
  }

  lemma StepKeepsCalls(s: State, a: Action, i: nat)
    requires Enabled(s, a) && i < |s.tasks| && a != Receive(i) && a != Write(i)
    ensures Next(s, a).client == s.client && i < |Next(s, a).tasks|
    ensures SameCalls(s.tasks[i], Next(s, a).tasks[i])
  {
    hide AfterRead, OpsFor, Foreign, WithSession, WithoutItsSession, WithoutItsTables, AfterCleanUp, ApplyOp;
    if a.Read? {
      ReadKeepsCalls(s, a.input, i);
    }
  }

  lemma WriteStep(s: State, a: Action, i: nat)
    requires Enabled(s, a) && i < |s.tasks| && Writes(s.client, s.tasks[i])
    ensures Next(s, a).client == s.client && i < |Next(s, a).tasks|
    ensures Writes(s.client, Next(s, a).tasks[i])
  {
    hide AllOps, OpsFor, ApplyOp;
    var t := s.tasks[i];
    if a == Receive(i) {
      AllOpsOneMore(s.client, t.taken, t.queue[0]);
    } else if a == Write(i) {
      assert t.written + t.phase.ops == t.written + [t.phase.ops[0]] + t.phase.ops[1..];
    } else {
      hide Next, Enabled;
      StepKeepsCalls(s, a, i);
    }
  }

  lemma AllOpsOneMore(client: SocketAddr, msgs: seq<Msg>, msg: Msg)
    ensures AllOps(client, msgs + [msg]) ==
            AllOps(client, msgs) + if msg.Down? then [] else OpsFor(client, msg.peer, msg.update)
  {
    hide OpsFor;
    assert (msgs + [msg])[..|msgs|] == msgs;
  }

  function ApplyOps(rib: Rib<RouteAttrs>, ops: seq<RouteOp>): Rib<RouteAttrs> {
    if ops == [] then rib else ApplyOp(ApplyOps(rib, ops[..|ops| - 1]), ops[|ops| - 1])
  }

  lemma {:induction false} ApplyOpsAppend(rib: Rib<RouteAttrs>, a: seq<RouteOp>, b: seq<RouteOp>)
    ensures ApplyOps(rib, a + b) == ApplyOps(ApplyOps(rib, a), b)
  {
    hide ApplyOp;
    if b == [] {
      assert a + b == a;
    } else {
      ApplyOpsAppend(rib, a, b[..|b| - 1]);
      assert (a + b)[..|a + b| - 1] == a + b[..|b| - 1];
    }
  }

  lemma {:induction false} UpdateOpsAnnounce(rib: Rib<RouteAttrs>, sel: TableSelector, attrs: RouteAttrs,
                                             updates: seq<Announcement>)
    ensures ApplyOps(rib, UpdateOps(sel, attrs, updates)) == Announce(rib, attrs, updates)
  {
    hide At;
    if updates != [] {
      var front := updates[..|updates| - 1];
      UpdateOpsAnnounce(rib, sel, attrs, front);
      assert UpdateOps(sel, attrs, updates)[..|front|] == UpdateOps(sel, attrs, front);
    }
  }

  lemma {:induction false} WithdrawOpsWithdraw(rib: Rib<RouteAttrs>, sel: TableSelector,
                                               withdraws: seq<(PathId, IpNet)>)
    ensures ApplyOps(rib, WithdrawOps(sel, withdraws)) == Withdraw(rib, withdraws)
  {
    hide At;
    if withdraws != [] {
      var front := withdraws[..|withdraws| - 1];
      WithdrawOpsWithdraw(rib, sel, front);
      assert WithdrawOps(sel, withdraws)[..|front|] == WithdrawOps(sel, front);
    }
  }

  /** The calls for one message, made without interruption, are the whole update. */
  lemma OpsAreTheUpdate(rib: Rib<RouteAttrs>, client: SocketAddr, peer: PeerHeader, update: BgpUpdate)
    requires TableSelectorForPeer(client, peer).Some?
    ensures ApplyOps(rib, OpsFor(client, peer, update)) == AfterUpdate(rib, update)
  {
    hide Gather, ApplyOps, UpdateOps, WithdrawOps, Announce, Withdraw;
    var sel, g := TableSelectorForPeer(client, peer).value, Gather(update);
    UpdateOpsAnnounce(rib, sel, g.attrs, g.updates);
    WithdrawOpsWithdraw(Announce(rib, g.attrs, g.updates), sel, g.withdraws);
    ApplyOpsAppend(rib, UpdateOps(sel, g.attrs, g.updates), WithdrawOps(sel, g.withdraws));
  }

  // ---- Tables that tasks have looked up ----------------------------------------------------

  ghost predicate IdsInRange(store: Shared) {
    forall sel :: sel in store.tables ==> store.tables[sel] < |store.ribs|
  }

  /** A task that has looked up a table has a call to make and a table to make it on. */
  ghost predicate CanWrite(store: Shared, phase: Phase) {
    phase.Applying? && phase.table.Some? ==> phase.ops != [] && phase.table.value < |store.ribs|
  }

  ghost predicate LookedUp(s: State) {
    && IdsInRange(s.store)
    && forall i :: 0 <= i < |s.tasks| ==> CanWrite(s.store, s.tasks[i].phase)
  }

  lemma ReadKeepsLookedUp(s: State, input: Input)
    requires LookedUp(s)
    ensures LookedUp(AfterRead(s, input))
  {
    var s' := AfterRead(s, input);
    assert |s.tasks| <= |s'.tasks| && s'.store.ribs == s.store.ribs && s'.store.tables == s.store.tables;
    forall i | 0 <= i < |s'.tasks|
      ensures CanWrite(s'.store, s'.tasks[i].phase)
    {
      if i < |s.tasks| {
        assert CanWrite(s.store, s.tasks[i].phase);
        assert s'.tasks[i].phase == s.tasks[i].phase;
      }
    }
  }

  lemma LookedUpKept(s: State, a: Action)
    requires LookedUp(s) && Enabled(s, a)
    ensures LookedUp(Next(s, a))
  {
    if a.Read? {
      ReadKeepsLookedUp(s, a.input);
    } else {
      hide AfterRead, OpsFor, ApplyOp;
      var s' := Next(s, a);
      forall i | 0 <= i < |s'.tasks|
        ensures CanWrite(s'.store, s'.tasks[i].phase)
      {
        assert CanWrite(s.store, s.tasks[i].phase);
      }
    }
  }

  // ---- Whole runs --------------------------------------------------------------------------

  lemma {:induction false} RunsKeepTransport(s: State, actions: seq<Action>, s': State)
    requires Transport(s) && Runs(s, actions, s')
    ensures Transport(s')
    decreases |actions|
  {
    hide Transport, Next, Enabled;
    if actions != [] {
      TransportKept(s, actions[0]);
      RunsKeepTransport(Next(s, actions[0]), actions[1..], s');
    }
  }

  lemma {:induction false} RunsKeepLookedUp(s: State, actions: seq<Action>, s': State)
    requires LookedUp(s) && Runs(s, actions, s')
    ensures LookedUp(s')
    decreases |actions|
  {
    hide LookedUp, Next, Enabled;
    if actions != [] {
      LookedUpKept(s, actions[0]);
      RunsKeepLookedUp(Next(s, actions[0]), actions[1..], s');
    }
  }

  lemma {:induction false} RunsKeepWrites(s: State, actions: seq<Action>, s': State)
    requires AllWrite(s) && Runs(s, actions, s')
    ensures AllWrite(s')
    decreases |actions|
  {
    hide AllWrite, Next, Enabled;
    if actions != [] {
      WritesKept(s, actions[0]);
      RunsKeepWrites(Next(s, actions[0]), actions[1..], s');
    }
  }

  lemma ClientKept(s: State, actions: seq<Action>, s': State)
    requires Runs(s, actions, s')
    ensures s'.client == s.client
    decreases |actions|
  {
    if actions != [] {
      ClientKept(Next(s, actions[0]), actions[1..], s');
    }
  }

  /** On every run each sender the reader holds has a task that still receives: no send can fail. */
  lemma SendsSucceed(client: SocketAddr, store: Shared, actions: seq<Action>, s: State, a: IpAddr)
    requires Runs(Init(client, store), actions, s)
    ensures a in s.channels ==> s.channels[a] < |s.tasks| && Early(s.tasks[s.channels[a]].phase)
    ensures s.reader.Sending? ==> s.reader.task < |s.tasks| && Early(s.tasks[s.reader.task].phase)
  {
    RunsKeepTransport(Init(client, store), actions, s);
    if a in s.channels {
      assert ChannelOk(s, a);
    }
  }

  /** On every run a reader that waits for room waits for a task that can make a step. */
  lemma BlockedReaderHasRunningTask(client: SocketAddr, store: Shared, actions: seq<Action>, s: State)
    requires IdsInRange(store) && Runs(Init(client, store), actions, s)
    requires s.reader.Sending? && !Enabled(s, Deliver)
    ensures s.reader.task < |s.tasks| && |s.tasks[s.reader.task].queue| == 16
    ensures var i := s.reader.task;
            || Enabled(s, Start(i)) || Enabled(s, Receive(i))
            || Enabled(s, Fetch(i)) || Enabled(s, Write(i)) || Enabled(s, Applied(i))
  {
    var s0 := Init(client, store);
    RunsKeepTransport(s0, actions, s);
    RunsKeepLookedUp(s0, actions, s);
    assert CanWrite(s.store, s.tasks[s.reader.task].phase) && TaskOk(s, s.reader.task);
  }

  /**
   * On every run queues are bounded, a task takes what it is sent in order and once, and makes the
   * calls for what it takes in order and once. When it is done it has made all calls for all it was
   * sent, unless the reader was stopped in the middle of a send to it.
   */
  lemma TasksApplyInOrder(client: SocketAddr, store: Shared, actions: seq<Action>, s: State, i: nat)
    requires Runs(Init(client, store), actions, s) && i < |s.tasks|
    ensures |s.tasks[i].queue| <= 16
    ensures s.tasks[i].taken + s.tasks[i].queue <= s.tasks[i].sent
    ensures s.tasks[i].written <= AllOps(client, s.tasks[i].taken)
    ensures s.tasks[i].phase.Done? && !(s.lost.Some? && s.lost.value.0 == i) ==>
              s.tasks[i].taken == s.tasks[i].sent && s.tasks[i].written == AllOps(client, s.tasks[i].sent)
  {
    hide AllOps;
    var s0 := Init(client, store);
    RunsKeepTransport(s0, actions, s);
    RunsKeepWrites(s0, actions, s);
    ClientKept(s0, actions, s);
    assert TaskOk(s, i) && Writes(client, s.tasks[i]);
  }
}
