/** What the peer tasks of a BMP client leave in the shared store. */
module BmpCleanUp {
  import opened Prelude
  import opened Bits
  import opened NetKey
  import opened Routes
  import opened Tables
  import opened TableMaps
  import opened BgpUpdates
  import opened Stores
  import opened BmpCollector

  // ---- Devices -----------------------------------------------------------------------------

  /** The messages about peers that a device may send. */
  type Device = iset<Input>

  ghost predicate Sends(device: Device, a: Action) {
    a.Read? && (a.input.PeerUp? || a.input.RouteMonitoring?) ==> a.input in device
  }

  /** The device may start a task with this header. */
  ghost predicate FromDevice(device: Device, peer: PeerHeader) {
    PeerUp(peer) in device || exists update :: RouteMonitoring(peer, update) in device
  }

  /**
   * If a device may send an update for an Adj-RIB-In and another message that starts a task of
   * another peer type for the same address, then the update leaves nothing in an empty table.
   */
  ghost predicate Harmless(device: Device) {
    forall peer, update, other: PeerHeader ::
      RouteMonitoring(peer, update) in device && peer.peerType == 0 && FromDevice(device, other)
      && other.peerAddress == peer.peerAddress && other.peerType != 0 ==>
        AfterUpdate(map[], update) == map[]
  }

  /** No update that a device may send for a LocRib leaves anything in an empty table. */
  ghost predicate HarmlessToLocRib(device: Device) {
    forall peer, update :: RouteMonitoring(peer, update) in device && peer.peerType == 3 ==>
      AfterUpdate(map[], update) == map[]
  }

  /** The same, by table: only tables of sessions are removed by the peer tasks. */
  ghost predicate HarmlessTo(device: Device, sel: TableSelector) {
    if sel.Session().Some? then Harmless(device) else HarmlessToLocRib(device)
  }

  /** Without any peer-up message the reader never gets to its loop. */
  ghost predicate NeverStarts(device: Device) {
    forall peer :: PeerUp(peer) !in device
  }

  // ---- The invariant -----------------------------------------------------------------------

  ghost predicate MsgFrom(device: Device, peer: PeerHeader, msg: Msg) {
    msg.Monitoring? ==> msg.peer.peerAddress == peer.peerAddress && RouteMonitoring(msg.peer, msg.update) in device
  }

  ghost predicate Known(device: Device, t: Task) {
    && FromDevice(device, t.peer)
    && forall k :: 0 <= k < |t.sent| ==> MsgFrom(device, t.peer, t.sent[k])
  }

  /** A later call takes back what this one stores. */
  ghost predicate TakenBack(ops: seq<RouteOp>, k: nat)
    requires k < |ops|
  {
    exists l :: k < l < |ops| && ops[l] == RouteOp(ops[k].sel, ops[k].at, None)
  }

  /**
   * A call on an Adj-RIB-In is for the peer's address. What a call stores in a table is taken back by
   * the same message, if the peer has no session and the device is harmless to the table.
   */
  ghost predicate SafeCall(client: SocketAddr, device: Device, peer: PeerHeader, ops: seq<RouteOp>, k: nat)
    requires k < |ops|
  {
    && (ops[k].sel.Session().Some? ==> ops[k].sel.Session().value == SessionId(client, peer.peerAddress))
    && (HarmlessTo(device, ops[k].sel) ==>
          (ops[k].sel.Session().Some? && peer.peerType == 0) || ops[k].route.None? || TakenBack(ops, k))
  }

  ghost predicate SafeCalls(client: SocketAddr, device: Device, t: Task) {
    t.phase.Applying? ==> forall k :: 0 <= k < |t.phase.ops| ==> SafeCall(client, device, t.peer, t.phase.ops, k)
  }

  /** Tables are not shared by two selectors, and a task writes the one it looked up. */
  ghost predicate Sound(store: Shared) {
    && IdsInRange(store)
    && (forall x, y :: x in store.tables && y in store.tables && x != y ==> store.tables[x] != store.tables[y])
  }

  ghost predicate OwnTable(store: Shared, phase: Phase) {
    && CanWrite(store, phase)
    && (phase.Applying? && phase.table.Some? ==>
          forall sel :: sel in store.tables && store.tables[sel] == phase.table.value ==> sel == phase.ops[0].sel)
  }

  ghost predicate HasSession(t: Task, client: SocketAddr, id: Id) {
    && SessionForPeer(client, t.peer) == Some(id)
    && (t.phase.Receiving? || t.phase.Applying? || t.phase.Stopping?)
  }

  ghost predicate HasTables(t: Task, client: SocketAddr, id: Id) {
    && SessionForPeer(client, t.peer) == Some(id)
    && (t.phase.Receiving? || t.phase.Applying? || t.phase.Stopping? || t.phase.Clearing?)
  }

  /** A route in a table of the client. */
  ghost predicate HasRoute(s: State, sel: TableSelector, p: (Key, PathId)) {
    && sel in s.store.tables && sel.ClientAddr() == s.client
    && s.store.tables[sel] < |s.store.ribs| && p in s.store.ribs[s.store.tables[sel]]
  }

  /** The task has yet to withdraw the path, and not from a table that has been dropped. */
  ghost predicate WillWithdraw(store: Shared, phase: Phase, sel: TableSelector, p: (Key, PathId)) {
    && phase.Applying?
    && exists l :: Withdraws(store, phase, sel, p, l)
  }

  ghost predicate Withdraws(store: Shared, phase: Phase, sel: TableSelector, p: (Key, PathId), l: int)
    requires phase.Applying?
  {
    && 0 <= l < |phase.ops| && phase.ops[l] == RouteOp(sel, p, None)
    && (l == 0 && phase.table.Some? ==> sel in store.tables && phase.table.value == store.tables[sel])
  }

  /** The task has yet to remove the table, or to withdraw the path. */
  ghost predicate WillDrop(s: State, i: int, sel: TableSelector, p: (Key, PathId)) {
    && 0 <= i < |s.tasks|
    && (RemovesTable(s.tasks[i], s.client, sel) || WillWithdraw(s.store, s.tasks[i].phase, sel, p))
  }

  ghost predicate RemovesTable(t: Task, client: SocketAddr, sel: TableSelector) {
    sel.Session().Some? && HasTables(t, client, sel.Session().value)
  }

  ghost predicate SessionCovered(s: State, id: Id) {
    exists i :: 0 <= i < |s.tasks| && HasSession(s.tasks[i], s.client, id)
  }

  ghost predicate RouteCovered(s: State, sel: TableSelector, p: (Key, PathId)) {
    exists i :: WillDrop(s, i, sel, p)
  }

  /**
   * Each session of the client, and each route in a table that the device is harmless to, belongs to a
   * task that will still remove it.
   */
  ghost predicate Covered(s: State, device: Device) {
    && (forall id :: id in s.store.sessions && id.fromClient == s.client ==> SessionCovered(s, id))
    && (forall sel, p :: HasRoute(s, sel, p) && HarmlessTo(device, sel) ==> RouteCovered(s, sel, p))
  }

  ghost predicate TaskClean(s: State, device: Device, i: nat)
    requires i < |s.tasks|
  {
    Known(device, s.tasks[i]) && SafeCalls(s.client, device, s.tasks[i]) && OwnTable(s.store, s.tasks[i].phase)
  }

  ghost predicate Clean(s: State, device: Device) {
    && Sound(s.store)
    && (forall i :: 0 <= i < |s.tasks| ==> TaskClean(s, device, i))
    && Covered(s, device)
  }

  ghost predicate Quiet(s: State) {
    s.reader.Ended? && forall i :: 0 <= i < |s.tasks| ==> s.tasks[i].phase.Done?
  }

  /** No session of the client and no route in its Adj-RIB-In tables; an empty table is no route. */
  ghost predicate NothingLeft(s: State) {
    && (forall id :: id in s.store.sessions ==> id.fromClient != s.client)
    && (forall sel, p :: HasRoute(s, sel, p) ==> sel.Session().None?)
  }

  /** No route in the LocRib tables of the client. */
  ghost predicate NoLocRibLeft(s: State) {
    forall sel, p :: HasRoute(s, sel, p) ==> sel.Session().Some?
  }

  lemma CleanAtTheEnd(s: State, device: Device)
    requires Clean(s, device) && Quiet(s)
    ensures Harmless(device) ==> NothingLeft(s)
    ensures HarmlessToLocRib(device) ==> NoLocRibLeft(s)
  {
    hide Harmless, HarmlessToLocRib;
    forall sel, p
      ensures !RouteCovered(s, sel, p)
    {
    }
  }

  // Each kind of step keeps the store clean.

  lemma SpawnClean(s: State, device: Device, peer: PeerHeader)
    requires Clean(s, device) && FromDevice(device, peer)
    ensures Clean(Spawn(s, peer), device)
  {
    var s' := Spawn(s, peer);
    forall i | 0 <= i < |s'.tasks|
      ensures TaskClean(s', device, i)
    {
      if i < |s.tasks| {
        assert TaskClean(s, device, i);
      }
    }
    SameCover(s, s', device);
  }

  lemma SendClean(s: State, device: Device, i: nat, msg: Msg)
    requires Clean(s, device) && i < |s.tasks| && MsgFrom(device, s.tasks[i].peer, msg)
    ensures Clean(StartSending(s, i, msg), device)
  {
    var s' := StartSending(s, i, msg);
    forall j | 0 <= j < |s'.tasks|
      ensures TaskClean(s', device, j)
    {
      assert TaskClean(s, device, j);
    }
    SameCover(s, s', device);
  }

  /** What is left in the store is still covered, by the same task or because it is new. */
  lemma CoverStep(s: State, s': State, device: Device)
    requires Covered(s, device) && s'.client == s.client && |s.tasks| <= |s'.tasks|
    requires forall j, id :: 0 <= j < |s.tasks| && HasSession(s.tasks[j], s.client, id) && id in s'.store.sessions ==>
               HasSession(s'.tasks[j], s.client, id)
    requires forall j, sel, p | HasRoute(s', sel, p) && HasRoute(s, sel, p) ::
               WillDrop(s, j, sel, p) ==> WillDrop(s', j, sel, p)
    requires forall id :: id in s'.store.sessions && id.fromClient == s.client ==>
               id in s.store.sessions || SessionCovered(s', id)
    requires forall sel, p :: HasRoute(s', sel, p) && HarmlessTo(device, sel) ==>
               HasRoute(s, sel, p) || RouteCovered(s', sel, p)
    ensures Covered(s', device)
  {
    hide HasSession, WillDrop, HarmlessTo;
    forall id | id in s'.store.sessions && id.fromClient == s'.client
      ensures SessionCovered(s', id)
    {
      if id in s.store.sessions {
        assert SessionCovered(s, id);
        var i :| 0 <= i < |s.tasks| && HasSession(s.tasks[i], s.client, id);
        assert HasSession(s'.tasks[i], s'.client, id);
      }
    }
    forall sel, p | HasRoute(s', sel, p) && HarmlessTo(device, sel)
      ensures RouteCovered(s', sel, p)
    {
      if HasRoute(s, sel, p) {
        assert RouteCovered(s, sel, p);
        var i :| WillDrop(s, i, sel, p);
        assert WillDrop(s', i, sel, p);
      }
    }
  }

  /** Tasks that have not changed still cover what is left of the tables they covered. */
  lemma SameDrops(s: State, s': State, i: int)
    requires s'.client == s.client && |s.tasks| <= |s'.tasks|
    requires forall j :: 0 <= j < |s.tasks| && j != i ==>
               s'.tasks[j].peer == s.tasks[j].peer && s'.tasks[j].phase == s.tasks[j].phase
    requires forall sel, p :: HasRoute(s', sel, p) && HasRoute(s, sel, p) ==>
               s'.store.tables[sel] == s.store.tables[sel]
    ensures forall j, sel, p | HasRoute(s', sel, p) && HasRoute(s, sel, p) ::
              j != i && WillDrop(s, j, sel, p) ==> WillDrop(s', j, sel, p)
  {
    hide SessionForPeer;
    forall j, sel, p | HasRoute(s', sel, p) && HasRoute(s, sel, p) && j != i && WillDrop(s, j, sel, p)
      ensures WillDrop(s', j, sel, p)
    {
      var t := s.tasks[j];
      if !RemovesTable(t, s.client, sel) {
        var l :| Withdraws(s.store, t.phase, sel, p, l);
        assert Withdraws(s'.store, s'.tasks[j].phase, sel, p, l);
      }
    }
  }

  lemma SameCover(s: State, s': State, device: Device)
    requires Covered(s, device) && s'.store == s.store && s'.client == s.client
    requires |s.tasks| <= |s'.tasks|
    requires forall i :: 0 <= i < |s.tasks| ==>
               s'.tasks[i].peer == s.tasks[i].peer && s'.tasks[i].phase == s.tasks[i].phase
    ensures Covered(s', device)
  {
    hide SessionCovered, RouteCovered, Covered, SessionForPeer;
    assert forall sel, p :: HasRoute(s', sel, p) ==> HasRoute(s, sel, p);
    SameDrops(s, s', -1);
    CoverStep(s, s', device);
  }

  /** Sessions and tables are removed, or nothing happens to them. */
  ghost predicate Shrinks(store: Shared, store': Shared) {
    && store'.sessions <= store.sessions && store'.ribs == store.ribs
    && forall sel :: sel in store'.tables ==> sel in store.tables && store'.tables[sel] == store.tables[sel]
  }

  lemma ShrinkClean(s: State, s': State, device: Device)
    requires Clean(s, device) && s'.client == s.client && |s'.tasks| == |s.tasks| && Shrinks(s.store, s'.store)
    requires forall i :: 0 <= i < |s.tasks| ==> s'.tasks[i].(queue := s.tasks[i].queue) == s.tasks[i]
    ensures Clean(s', device)
  {
    forall i | 0 <= i < |s'.tasks|
      ensures TaskClean(s', device, i)
    {
      assert TaskClean(s, device, i);
    }
    hide SessionCovered, RouteCovered, Covered, SessionForPeer, TaskClean;
    assert forall sel, p :: HasRoute(s', sel, p) ==> HasRoute(s, sel, p);
    SameDrops(s, s', -1);
    CoverStep(s, s', device);
  }

  lemma AddressOf(s: State, peer: PeerHeader, i: nat)
    requires SendersOk(s) && peer.peerAddress in s.channels && s.channels[peer.peerAddress] == i
    ensures i < |s.tasks| && s.tasks[i].peer.peerAddress == peer.peerAddress
  {
    assert ChannelOk(s, peer.peerAddress);
  }

  lemma ReadClean(s: State, device: Device, input: Input)
    requires Transport(s) && Clean(s, device) && Enabled(s, Read(input))
    requires s.reader.Reading? ==> Sends(device, Read(input))
    ensures Clean(AfterRead(s, input), device)
  {
    hide Clean, TaskOk, DownIsLast, StartSending, Spawn;
    if s.reader.Reading? && input.RouteMonitoring? {
      var peer := input.peer;
      SpawnClean(s, device, peer);
      SpawnTransport(s, peer);
      SpawnAdds(s, peer);
      var s' := if peer.peerAddress in s.channels then s else Spawn(s, peer);
      AddressOf(s', peer, s'.channels[peer.peerAddress]);
      SendClean(s', device, s'.channels[peer.peerAddress], Monitoring(peer, input.update));
    } else if s.reader.Reading? && input.PeerUp? {
      SpawnClean(s, device, input.peer);
    } else if s.reader.Reading? && input.PeerDown? {
      var a := input.peerAddress;
      if a in s.channels {
        assert ChannelOk(s, a);
        ShrinkClean(s, s.(channels := s.channels - {a}), device);
        SendClean(s.(channels := s.channels - {a}), device, s.channels[a], Down);
      }
    } else {
      ShrinkClean(s, AfterRead(s, input), device);
    }
  }

  /** A task changes its phase, and nothing else happens. */
  lemma PhaseClean(s: State, device: Device, i: nat, phase: Phase)
    requires Clean(s, device) && i < |s.tasks|
    requires s.tasks[i].phase.Receiving? || s.tasks[i].phase.Applying?
    requires phase.Receiving? || phase.Applying? || phase.Stopping?
    requires s.tasks[i].phase.Applying? ==> s.tasks[i].phase.ops == []
    requires SafeCalls(s.client, device, s.tasks[i].(phase := phase)) && OwnTable(s.store, phase)
    ensures Clean(WithPhase(s, i, phase), device)
  {
    var s' := WithPhase(s, i, phase);
    forall j | 0 <= j < |s'.tasks|
      ensures TaskClean(s', device, j)
    {
      assert TaskClean(s, device, j);
    }
    hide SessionCovered, RouteCovered, Covered, SessionForPeer, TaskClean, SafeCalls, OwnTable;
    assert forall sel, p :: HasRoute(s', sel, p) ==> HasRoute(s, sel, p);
    SameDrops(s, s', i);
    forall sel, p | HasRoute(s', sel, p) && HasRoute(s, sel, p) && WillDrop(s, i, sel, p)
      ensures WillDrop(s', i, sel, p)
    {
    }
    CoverStep(s, s', device);
  }

  lemma StartClean(s: State, device: Device, i: nat)
    requires Clean(s, device) && Enabled(s, Start(i))
    ensures Clean(Next(s, Start(i)), device)
  {
    var s' := Next(s, Start(i));
    forall j | 0 <= j < |s'.tasks|
      ensures TaskClean(s', device, j)
    {
      assert TaskClean(s, device, j);
    }
    assert forall id :: id in s'.store.sessions && id !in s.store.sessions ==> HasSession(s'.tasks[i], s.client, id);
    hide RouteCovered, Covered, SessionForPeer, TaskClean;
    assert forall sel, p :: HasRoute(s', sel, p) ==> HasRoute(s, sel, p);
    SameDrops(s, s', i);
    forall sel, p | HasRoute(s', sel, p) && HasRoute(s, sel, p) && WillDrop(s, i, sel, p)
      ensures WillDrop(s', i, sel, p)
    {
    }
    CoverStep(s, s', device);
  }

  /** A message without effect on an empty table takes back every path it announces. */
  lemma NoEffectTakesBack(update: BgpUpdate, p: (Key, PathId), k: nat)
    requires AfterUpdate(map[], update) == map[]
    requires k < |Gather(update).updates| && At(Gather(update).updates[k].path) == p
    ensures Lists(Gather(update).withdraws, p)
  {
    hide At, Gather, Announce, Withdraw;
    var g := Gather(update);
    AnnounceAt(map[], g.attrs, g.updates, p);
    WithdrawAt(Announce(map[], g.attrs, g.updates), g.withdraws, p);
    assert Get(AfterUpdate(map[], update), p) == None;
  }

  lemma MessageIsSafe(client: SocketAddr, device: Device, t: Task, msg: Msg)
    requires FromDevice(device, t.peer) && MsgFrom(device, t.peer, msg) && msg.Monitoring?
    ensures SafeCalls(client, device, t.(phase := Applying(OpsFor(client, msg.peer, msg.update), None)))
  {
    hide Gather, At, AfterUpdate;
    var ops, g := OpsFor(client, msg.peer, msg.update), Gather(msg.update);
    if AfterUpdate(map[], msg.update) == map[] {
      forall k | 0 <= k < |g.updates| && ops != []
        ensures TakenBack(ops, k)
      {
        NoEffectTakesBack(msg.update, At(g.updates[k].path), k);
        var w :| 0 <= w < |g.withdraws| && At(g.withdraws[w]) == At(g.updates[k].path);
        assert ops[|g.updates| + w] == RouteOp(ops[k].sel, ops[k].at, None);
      }
    }
  }

  lemma ReceiveClean(s: State, device: Device, i: nat)
    requires TaskOkAt(s, i) && Clean(s, device) && Enabled(s, Receive(i))
    ensures Clean(AfterReceive(s, i), device)
  {
    hide OpsFor, InFlight, DownIsLast;
    var t, msg := s.tasks[i], s.tasks[i].queue[0];
    assert t.sent[|t.taken|] == msg;
    var phase := AfterReceive(s, i).tasks[i].phase;
    assert TaskClean(s, device, i);
    if msg.Monitoring? {
      MessageIsSafe(s.client, device, t, msg);
    }
    PhaseClean(s, device, i, phase);
    TakenClean(WithPhase(s, i, phase), AfterReceive(s, i), device);
  }

  /** What a task has taken does not matter to the store. */
  lemma TakenClean(s: State, s': State, device: Device)
    requires Clean(s, device) && s'.client == s.client && |s'.tasks| == |s.tasks| && s'.store == s.store
    requires forall i :: 0 <= i < |s.tasks| ==>
               s'.tasks[i].(queue := s.tasks[i].queue, taken := s.tasks[i].taken) == s.tasks[i]
    ensures Clean(s', device)
  {
    forall i | 0 <= i < |s'.tasks|
      ensures TaskClean(s', device, i)
    {
      assert TaskClean(s, device, i);
    }
    SameCover(s, s', device);
  }

  ghost predicate TaskOkAt(s: State, i: nat) {
    i < |s.tasks| ==> TaskOk(s, i)
  }

  lemma FetchTask(s: State, device: Device, i: nat, j: nat)
    requires Clean(s, device) && Enabled(s, Fetch(i)) && j < |s.tasks|
    ensures TaskClean(AfterFetch(s, i), device, j)
  {
    hide Covered, SafeCall;
    assert TaskClean(s, device, j);
  }

  lemma FetchKeepsDrop(s: State, i: nat, sel: TableSelector, p: (Key, PathId))
    requires Enabled(s, Fetch(i)) && HasRoute(s, sel, p) && WillDrop(s, i, sel, p)
    ensures WillDrop(AfterFetch(s, i), i, sel, p)
  {
    hide SessionForPeer;
    var t, s' := s.tasks[i], AfterFetch(s, i);
    if !RemovesTable(t, s.client, sel) {
      var l :| Withdraws(s.store, t.phase, sel, p, l);
      assert Withdraws(s'.store, s'.tasks[i].phase, sel, p, l);
    }
  }

  lemma FetchClean(s: State, device: Device, i: nat)
    requires Clean(s, device) && Enabled(s, Fetch(i))
    ensures Clean(AfterFetch(s, i), device)
  {
    var s' := AfterFetch(s, i);
    forall j | 0 <= j < |s'.tasks|
      ensures TaskClean(s', device, j)
    {
      FetchTask(s, device, i, j);
    }
    hide SessionCovered, RouteCovered, Covered, SessionForPeer, TaskClean, SafeCalls, OwnTable;
    assert forall sel, p :: HasRoute(s', sel, p) ==> HasRoute(s, sel, p);
    SameDrops(s, s', i);
    forall sel, p | HasRoute(s', sel, p) && HasRoute(s, sel, p) && WillDrop(s, i, sel, p)
      ensures WillDrop(s', i, sel, p)
    {
      FetchKeepsDrop(s, i, sel, p);
    }
    CoverStep(s, s', device);
  }

  lemma WriteKeepsDrop(s: State, i: nat, sel: TableSelector, p: (Key, PathId))
    requires Enabled(s, Write(i)) && HasRoute(AfterWrite(s, i), sel, p) && WillDrop(s, i, sel, p)
    ensures WillDrop(AfterWrite(s, i), i, sel, p)
  {
    hide SessionForPeer;
    var t, s' := s.tasks[i], AfterWrite(s, i);
    if !RemovesTable(t, s.client, sel) {
      var l :| Withdraws(s.store, t.phase, sel, p, l);
      assert l != 0;
      assert Withdraws(s'.store, s'.tasks[i].phase, sel, p, l - 1);
    }
  }

  /** A route that is new is stored by a task with a session, or taken back later. */
  lemma NewRouteCovered(s: State, device: Device, i: nat, sel: TableSelector, p: (Key, PathId))
    requires Enabled(s, Write(i)) && TaskClean(s, device, i)
    requires HasRoute(AfterWrite(s, i), sel, p) && !HasRoute(s, sel, p) && HarmlessTo(device, sel)
    ensures RouteCovered(AfterWrite(s, i), sel, p)
  {
    hide Known;
    var t, s' := s.tasks[i], AfterWrite(s, i);
    var ops := t.phase.ops;
    assert s.store.tables[sel] == t.phase.table.value && sel == ops[0].sel && p == ops[0].at && ops[0].route.Some?;
    assert SafeCall(s.client, device, t.peer, ops, 0);
    if sel.Session().None? || t.peer.peerType != 0 {
      var l :| 0 < l < |ops| && ops[l] == RouteOp(sel, p, None);
      assert Withdraws(s'.store, s'.tasks[i].phase, sel, p, l - 1);
    }
    assert WillDrop(s', i, sel, p);
  }

  lemma WrittenTask(s: State, device: Device, i: nat, j: nat)
    requires Enabled(s, Write(i)) && j < |s.tasks| && TaskClean(s, device, j)
    ensures TaskClean(AfterWrite(s, i), device, j)
  {
    hide ApplyOp;
    if i == j {
      var t := s.tasks[i];
      forall k | 0 <= k < |t.phase.ops| - 1
        ensures SafeCall(s.client, device, t.peer, t.phase.ops[1..], k)
      {
        assert SafeCall(s.client, device, t.peer, t.phase.ops, k + 1);
        if TakenBack(t.phase.ops, k + 1) {
          var op := t.phase.ops[k + 1];
          var l :| k + 1 < l < |t.phase.ops| && t.phase.ops[l] == RouteOp(op.sel, op.at, None);
          assert t.phase.ops[1..][l - 1] == t.phase.ops[l];
        }
      }
    }
  }

  lemma WriteClean(s: State, device: Device, i: nat)
    requires Clean(s, device) && Enabled(s, Write(i))
    ensures Clean(AfterWrite(s, i), device)
  {
    hide ApplyOp, TaskClean, SessionCovered, RouteCovered, Covered, SessionForPeer;
    var s' := AfterWrite(s, i);
    assert Covered(s, device) && TaskClean(s, device, i);
    forall j | 0 <= j < |s'.tasks|
      ensures TaskClean(s', device, j)
    {
      WrittenTask(s, device, i, j);
    }
    forall sel, p | HasRoute(s', sel, p) && !HasRoute(s, sel, p) && HarmlessTo(device, sel)
      ensures RouteCovered(s', sel, p)
    {
      NewRouteCovered(s, device, i, sel, p);
    }
    SameDrops(s, s', i);
    forall sel, p | HasRoute(s', sel, p) && HasRoute(s, sel, p) && WillDrop(s, i, sel, p)
      ensures WillDrop(s', i, sel, p)
    {
      WriteKeepsDrop(s, i, sel, p);
    }
    CoverStep(s, s', device);
  }

  lemma RemoveSessionClean(s: State, device: Device, i: nat)
    requires Clean(s, device) && Enabled(s, RemoveSession(i))
    ensures Clean(Next(s, RemoveSession(i)), device)
  {
    var s' := Next(s, RemoveSession(i));
    forall j | 0 <= j < |s'.tasks|
      ensures TaskClean(s', device, j)
    {
      assert TaskClean(s, device, j);
    }
    hide SessionCovered, RouteCovered, Covered, SessionForPeer, TaskClean;
    assert forall sel, p :: HasRoute(s', sel, p) ==> HasRoute(s, sel, p);
    SameDrops(s, s', i);
    forall sel, p | HasRoute(s', sel, p) && HasRoute(s, sel, p) && WillDrop(s, i, sel, p)
      ensures WillDrop(s', i, sel, p)
    {
    }
    CoverStep(s, s', device);
  }

  lemma RemoveTablesClean(s: State, device: Device, i: nat)
    requires Clean(s, device) && Enabled(s, RemoveTables(i))
    ensures Clean(Next(s, RemoveTables(i)), device)
  {
    var s' := Next(s, RemoveTables(i));
    forall j | 0 <= j < |s'.tasks|
      ensures TaskClean(s', device, j)
    {
      assert TaskClean(s, device, j);
    }
    hide SessionCovered, RouteCovered, Covered, SessionForPeer, TaskClean;
    assert forall sel, p :: HasRoute(s', sel, p) ==> HasRoute(s, sel, p);
    SameDrops(s, s', i);
    forall sel, p | HasRoute(s', sel, p)
      ensures !WillDrop(s, i, sel, p)
    {
    }
    CoverStep(s, s', device);
  }

  lemma OthersClean(s: State, device: Device, store: Shared)
    requires Clean(s, device) && Enabled(s, Others(store))
    ensures Clean(s.(store := store), device)
  {
    var s' := s.(store := store);
    forall j | 0 <= j < |s'.tasks|
      ensures TaskClean(s', device, j)
    {
      assert TaskClean(s, device, j);
    }
    hide SessionCovered, RouteCovered, Covered, SessionForPeer, TaskClean;
    assert forall sel, p :: HasRoute(s', sel, p) ==> HasRoute(s, sel, p);
    SameDrops(s, s', -1);
    CoverStep(s, s', device);
  }

  lemma CleanUpClean(s: State, device: Device)
    requires Clean(s, device) && Enabled(s, CleanUp)
    ensures Clean(Next(s, CleanUp), device)
  {
    hide Clean;
    ShrinkClean(s, Next(s, CleanUp), device);
  }

  lemma CleanKept(s: State, device: Device, a: Action)
    requires Transport(s) && Clean(s, device) && Enabled(s, a)
    requires s.reader.Reading? ==> Sends(device, a)
    ensures Clean(Next(s, a), device)
  {
    hide Clean, TaskOk, SendersOk, AfterReceive, AfterRead, EndReader, AfterFetch, AfterWrite, OpsFor, Foreign;
    hide WithSession, WithoutItsSession, WithoutItsTables, AfterCleanUp;
    match a
    case Read(input) => ReadClean(s, device, input);
    case Deliver => ShrinkClean(s, Next(s, a), device);
    case Cancel => CancelClean(s, device);
    case CleanUp => CleanUpClean(s, device);
    case Start(i) => StartClean(s, device, i);
    case Receive(i) =>
      TransportAt(s, i);
      ReceiveClean(s, device, i);
    case HangUp(i) => PhaseClean(s, device, i, Stopping);
    case Fetch(i) => FetchClean(s, device, i);
    case Write(i) => WriteClean(s, device, i);
    case Applied(i) => PhaseClean(s, device, i, Receiving);
    case RemoveSession(i) => RemoveSessionClean(s, device, i);
    case RemoveTables(i) => RemoveTablesClean(s, device, i);
    case Others(store) => OthersClean(s, device, store);
  }

  lemma CancelClean(s: State, device: Device)
    requires Clean(s, device) && !s.reader.Ended?
    ensures Clean(EndReader(s), device)
  {
    hide Clean;
    ShrinkClean(s, EndReader(s), device);
  }

  // ---- The steps and the store -------------------------------------------------------------

  /** What the shared store means, as the store itself states it. */
  ghost function Means(store: Shared): Ribs
    requires Sound(store)
  {
    map sel | sel in store.tables :: store.ribs[store.tables[sel]]
  }

  lemma FetchMakesTable(s: State, i: nat)
    requires Sound(s.store) && Enabled(s, Fetch(i))
    ensures var sel, s1 := s.tasks[i].phase.ops[0].sel, AfterFetch(s, i);
            && Sound(s1.store) && sel in s1.store.tables && s1.store.tables[sel] < |s1.store.ribs|
            && Means(s1.store) == Means(s.store)[sel := RibOf(Means(s.store), sel)]
            && s1.store.ribs[s1.store.tables[sel]] == RibOf(Means(s.store), sel)
            && |s1.tasks| == |s.tasks|
            && s1.tasks[i].phase == Applying(s.tasks[i].phase.ops, Some(s1.store.tables[sel]))
  {
    var sel := s.tasks[i].phase.ops[0].sel;
    if sel !in s.store.tables {
      NewTable(s.store, sel);
      hide Means, Sound;
    }
  }

  lemma NewTable(store: Shared, sel: TableSelector)
    requires Sound(store) && sel !in store.tables
    ensures var store' := store.(tables := store.tables[sel := |store.ribs|], ribs := store.ribs + [map[]]);
            Sound(store') && Means(store') == Means(store)[sel := map[]]
    ensures RibOf(Means(store), sel) == map[]
  {
  }

  /** Looking up a table and writing it, without interruption, is one call of the store. */
  lemma FetchAndWriteIsOneCall(s: State, i: nat)
    requires Sound(s.store) && Enabled(s, Fetch(i))
    ensures Enabled(AfterFetch(s, i), Write(i))
    ensures var op, store := s.tasks[i].phase.ops[0], AfterWrite(AfterFetch(s, i), i).store;
            && Sound(store)
            && Means(store) == Means(s.store)[op.sel := ApplyOp(RibOf(Means(s.store), op.sel), op)]
  {
    hide ApplyOp, AfterFetch, Sound, Means;
    var op, s1 := s.tasks[i].phase.ops[0], AfterFetch(s, i);
    FetchMakesTable(s, i);
    OneRibWritten(s1.store, op.sel, ApplyOp(s1.store.ribs[s1.store.tables[op.sel]], op));
  }

  lemma OneRibWritten(store: Shared, sel: TableSelector, rib: Rib<RouteAttrs>)
    requires Sound(store) && sel in store.tables
    ensures var store' := store.(ribs := store.ribs[store.tables[sel] := rib]);
            Sound(store') && Means(store') == Means(store)[sel := rib]
  {
  }

  lemma DroppedTables(store: Shared, tables: map<TableSelector, nat>, owner: TableQuery)
    requires Sound(store) && tables == Without(store.tables, owner)
    ensures Sound(store.(tables := tables))
    ensures Means(store.(tables := tables)) == Without(Means(store), owner)
  {
  }

  /** The first peer-up message registers the client, as `client_up` does; no other message changes the store. */
  lemma FirstPeerUpIsClientUp(s: State, input: Input)
    ensures AfterRead(s, input).store ==
            if s.reader.AwaitPeerUp? && input.PeerUp?
            then s.store.(clients := s.store.clients + {s.client})
            else s.store
  {
  }

  /** A task that starts adds the session of its peer, as `session_up` does, if it has one. */
  lemma TaskAddsItsSession(s: State, i: nat)
    requires Enabled(s, Start(i))
    ensures var peer := s.tasks[i].peer;
            Next(s, Start(i)).store ==
            if peer.peerType == 0
            then s.store.(sessions := s.store.sessions + {SessionId(s.client, peer.peerAddress)})
            else s.store
  {
  }

  /** The removals of a peer task are those of `session_down` in the store. */
  lemma TaskRemovesItsSession(s: State, i: nat)
    requires Sound(s.store) && i < |s.tasks|
    ensures Sound(WithoutItsTables(s, i))
    ensures var id := SessionId(s.client, s.tasks[i].peer.peerAddress);
            if s.tasks[i].peer.peerType == 0 then
              && WithoutItsSession(s, i) == s.store.(sessions := s.store.sessions - {id})
              && WithoutItsTables(s, i).(tables := s.store.tables) == s.store
              && Means(WithoutItsTables(s, i)) == Means(s.store) - {PrePolicyAdjIn(id), PostPolicyAdjIn(id)}
            else WithoutItsSession(s, i) == WithoutItsTables(s, i) == s.store
  {
    hide Means, Sound;
    if s.tasks[i].peer.peerType == 0 {
      var id := SessionId(s.client, s.tasks[i].peer.peerAddress);
      assert WithoutItsTables(s, i).tables == Without(s.store.tables, OfSession(id));
      DroppedTables(s.store, WithoutItsTables(s, i).tables, OfSession(id));
    }
  }

  /** The parts of the clean-up remove the client, its sessions and its tables, as `client_down` does in the store. */
  lemma CleanUpRemovesTheClient(s: State)
    requires Sound(s.store)
    ensures AfterCleanUp(s.client, 0, s.store) == s.store.(clients := s.store.clients - {s.client})
    ensures var store := AfterCleanUp(s.client, 1, s.store);
            && store.(sessions := s.store.sessions) == s.store
            && forall id :: id in store.sessions <==> id in s.store.sessions && id.fromClient != s.client
    ensures var store := AfterCleanUp(s.client, 2, s.store);
            && store.(tables := s.store.tables) == s.store && Sound(store)
            && Means(store) ==
               map sel | sel in Means(s.store) && !sel.FromClient(s.client) :: Means(s.store)[sel]
  {
    hide Means, Sound;
    assert AfterCleanUp(s.client, 2, s.store).tables == Without(s.store.tables, OfClient(s.client));
    DroppedTables(s.store, AfterCleanUp(s.client, 2, s.store).tables, OfClient(s.client));
  }

  /** Another client may write a route of its own tables, or drop one of them. */
  lemma OthersMayWrite(client: SocketAddr, store: Shared, sel: TableSelector, rib: Rib<RouteAttrs>)
    requires Sound(store) && sel in store.tables && sel.ClientAddr() != client
    ensures Foreign(client, store, store.(ribs := store.ribs[store.tables[sel] := rib]))
    ensures Foreign(client, store, store.(tables := store.tables - {sel}))
  {
  }

  /** A query, or the first route of another client, may make a table. */
  lemma OthersMayMake(client: SocketAddr, store: Shared, sel: TableSelector)
    requires Sound(store) && sel !in store.tables
    ensures Foreign(client, store, store.(tables := store.tables[sel := |store.ribs|], ribs := store.ribs + [map[]]))
  {
  }

  /** Another client may come and go, with its sessions. */
  lemma OthersMayCome(client: SocketAddr, store: Shared, clients: set<SocketAddr>, sessions: set<Id>)
    requires Sound(store) && forall id :: id in sessions ==> id.fromClient != client
    ensures Foreign(client, store, store.(clients := clients, sessions := store.sessions + sessions))
    ensures Foreign(client, store, store.(clients := clients, sessions := store.sessions - sessions))
  {
  }

  // ---- Runs of a device --------------------------------------------------------------------

  /** The client connects while the store has nothing of it. */
  ghost predicate Fresh(client: SocketAddr, store: Shared) {
    && Sound(store)
    && (forall id :: id in store.sessions ==> id.fromClient != client)
    && (forall sel :: sel in store.tables && sel.ClientAddr() == client ==> store.ribs[store.tables[sel]] == map[])
  }

  /** Some run in which the device sends only what it may leads to `s`. */
  ghost predicate Reaches(client: SocketAddr, store: Shared, device: Device, s: State) {
    exists actions :: RunsAs(client, store, device, actions, s)
  }

  ghost predicate RunsAs(client: SocketAddr, store: Shared, device: Device, actions: seq<Action>, s: State) {
    && Runs(Init(client, store), actions, s)
    && forall k :: 0 <= k < |actions| ==> Sends(device, actions[k])
  }

  /** Whatever the device does and however its peers flap, nothing is left once everything is quiet. */
  ghost predicate EndsClean(client: SocketAddr, device: Device) {
    forall store, s :: Fresh(client, store) && Reaches(client, store, device, s) && Quiet(s) ==>
      s.client == client && NothingLeft(s)
  }

  /** Nor is anything left in the LocRib tables, once the client itself has been removed too. */
  ghost predicate EndsWithoutLocRib(client: SocketAddr, device: Device) {
    forall store, s ::
      Fresh(client, store) && Reaches(client, store, device, s) && Quiet(s) && s.cleanup >= 3 ==>
        s.client == client && NoLocRibLeft(s)
  }

  lemma {:induction false} RunsKeepClean(s: State, device: Device, actions: seq<Action>, s': State)
    requires Transport(s) && Clean(s, device) && Runs(s, actions, s')
    requires forall k :: 0 <= k < |actions| ==> Sends(device, actions[k])
    ensures Clean(s', device)
    decreases |actions|
  {
    hide Transport, Clean, Next, Enabled, Sends;
    if actions != [] {
      TransportKept(s, actions[0]);
      CleanKept(s, device, actions[0]);
      RunsKeepClean(Next(s, actions[0]), device, actions[1..], s');
    }
  }

  /** The reader has not got to its loop. */
  ghost predicate Idle(s: State) {
    (s.reader.AwaitInitiation? || s.reader.AwaitPeerUp? || s.reader.Ended?) && s.tasks == []
  }

  lemma {:induction false} RunsStayIdle(s: State, device: Device, actions: seq<Action>, s': State)
    requires Idle(s) && Transport(s) && Clean(s, iset{}) && Runs(s, actions, s')
    requires NeverStarts(device) && forall k :: 0 <= k < |actions| ==> Sends(device, actions[k])
    ensures Clean(s', iset{})
    decreases |actions|
  {
    hide Transport, Clean;
    if actions != [] {
      TransportKept(s, actions[0]);
      CleanKept(s, iset{}, actions[0]);
      assert Sends(device, actions[0]);
      RunsStayIdle(Next(s, actions[0]), device, actions[1..], s');
    }
  }

  lemma FreshIsClean(client: SocketAddr, store: Shared, device: Device)
    requires Fresh(client, store)
    ensures Transport(Init(client, store)) && Clean(Init(client, store), device)
  {
  }

  lemma SilentIsHarmless()
    ensures Harmless(iset{}) && HarmlessToLocRib(iset{})
  {
  }

  /**
   * On every run of a harmless device, however peers flap and wherever the reader dies: once the
   * reader has ended and all peer tasks are done, no session of the client and no route in its
   * Adj-RIB-In tables is left. The same holds of its LocRib tables.
   */
  lemma NothingIsLeft(client: SocketAddr, store: Shared, device: Device, actions: seq<Action>, s: State)
    requires Fresh(client, store) && RunsAs(client, store, device, actions, s) && Quiet(s)
    ensures s.client == client
    ensures Harmless(device) || NeverStarts(device) ==> NothingLeft(s)
    ensures HarmlessToLocRib(device) || NeverStarts(device) ==> NoLocRibLeft(s)
  {
    hide Transport, Clean, Harmless, HarmlessToLocRib, NeverStarts, Runs, Fresh, NothingLeft, NoLocRibLeft;
    var s0 := Init(client, store);
    ClientKept(s0, actions, s);
    FreshIsClean(client, store, device);
    RunsKeepClean(s0, device, actions, s);
    CleanAtTheEnd(s, device);
    if NeverStarts(device) {
      FreshIsClean(client, store, iset{});
      RunsStayIdle(s0, device, actions, s);
      SilentIsHarmless();
      CleanAtTheEnd(s, iset{});
    }
  }

  // ---- A device that is not harmless leaves a route ----------------------------------------

  lemma {:induction false} OneMoreStep(s: State, actions: seq<Action>, s1: State, a: Action)
    requires Runs(s, actions, s1) && Enabled(s1, a)
    ensures Runs(s, actions + [a], Next(s1, a))
    decreases |actions|
  {
    hide Next, Enabled;
    if actions == [] {
      assert ([a])[1..] == [];
    } else {
      OneMoreStep(Next(s, actions[0]), actions[1..], s1, a);
      assert (actions + [a])[1..] == actions[1..] + [a];
    }
  }

  lemma StepTo(client: SocketAddr, store: Shared, device: Device, s: State, a: Action, s': State)
    requires Reaches(client, store, device, s) && Enabled(s, a) && Sends(device, a) && Next(s, a) == s'
    ensures Reaches(client, store, device, s')
  {
    hide Runs, Next, Enabled;
    var actions :| RunsAs(client, store, device, actions, s);
    OneMoreStep(Init(client, store), actions, s, a);
    assert RunsAs(client, store, device, actions + [a], s');
  }

  lemma StartsHere(client: SocketAddr, store: Shared, device: Device)
    ensures Reaches(client, store, device, Init(client, store))
  {
    assert RunsAs(client, store, device, [], Init(client, store));
  }

  ghost function Nothing(): Shared {
    Shared({}, {}, map[], [])
  }

  /** A state with one task, the reader in the given stage. */
  ghost function One(client: SocketAddr, reader: Reader, channels: map<IpAddr, nat>, t: Task, store: Shared): State {
    State(client, reader, 0, channels, [t], None, store)
  }

  /** The same after the reader has ended, and after some parts of the clean-up. */
  ghost function Alone(client: SocketAddr, cleanup: nat, t: Task, store: Shared): State {
    State(client, Ended, cleanup, map[], [t], None, store)
  }

  /** The store after some calls, each made without interruption. */
  ghost function AfterCalls(ribs: Ribs, ops: seq<RouteOp>): Ribs
    decreases |ops|
  {
    if ops == [] then ribs
    else AfterCalls(ribs[ops[0].sel := ApplyOp(RibOf(ribs, ops[0].sel), ops[0])], ops[1..])
  }

  lemma {:induction false} CallsOnOneTable(ribs: Ribs, ops: seq<RouteOp>, sel: TableSelector, other: TableSelector)
    requires forall k :: 0 <= k < |ops| ==> ops[k].sel == sel
    ensures RibOf(AfterCalls(ribs, ops), sel) == ApplyOps(RibOf(ribs, sel), ops)
    ensures other != sel ==> RibOf(AfterCalls(ribs, ops), other) == RibOf(ribs, other)
    decreases |ops|
  {
    hide ApplyOp;
    if ops != [] {
      CallsOnOneTable(ribs[sel := ApplyOp(RibOf(ribs, sel), ops[0])], ops[1..], sel, other);
      assert ops == [ops[0]] + ops[1..];
      ApplyOpsAppend(RibOf(ribs, sel), [ops[0]], ops[1..]);
      assert [ops[0]][..0] == [];
    }
  }

  /** A task that is left alone makes all the calls for a message. */
  lemma {:induction false} Drain(client: SocketAddr, store: Shared, device: Device, cleanup: nat, t: Task, now: Shared)
    returns (now': Shared)
    requires t.phase.Applying? && t.phase.table.None? && Sound(now)
    requires Reaches(client, store, device, Alone(client, cleanup, t, now))
    ensures Reaches(client, store, device,
                    Alone(client, cleanup, t.(phase := Applying([], None), written := t.written + t.phase.ops), now'))
    ensures Sound(now') && Means(now') == AfterCalls(Means(now), t.phase.ops)
    decreases |t.phase.ops|
  {
    var ops := t.phase.ops;
    if ops == [] {
      assert t.written + [] == t.written;
      now' := now;
    } else {
      hide Sound, Means, Reaches, ApplyOp;
      var t1, next := MakeCall(client, store, device, cleanup, t, now);
      now' := Drain(client, store, device, cleanup, t1, next);
      assert t.written + [ops[0]] + ops[1..] == t.written + ops;
    }
  }

  lemma MakeCall(client: SocketAddr, store: Shared, device: Device, cleanup: nat, t: Task, now: Shared)
    returns (t': Task, next: Shared)
    requires t.phase.Applying? && t.phase.table.None? && t.phase.ops != [] && Sound(now)
    requires Reaches(client, store, device, Alone(client, cleanup, t, now))
    ensures t' == t.(phase := Applying(t.phase.ops[1..], None), written := t.written + [t.phase.ops[0]])
    ensures Reaches(client, store, device, Alone(client, cleanup, t', next)) && Sound(next)
    ensures var op := t.phase.ops[0];
            Means(next) == Means(now)[op.sel := ApplyOp(RibOf(Means(now), op.sel), op)]
  {
    hide Sound, Means, Reaches, ApplyOp;
    var s := Alone(client, cleanup, t, now);
    FetchAndWriteIsOneCall(s, 0);
    var s1 := AfterFetch(s, 0);
    StepTo(client, store, device, s, Fetch(0), s1);
    var s2 := AfterWrite(s1, 0);
    StepTo(client, store, device, s1, Write(0), s2);
    t', next := s2.tasks[0], s2.store;
    assert s2 == Alone(client, cleanup, t', next);
  }

  ghost function OnlyClient(client: SocketAddr): Shared {
    Shared({client}, {}, map[], [])
  }

  lemma StartsReading(client: SocketAddr, device: Device, first: PeerHeader)
    requires PeerUp(first) in device
    ensures Reaches(client, Nothing(), device, Init(client, Nothing()).(reader := Reading, store := OnlyClient(client)))
  {
    hide Reaches, Foreign;
    var s0 := Init(client, Nothing());
    StartsHere(client, Nothing(), device);
    StepTo(client, Nothing(), device, s0, Read(Initiation), s0.(reader := AwaitPeerUp));
    StepTo(client, Nothing(), device, s0.(reader := AwaitPeerUp), Read(PeerUp(first)),
           s0.(reader := Reading, store := OnlyClient(client)));
  }

  /** The device starts a task by monitoring. */
  lemma StartsByMonitoring(client: SocketAddr, device: Device, first: PeerHeader, peer: PeerHeader, update: BgpUpdate)
    requires PeerUp(first) in device && RouteMonitoring(peer, update) in device
    ensures var queue := [Monitoring(peer, update)];
            Reaches(client, Nothing(), device,
                    One(client, Reading, map[peer.peerAddress := 0], Task(peer, Starting, queue, queue, [], []),
                        OnlyClient(client)))
  {
    hide Reaches, Foreign;
    StartsReading(client, device, first);
    var store, msg := OnlyClient(client), Monitoring(peer, update);
    var reading := Init(client, Nothing()).(reader := Reading, store := store);
    var channels, t := map[peer.peerAddress := 0], Task(peer, Starting, [], [], [], []);
    assert [] + [msg] == [msg];
    var sending := One(client, Sending(0, msg), channels, t.(sent := [msg]), store);
    StepTo(client, Nothing(), device, reading, Read(RouteMonitoring(peer, update)), sending);
    StepTo(client, Nothing(), device, sending, Deliver,
           One(client, Reading, channels, t.(queue := [msg], sent := [msg]), store));
  }

  /** The device starts a task, by a peer-up message or by monitoring. */
  lemma StartsTask(client: SocketAddr, device: Device, first: PeerHeader, peer: PeerHeader) returns (queue: seq<Msg>)
    requires PeerUp(first) in device && FromDevice(device, peer)
    ensures queue == [] || exists update :: queue == [Monitoring(peer, update)]
    ensures Reaches(client, Nothing(), device,
                    One(client, Reading, map[peer.peerAddress := 0], Task(peer, Starting, queue, queue, [], []),
                        OnlyClient(client)))
  {
    hide Reaches, Foreign;
    if PeerUp(peer) in device {
      queue := [];
      StartsReading(client, device, first);
      StepTo(client, Nothing(), device, Init(client, Nothing()).(reader := Reading, store := OnlyClient(client)),
             Read(PeerUp(peer)), One(client, Reading, map[peer.peerAddress := 0],
                                     Task(peer, Starting, [], [], [], []), OnlyClient(client)));
    } else {
      var update :| RouteMonitoring(peer, update) in device;
      queue := [Monitoring(peer, update)];
      StartsByMonitoring(client, device, first, peer, update);
    }
  }

  /** The stream ends, and the task starts; its peer has no session. */
  lemma StreamEnds(client: SocketAddr, device: Device, peer: PeerHeader, queue: seq<Msg>)
    requires peer.peerType != 0
    requires Reaches(client, Nothing(), device,
                     One(client, Reading, map[peer.peerAddress := 0], Task(peer, Starting, queue, queue, [], []),
                         OnlyClient(client)))
    ensures Reaches(client, Nothing(), device,
                    Alone(client, 0, Task(peer, Receiving, queue, queue, [], []), OnlyClient(client)))
  {
    hide Reaches, Foreign;
    var store, t := OnlyClient(client), Task(peer, Starting, queue, queue, [], []);
    StepTo(client, Nothing(), device, One(client, Reading, map[peer.peerAddress := 0], t, store), Read(Termination),
           Alone(client, 0, t, store));
    StepTo(client, Nothing(), device, Alone(client, 0, t, store), Start(0),
           Alone(client, 0, Task(peer, Receiving, queue, queue, [], []), store));
  }

  /** One more update is sent before the stream ends. */
  lemma SendsUpdate(client: SocketAddr, device: Device, peer: PeerHeader, queue: seq<Msg>, from: PeerHeader,
                    update: BgpUpdate)
    requires RouteMonitoring(from, update) in device && from.peerAddress == peer.peerAddress && peer.peerType != 0
    requires |queue| < CAPACITY
    requires Reaches(client, Nothing(), device,
                     One(client, Reading, map[peer.peerAddress := 0], Task(peer, Starting, queue, queue, [], []),
                         OnlyClient(client)))
    ensures var all := queue + [Monitoring(from, update)];
            Reaches(client, Nothing(), device,
                    Alone(client, 0, Task(peer, Receiving, all, all, [], []), OnlyClient(client)))
  {
    hide Reaches, Foreign;
    var store, msg := OnlyClient(client), Monitoring(from, update);
    var channels, t := map[peer.peerAddress := 0], Task(peer, Starting, queue, queue, [], []);
    var all := queue + [msg];
    var sending := One(client, Sending(0, msg), channels, t.(sent := all), store);
    StepTo(client, Nothing(), device, One(client, Reading, channels, t, store), Read(RouteMonitoring(from, update)),
           sending);
    StepTo(client, Nothing(), device, sending, Deliver,
           One(client, Reading, channels, t.(queue := all, sent := all), store));
    StreamEnds(client, device, peer, all);
  }

  /** The whole clean-up runs before the task goes on. */
  lemma CleansUpFirst(client: SocketAddr, device: Device, t: Task)
    requires Reaches(client, Nothing(), device, Alone(client, 0, t, OnlyClient(client)))
    ensures Reaches(client, Nothing(), device, Alone(client, 3, t, Nothing()))
  {
    hide Reaches, Foreign;
    StepTo(client, Nothing(), device, Alone(client, 0, t, OnlyClient(client)), CleanUp, Alone(client, 1, t, Nothing()));
    StepTo(client, Nothing(), device, Alone(client, 1, t, Nothing()), CleanUp, Alone(client, 2, t, Nothing()));
    StepTo(client, Nothing(), device, Alone(client, 2, t, Nothing()), CleanUp, Alone(client, 3, t, Nothing()));
  }

  /** The task takes a message and applies it. */
  lemma TakesUpdate(client: SocketAddr, device: Device, cleanup: nat, t: Task, now: Shared)
    returns (t': Task, now': Shared)
    requires t.phase.Receiving? && t.queue != [] && t.queue[0].Monitoring? && Sound(now)
    requires Reaches(client, Nothing(), device, Alone(client, cleanup, t, now))
    ensures Reaches(client, Nothing(), device, Alone(client, cleanup, t', now')) && Sound(now')
    ensures t'.peer == t.peer && t'.phase.Receiving? && t'.queue == t.queue[1..]
    ensures Means(now') == AfterCalls(Means(now), OpsFor(client, t.queue[0].peer, t.queue[0].update))
  {
    hide Reaches, Foreign, OpsFor, Sound, Means;
    var msg := t.queue[0];
    var ops := OpsFor(client, msg.peer, msg.update);
    var taken := t.(phase := Applying(ops, None), queue := t.queue[1..], taken := t.taken + [msg]);
    StepTo(client, Nothing(), device, Alone(client, cleanup, t, now), Receive(0), Alone(client, cleanup, taken, now));
    now' := Drain(client, Nothing(), device, cleanup, taken, now);
    var written := taken.(phase := Applying([], None), written := taken.written + ops);
    t' := written.(phase := Receiving);
    StepTo(client, Nothing(), device, Alone(client, cleanup, written, now'), Applied(0),
           Alone(client, cleanup, t', now'));
  }

  /** A task whose peer has no session stops and removes nothing. */
  lemma StopsWithNothing(client: SocketAddr, device: Device, cleanup: nat, t: Task, now: Shared)
    requires t.peer.peerType != 0 && t.phase.Receiving? && t.queue == []
    requires Reaches(client, Nothing(), device, Alone(client, cleanup, t, now))
    ensures Reaches(client, Nothing(), device, Alone(client, cleanup, t.(phase := Done), now))
  {
    hide Reaches, Foreign;
    var stopping := Alone(client, cleanup, t.(phase := Stopping), now);
    var clearing := Alone(client, cleanup, t.(phase := Clearing), now);
    StepTo(client, Nothing(), device, Alone(client, cleanup, t, now), HangUp(0), stopping);
    StepTo(client, Nothing(), device, stopping, RemoveSession(0), clearing);
    StepTo(client, Nothing(), device, clearing, RemoveTables(0), Alone(client, cleanup, t.(phase := Done), now));
  }

  /** What an update leaves after messages that were about other tables. */
  lemma LeavesRoutes(client: SocketAddr, from: PeerHeader, update: BgpUpdate, ribs: Ribs)
    requires TableSelectorForPeer(client, from).Some? && AfterUpdate(map[], update) != map[]
    requires RibOf(ribs, TableSelectorForPeer(client, from).value) == map[]
    ensures var sel := TableSelectorForPeer(client, from).value;
            RibOf(AfterCalls(ribs, OpsFor(client, from, update)), sel) != map[]
  {
    hide AfterUpdate, Gather, At, AfterCalls;
    var sel := TableSelectorForPeer(client, from).value;
    CallsOnOneTable(ribs, OpsFor(client, from, update), sel, sel);
    OpsAreTheUpdate(map[], client, from, update);
  }

  lemma OtherTypesLeaveItAlone(client: SocketAddr, peer: PeerHeader, update: BgpUpdate, ribs: Ribs, sel: TableSelector)
    requires peer.peerType != 0 && sel.Session().Some?
    ensures RibOf(AfterCalls(ribs, OpsFor(client, peer, update)), sel) == RibOf(ribs, sel)
  {
    hide Gather, At;
    var ops := OpsFor(client, peer, update);
    if ops != [] {
      hide OpsFor, AfterCalls;
      CallsOnOneTable(ribs, ops, ops[0].sel, sel);
    }
  }

  /**
   * A device that starts a task for a peer of another type and then sends an update for an
   * Adj-RIB-In of the same address leaves a route behind, whatever the types, flags and update.
   */
  lemma MixedTypesLeaveARoute(client: SocketAddr, device: Device, first: PeerHeader, peer: PeerHeader,
                              from: PeerHeader, update: BgpUpdate) returns (s: State)
    requires PeerUp(first) in device && FromDevice(device, peer) && RouteMonitoring(from, update) in device
    requires from.peerAddress == peer.peerAddress && from.peerType == 0 && peer.peerType != 0
    requires AfterUpdate(map[], update) != map[]
    ensures Reaches(client, Nothing(), device, s) && Quiet(s) && !NothingLeft(s)
  {
    hide Reaches, OpsFor, AfterCalls, AfterUpdate;
    var sel := TableSelectorForPeer(client, from).value;
    var queue := StartsTask(client, device, first, peer);
    SendsUpdate(client, device, peer, queue, from, update);
    var all := queue + [Monitoring(from, update)];
    var t, now := Task(peer, Receiving, all, all, [], []), OnlyClient(client);
    assert Sound(now) && RibOf(Means(now), sel) == map[];
    hide Sound, Means;
    if queue != [] {
      OtherTypesLeaveItAlone(client, peer, queue[0].update, Means(now), sel);
      t, now := TakesUpdate(client, device, 0, t, now);
    }
    assert t.queue == [Monitoring(from, update)];
    LeavesRoutes(client, from, update, Means(now));
    t, now := TakesUpdate(client, device, 0, t, now);
    StopsWithNothing(client, device, 0, t, now);
    s := Alone(client, 0, t.(phase := Done), now);
    RouteIsLeft(s, sel);
  }

  lemma RouteIsLeft(s: State, sel: TableSelector)
    requires Sound(s.store) && RibOf(Means(s.store), sel) != map[] && sel.ClientAddr() == s.client
    ensures sel.Session().Some? ==> !NothingLeft(s)
    ensures sel.Session().None? ==> !NoLocRibLeft(s)
  {
    var rib := RibOf(Means(s.store), sel);
    assert sel in s.store.tables && rib == s.store.ribs[s.store.tables[sel]];
    var p :| p in rib;
    assert HasRoute(s, sel, p);
  }

  /** A late task leaves a LocRib route behind, although the clean-up has removed the client. */
  lemma LateTaskLeavesALocRibRoute(client: SocketAddr, device: Device, first: PeerHeader, from: PeerHeader,
                                   update: BgpUpdate) returns (s: State)
    requires PeerUp(first) in device && RouteMonitoring(from, update) in device && from.peerType == 3
    requires AfterUpdate(map[], update) != map[]
    ensures Reaches(client, Nothing(), device, s) && Quiet(s) && s.cleanup == 3 && !NoLocRibLeft(s)
  {
    hide Reaches, OpsFor, AfterCalls, AfterUpdate;
    var sel, queue := LocRib(client, Selected), [Monitoring(from, update)];
    StartsByMonitoring(client, device, first, from, update);
    StreamEnds(client, device, from, queue);
    var t := Task(from, Receiving, queue, queue, [], []);
    CleansUpFirst(client, device, t);
    var now := Nothing();
    assert Sound(now) && RibOf(Means(now), sel) == map[];
    hide Sound, Means;
    LeavesRoutes(client, from, update, Means(now));
    t, now := TakesUpdate(client, device, 3, t, now);
    StopsWithNothing(client, device, 3, t, now);
    s := Alone(client, 3, t.(phase := Done), now);
    RouteIsLeft(s, sel);
  }

  /** The devices whose runs all end clean are exactly the harmless ones, and those that never get started. */
  lemma ExactlyHarmlessDevicesEndClean(client: SocketAddr, device: Device)
    ensures EndsClean(client, device) <==> Harmless(device) || NeverStarts(device)
  {
    hide NothingLeft, NoLocRibLeft, Fresh, RunsAs, AfterUpdate;
    if Harmless(device) || NeverStarts(device) {
      hide Harmless, HarmlessToLocRib, NeverStarts;
      forall store, s | Fresh(client, store) && Reaches(client, store, device, s) && Quiet(s)
        ensures s.client == client && NothingLeft(s)
      {
        var actions :| RunsAs(client, store, device, actions, s);
        NothingIsLeft(client, store, device, actions, s);
      }
    } else {
      var first :| PeerUp(first) in device;
      var from, update, peer: PeerHeader :|
        RouteMonitoring(from, update) in device && from.peerType == 0 && FromDevice(device, peer)
        && peer.peerAddress == from.peerAddress && peer.peerType != 0 && AfterUpdate(map[], update) != map[];
      hide Reaches, FromDevice;
      var s := MixedTypesLeaveARoute(client, device, first, peer, from, update);
      assert Fresh(client, Nothing()) by { NothingIsFresh(client); }
    }
  }

  /** And those whose runs leave no LocRib route are exactly the ones without any lasting LocRib update. */
  lemma ExactlyTheseLeaveNoLocRib(client: SocketAddr, device: Device)
    ensures EndsWithoutLocRib(client, device) <==> HarmlessToLocRib(device) || NeverStarts(device)
  {
    hide NothingLeft, NoLocRibLeft, Fresh, RunsAs, AfterUpdate;
    if HarmlessToLocRib(device) || NeverStarts(device) {
      hide Harmless, HarmlessToLocRib, NeverStarts;
      forall store, s | Fresh(client, store) && Reaches(client, store, device, s) && Quiet(s)
        ensures s.client == client && NoLocRibLeft(s)
      {
        var actions :| RunsAs(client, store, device, actions, s);
        NothingIsLeft(client, store, device, actions, s);
      }
    } else {
      var first :| PeerUp(first) in device;
      var from, update :|
        RouteMonitoring(from, update) in device && from.peerType == 3 && AfterUpdate(map[], update) != map[];
      hide Reaches;
      var s := LateTaskLeavesALocRibRoute(client, device, first, from, update);
      assert Fresh(client, Nothing()) by { NothingIsFresh(client); }
    }
  }

  lemma NothingIsFresh(client: SocketAddr)
    ensures Fresh(client, Nothing())
  {
  }
}
