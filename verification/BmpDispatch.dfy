/** Which messages of the stream the reader of a BMP client gives to which peer task. */
module BmpDispatch {
  import opened Prelude
  import opened NetKey
  import opened Routes
  import opened BgpUpdates
  import opened BmpCollector

  // ---- What the stream says ----------------------------------------------------------------

  /** What the reader has read, in order. */
  function Inputs(actions: seq<Action>): seq<Input> {
    if actions == [] then []
    else (if actions[0].Read? then [actions[0].input] else []) + Inputs(actions[1..])
  }

  lemma InputsFrom(past: seq<Input>, actions: seq<Action>)
    requires actions != []
    ensures past + Inputs(actions) ==
            (if actions[0].Read? then past + [actions[0].input] else past) + Inputs(actions[1..])
  {
  }

  /** The stream starts with an initiation and the peer-up message of a first peer. */
  predicate Greets(inputs: seq<Input>) {
    |inputs| >= 2 && inputs[0].Initiation? && inputs[1].PeerUp?
  }

  /** The messages that reach the loop. */
  function Dispatched(inputs: seq<Input>): seq<Input> {
    if Greets(inputs) then inputs[2..] else []
  }

  predicate Ends(input: Input) {
    input.Termination? || input.EndOfStream?
  }

  /** A peer as it was announced, and the messages for it. */
  datatype Given = Given(peer: PeerHeader, msgs: seq<Msg>)

  /** The tasks for one address, and whether the last of them is still sent messages. */
  datatype Log = Log(open: bool, tasks: seq<Given>)

  function Begin(log: Log, peer: PeerHeader): Log {
    Log(true, log.tasks + [Given(peer, [])])
  }

  function Say(log: Log, msg: Msg): Log
    requires log.tasks != []
  {
    var last := log.tasks[|log.tasks| - 1];
    log.(tasks := log.tasks[|log.tasks| - 1 := last.(msgs := last.msgs + [msg])])
  }

  function Heard(log: Log, input: Input, a: IpAddr): (log': Log)
    requires log.open ==> log.tasks != []
    ensures log'.open ==> log'.tasks != []
  {
    match input
    case PeerUp(peer) => if peer.peerAddress == a then Begin(log, peer) else log
    case RouteMonitoring(peer, update) =>
      if peer.peerAddress == a then Say(if log.open then log else Begin(log, peer), Monitoring(peer, update)) else log
    case PeerDown(address) => if address == a && log.open then Say(log, Down).(open := false) else log
    case _ => log
  }

  /**
   * The messages for one address. A task begins with a peer-up message, or with an update when no task
   * is open; it is given the updates, in order, and the peer-down message, which closes it.
   */
  function ForPeer(inputs: seq<Input>, a: IpAddr): (log: Log)
    ensures log.open ==> log.tasks != []
  {
    if inputs == [] then Log(false, []) else Heard(ForPeer(inputs[..|inputs| - 1], a), inputs[|inputs| - 1], a)
  }

  lemma OneMoreInput(inputs: seq<Input>, input: Input, a: IpAddr)
    requires Greets(inputs)
    ensures Greets(inputs + [input])
    ensures ForPeer(Dispatched(inputs + [input]), a) == Heard(ForPeer(Dispatched(inputs), a), input, a)
  {
    hide Heard;
    assert Dispatched(inputs + [input]) == Dispatched(inputs) + [input];
    assert (Dispatched(inputs) + [input])[..|Dispatched(inputs)|] == Dispatched(inputs);
  }

  // ---- What the tasks are given ------------------------------------------------------------

  /** The tasks for an address, in the order they were started, with what they were sent. */
  function TasksOf(tasks: seq<Task>, a: IpAddr): seq<Given> {
    if tasks == [] then []
    else
      var last := tasks[|tasks| - 1];
      TasksOf(tasks[..|tasks| - 1], a) + if last.peer.peerAddress == a then [Given(last.peer, last.sent)] else []
  }

  ghost predicate LastTask(tasks: seq<Task>, a: IpAddr, i: nat) {
    && i < |tasks| && tasks[i].peer.peerAddress == a
    && forall j :: i < j < |tasks| ==> tasks[j].peer.peerAddress != a
  }

  lemma TasksOfMore(tasks: seq<Task>, t: Task, a: IpAddr)
    ensures TasksOf(tasks + [t], a) ==
            TasksOf(tasks, a) + if t.peer.peerAddress == a then [Given(t.peer, t.sent)] else []
  {
    assert (tasks + [t])[..|tasks|] == tasks;
  }

  lemma {:induction false} SameTasks(tasks: seq<Task>, tasks': seq<Task>, a: IpAddr)
    requires |tasks'| == |tasks|
    requires forall i :: 0 <= i < |tasks| ==> tasks'[i].peer == tasks[i].peer
    requires forall i :: 0 <= i < |tasks| && tasks[i].peer.peerAddress == a ==> tasks'[i].sent == tasks[i].sent
    ensures TasksOf(tasks', a) == TasksOf(tasks, a)
  {
    if tasks != [] {
      SameTasks(tasks[..|tasks| - 1], tasks'[..|tasks| - 1], a);
    }
  }

  /** The last task for an address is sent one more message. */
  lemma {:induction false} TaskIsSent(tasks: seq<Task>, a: IpAddr, i: nat, t: Task, msg: Msg)
    requires LastTask(tasks, a, i) && t.peer == tasks[i].peer && t.sent == tasks[i].sent + [msg]
    ensures TasksOf(tasks, a) != []
    ensures TasksOf(tasks[i := t], a) == Say(Log(true, TasksOf(tasks, a)), msg).tasks
  {
    var n := |tasks| - 1;
    var front := tasks[..n];
    if i == n {
      assert tasks[i := t][..n] == front;
    } else {
      TaskIsSent(front, a, i, t, msg);
      assert tasks[i := t][..n] == front[i := t];
      assert tasks[n].peer.peerAddress != a;
    }
  }

  // ---- The invariant -----------------------------------------------------------------------

  /** The tasks and channels for an address are those of its log. */
  ghost predicate Follows(s: State, log: Log, a: IpAddr) {
    && TasksOf(s.tasks, a) == log.tasks
    && (!s.reader.Ended? ==> (a in s.channels <==> log.open))
    && (a in s.channels ==> LastTask(s.tasks, a, s.channels[a]))
  }

  lemma NotReadKeepsSent(s: State, act: Action, i: nat)
    requires Enabled(s, act) && !act.Read? && i < |s.tasks|
    ensures |Next(s, act).tasks| == |s.tasks|
    ensures Next(s, act).tasks[i].peer == s.tasks[i].peer && Next(s, act).tasks[i].sent == s.tasks[i].sent
  {
    hide OpsFor, ApplyOp, Foreign, WithSession, WithoutItsSession, WithoutItsTables, AfterCleanUp;
  }

  lemma NotReadKeepsChannels(s: State, act: Action)
    requires Enabled(s, act) && !act.Read?
    ensures var s' := Next(s, act);
            && |s'.tasks| == |s.tasks|
            && if s'.reader.Ended? then s'.channels == map[] || s'.channels == s.channels
               else !s.reader.Ended? && s'.channels == s.channels
  {
    hide OpsFor, ApplyOp, Foreign, WithSession, WithoutItsSession, WithoutItsTables, AfterCleanUp;
  }

  /** A step that reads nothing sends nothing new. */
  lemma NotReadFollows(s: State, act: Action, log: Log, a: IpAddr)
    requires Follows(s, log, a) && Enabled(s, act) && !act.Read?
    ensures Follows(Next(s, act), log, a)
  {
    hide Next, Enabled;
    var s' := Next(s, act);
    NotReadKeepsChannels(s, act);
    forall i | 0 <= i < |s.tasks|
      ensures s'.tasks[i].peer == s.tasks[i].peer && s'.tasks[i].sent == s.tasks[i].sent
    {
      NotReadKeepsSent(s, act, i);
    }
    SameTasks(s.tasks, s'.tasks, a);
  }

  lemma SpawnFollows(s: State, peer: PeerHeader, log: Log, a: IpAddr)
    requires s.reader.Reading? && Follows(s, log, a)
    ensures Follows(Spawn(s, peer), if peer.peerAddress == a then Begin(log, peer) else log, a)
  {
    TasksOfMore(s.tasks, Task(peer, Starting, [], [], [], []), a);
  }

  /** A message for the last task of its address. */
  lemma SendFollows(s: State, i: nat, msg: Msg, log: Log, a: IpAddr)
    requires s.reader.Reading? && i < |s.tasks| && LastTask(s.tasks, s.tasks[i].peer.peerAddress, i)
    requires Follows(s, log, a)
    ensures s.tasks[i].peer.peerAddress == a ==> log.tasks != []
    ensures Follows(StartSending(s, i, msg), if s.tasks[i].peer.peerAddress == a then Say(log, msg) else log, a)
  {
    var t := s.tasks[i].(sent := s.tasks[i].sent + [msg]);
    if s.tasks[i].peer.peerAddress == a {
      TaskIsSent(s.tasks, a, i, t, msg);
    } else {
      SameTasks(s.tasks, s.tasks[i := t], a);
    }
    hide TasksOf;
    assert forall j :: LastTask(s.tasks, a, j) ==> LastTask(s.tasks[i := t], a, j);
  }

  /** Channels lead to the last task of their address. */
  ghost predicate ChannelsLast(s: State) {
    forall a :: a in s.channels ==> LastTask(s.tasks, a, s.channels[a])
  }

  lemma ChannelsStayLast(s: State, act: Action)
    requires SendersOk(s) && ChannelsLast(s) && Enabled(s, act)
    ensures ChannelsLast(Next(s, act))
  {
    if act.Read? {
      ReadKeepsLast(s, act.input);
    } else {
      NotReadKeepsChannels(s, act);
      hide Next, Enabled, SendersOk;
      var s' := Next(s, act);
      forall i | 0 <= i < |s.tasks|
        ensures s'.tasks[i].peer == s.tasks[i].peer
      {
        NotReadKeepsSent(s, act, i);
      }
      assert forall a, i :: LastTask(s.tasks, a, i) ==> LastTask(s'.tasks, a, i);
    }
  }

  lemma ReadKeepsLast(s: State, input: Input)
    requires SendersOk(s) && ChannelsLast(s)
    ensures ChannelsLast(AfterRead(s, input))
  {
  }

  /** A channel to a task for the peer, which is started where there is none. */
  ghost function WithChannel(s: State, peer: PeerHeader): State {
    if peer.peerAddress in s.channels then s else Spawn(s, peer)
  }

  lemma ChannelFollows(s: State, peer: PeerHeader, log: Log, a: IpAddr)
    requires s.reader.Reading? && ChannelsLast(s) && Follows(s, log, a)
    ensures var s1 := WithChannel(s, peer);
            && s1.reader == s.reader
            && peer.peerAddress in s1.channels
            && LastTask(s1.tasks, peer.peerAddress, s1.channels[peer.peerAddress])
            && Follows(s1, if peer.peerAddress == a && !log.open then Begin(log, peer) else log, a)
  {
    hide TasksOf;
    SpawnFollows(s, peer, log, a);
  }

  lemma MonitoringFollows(s: State, peer: PeerHeader, update: BgpUpdate, log: Log, a: IpAddr)
    requires s.reader.Reading? && ChannelsLast(s) && Follows(s, log, a) && (log.open ==> log.tasks != [])
    ensures Follows(AfterRead(s, RouteMonitoring(peer, update)), Heard(log, RouteMonitoring(peer, update), a), a)
  {
    hide TasksOf, StartSending;
    var s1 := WithChannel(s, peer);
    var log1 := if peer.peerAddress == a && !log.open then Begin(log, peer) else log;
    ChannelFollows(s, peer, log, a);
    hide WithChannel, Follows, ChannelsLast;
    SendFollows(s1, s1.channels[peer.peerAddress], Monitoring(peer, update), log1, a);
  }

  lemma DownFollows(s: State, address: IpAddr, log: Log, a: IpAddr)
    requires s.reader.Reading? && ChannelsLast(s) && Follows(s, log, a) && (log.open ==> log.tasks != [])
    ensures Follows(AfterRead(s, PeerDown(address)), Heard(log, PeerDown(address), a), a)
  {
    if address in s.channels {
      var s1 := s.(channels := s.channels - {address});
      var log1 := if address == a then log.(open := false) else log;
      assert Follows(s1, log1, a);
      assert LastTask(s1.tasks, address, s.channels[address]);
      hide Follows, TasksOf, StartSending;
      SendFollows(s1, s.channels[address], Down, log1, a);
    }
  }

  /** How far the reader is, by what it has read. */
  ghost predicate StageOk(s: State, inputs: seq<Input>) {
    match s.reader
    case AwaitInitiation => inputs == []
    case AwaitPeerUp => |inputs| == 1 && inputs[0].Initiation?
    case Ended => true
    case _ => Greets(inputs) && forall k :: 2 <= k < |inputs| ==> !Ends(inputs[k])
  }

  lemma StageStep(s: State, act: Action, inputs: seq<Input>)
    requires StageOk(s, inputs) && Enabled(s, act)
    ensures StageOk(Next(s, act), if act.Read? then inputs + [act.input] else inputs)
  {
    hide OpsFor, ApplyOp, Foreign, WithSession, WithoutItsSession, WithoutItsTables, AfterCleanUp;
    if act.Read? {
      ReadStage(s, act.input, inputs);
    }
  }

  lemma ReadStage(s: State, input: Input, inputs: seq<Input>)
    requires StageOk(s, inputs) && Enabled(s, Read(input))
    ensures StageOk(AfterRead(s, input), inputs + [input])
  {
    var all := inputs + [input];
    assert all[|inputs|] == input && forall k :: 0 <= k < |inputs| ==> all[k] == inputs[k];
  }

  lemma ReadFollows(s: State, input: Input, inputs: seq<Input>, a: IpAddr)
    requires ChannelsLast(s) && StageOk(s, inputs) && Follows(s, ForPeer(Dispatched(inputs), a), a)
    requires Enabled(s, Read(input))
    ensures Follows(AfterRead(s, input), ForPeer(Dispatched(inputs + [input]), a), a)
  {
    hide ForPeer, ChannelsLast, TasksOf, LastTask;
    var log := ForPeer(Dispatched(inputs), a);
    if s.reader.Reading? {
      OneMoreInput(inputs, input, a);
      match input {
        case RouteMonitoring(peer, update) => MonitoringFollows(s, peer, update, log, a);
        case PeerDown(address) => DownFollows(s, address, log, a);
        case PeerUp(peer) => SpawnFollows(s, peer, log, a);
        case _ =>
      }
    } else {
      assert Dispatched(inputs + [input]) == [] && Dispatched(inputs) == [];
    }
  }

  /** All that a step keeps about an address and what has been read. */
  ghost predicate Faithful(s: State, inputs: seq<Input>, a: IpAddr) {
    SendersOk(s) && ChannelsLast(s) && StageOk(s, inputs) && Follows(s, ForPeer(Dispatched(inputs), a), a)
  }

  lemma FaithfulKept(s: State, act: Action, inputs: seq<Input>, a: IpAddr)
    requires Transport(s) && Faithful(s, inputs, a) && Enabled(s, act)
    ensures Faithful(Next(s, act), if act.Read? then inputs + [act.input] else inputs, a)
  {
    hide ChannelsLast, StageOk, Follows, ForPeer, AfterRead, TaskOk, SendersOk;
    TransportKept(s, act);
    ChannelsStayLast(s, act);
    StageStep(s, act, inputs);
    if act.Read? {
      ReadFollows(s, act.input, inputs, a);
    } else {
      NotReadFollows(s, act, ForPeer(Dispatched(inputs), a), a);
    }
  }

  lemma {:induction false} RunIsFaithful(s: State, past: seq<Input>, actions: seq<Action>, s': State, a: IpAddr)
    requires Transport(s) && Faithful(s, past, a) && Runs(s, actions, s')
    ensures Faithful(s', past + Inputs(actions), a)
    decreases |actions|
  {
    hide Faithful, Next, Enabled, Transport;
    if actions == [] {
      assert past + Inputs(actions) == past;
    } else {
      var more := if actions[0].Read? then past + [actions[0].input] else past;
      TransportKept(s, actions[0]);
      FaithfulKept(s, actions[0], past, a);
      RunIsFaithful(Next(s, actions[0]), more, actions[1..], s', a);
      InputsFrom(past, actions);
    }
  }

  // ---- Whole runs --------------------------------------------------------------------------

  lemma StartsFaithful(client: SocketAddr, store: Shared, a: IpAddr)
    ensures Transport(Init(client, store)) && Faithful(Init(client, store), [], a)
  {
  }

  /**
   * On every run and for every address: the tasks for the address, in the order they were started, have
   * been sent exactly the messages that the stream has for them.
   */
  lemma TasksAreSentWhatIsRead(client: SocketAddr, store: Shared, actions: seq<Action>, s: State, a: IpAddr)
    requires Runs(Init(client, store), actions, s)
    ensures TasksOf(s.tasks, a) == ForPeer(Dispatched(Inputs(actions)), a).tasks
    ensures !s.reader.Ended? ==> (a in s.channels <==> ForPeer(Dispatched(Inputs(actions)), a).open)
  {
    hide Transport, Runs, TasksOf, ForPeer, Dispatched;
    StartsFaithful(client, store, a);
    RunIsFaithful(Init(client, store), [], actions, s, a);
    assert [] + Inputs(actions) == Inputs(actions);
  }

  /** The stream does not start as it must, or it has come to its end. */
  ghost predicate Over(inputs: seq<Input>) {
    || (inputs != [] && !inputs[0].Initiation?)
    || (|inputs| >= 2 && !inputs[1].PeerUp?)
    || exists k :: 2 <= k < |inputs| && Ends(inputs[k])
  }

  lemma {:induction false} OverOrCancelled(s: State, past: seq<Input>, actions: seq<Action>, s': State)
    requires StageOk(s, past) && Runs(s, actions, s') && Cancel !in actions
    requires s.reader.Ended? ==> Over(past)
    ensures StageOk(s', past + Inputs(actions))
    ensures s'.reader.Ended? ==> Over(past + Inputs(actions))
    decreases |actions|
  {
    hide StageOk, Next, Enabled, Over;
    if actions == [] {
      assert past + Inputs(actions) == past;
    } else {
      InputsFrom(past, actions);
      hide Inputs;
      var more := if actions[0].Read? then past + [actions[0].input] else past;
      OverStep(s, actions[0], past);
      StageStep(s, actions[0], past);
      OverOrCancelled(Next(s, actions[0]), more, actions[1..], s');
    }
  }

  lemma OverStep(s: State, act: Action, inputs: seq<Input>)
    requires StageOk(s, inputs) && Enabled(s, act) && act != Cancel && (s.reader.Ended? ==> Over(inputs))
    ensures Next(s, act).reader.Ended? ==> Over(if act.Read? then inputs + [act.input] else inputs)
  {
    hide OpsFor, ApplyOp, Foreign, WithSession, WithoutItsSession, WithoutItsTables, AfterCleanUp;
    if act.Read? {
      assert (inputs + [act.input])[|inputs|] == act.input;
    }
  }

  /** Unless it is cancelled, the reader ends exactly when the stream is over. */
  lemma ReaderEndsWithTheStream(client: SocketAddr, store: Shared, actions: seq<Action>, s: State)
    requires Runs(Init(client, store), actions, s) && Cancel !in actions
    ensures s.reader.Ended? <==> Over(Inputs(actions))
  {
    hide Runs;
    OverOrCancelled(Init(client, store), [], actions, s);
    assert [] + Inputs(actions) == Inputs(actions);
  }

  /** On every run the reader takes any message next, or waits for room in a queue, until it has ended. */
  lemma ReaderCanStep(client: SocketAddr, store: Shared, actions: seq<Action>, s: State, input: Input)
    requires Runs(Init(client, store), actions, s)
    ensures s.reader.Ended? || s.reader.Sending? || Enabled(s, Read(input))
    ensures s.reader.Sending? ==>
              s.reader.task < |s.tasks| && (Enabled(s, Deliver) <==> |s.tasks[s.reader.task].queue| < 16)
    ensures if s.reader.Ended? then s.cleanup < 3 ==> Enabled(s, CleanUp) else Enabled(s, Cancel)
  {
    RunsKeepTransport(Init(client, store), actions, s);
  }

  lemma {:induction false} TaskAt(tasks: seq<Task>, i: nat, a: IpAddr)
    requires i < |tasks| && tasks[i].peer.peerAddress == a
    ensures var j := |TasksOf(tasks[..i], a)|;
            j < |TasksOf(tasks, a)| && TasksOf(tasks, a)[j] == Given(tasks[i].peer, tasks[i].sent)
  {
    var n := |tasks| - 1;
    if i < n {
      TaskAt(tasks[..n], i, a);
      assert tasks[..n][..i] == tasks[..i];
    }
  }

  /**
   * On every run a task that is done has made the calls for exactly the messages that the stream has
   * for it, in order and once, unless the reader was stopped in the middle of a send to it.
   */
  lemma StreamIsApplied(client: SocketAddr, store: Shared, actions: seq<Action>, s: State, i: nat)
    requires Runs(Init(client, store), actions, s) && i < |s.tasks|
    requires s.tasks[i].phase.Done? && !(s.lost.Some? && s.lost.value.0 == i)
    ensures var t, a := s.tasks[i], s.tasks[i].peer.peerAddress;
            var all, j := ForPeer(Dispatched(Inputs(actions)), a).tasks, |TasksOf(s.tasks[..i], a)|;
            j < |all| && all[j].peer == t.peer && t.written == AllOps(client, all[j].msgs)
  {
    hide AllOps, Runs, ForPeer, Dispatched;
    var a := s.tasks[i].peer.peerAddress;
    TasksAreSentWhatIsRead(client, store, actions, s, a);
    TasksApplyInOrder(client, store, actions, s, i);
    TaskAt(s.tasks, i, a);
  }
}
