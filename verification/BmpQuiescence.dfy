/** Once the reader of a BMP client has ended, its peer tasks run out of work. */
module BmpQuiescence {
  import opened Prelude
  import opened Routes
  import opened BgpUpdates
  import opened BmpCollector
  import opened BmpCleanUp

  // ---- What there is left to do ------------------------------------------------------------

  /** Each call takes two steps; the message itself is received and left behind. */
  function MsgWork(client: SocketAddr, msg: Msg): nat {
    if msg.Down? then 1 else 2 * |OpsFor(client, msg.peer, msg.update)| + 2
  }

  function QueueWork(client: SocketAddr, queue: seq<Msg>): nat {
    if queue == [] then 0 else MsgWork(client, queue[0]) + QueueWork(client, queue[1..])
  }

  function PhaseWork(phase: Phase): nat {
    match phase
    case Starting => 4
    case Receiving => 3
    case Applying(ops, table) => 4 + 2 * |ops| - if table.Some? && ops != [] then 1 else 0
    case Stopping => 2
    case Clearing => 1
    case Done => 0
  }

  function TaskWork(client: SocketAddr, t: Task): nat {
    PhaseWork(t.phase) + QueueWork(client, t.queue)
  }

  function TasksWork(client: SocketAddr, tasks: seq<Task>): nat {
    if tasks == [] then 0
    else TasksWork(client, tasks[..|tasks| - 1]) + TaskWork(client, tasks[|tasks| - 1])
  }

  /** A bound on the steps that the tasks and the clean-up can still make. */
  function Work(s: State): nat {
    TasksWork(s.client, s.tasks) + if s.cleanup < 3 then 3 - s.cleanup else 0
  }

  /** The steps of this client; other clients may go on for ever. */
  predicate Own(a: Action) {
    !a.Others?
  }

  function OwnSteps(actions: seq<Action>): nat {
    if actions == [] then 0 else (if Own(actions[0]) then 1 else 0) + OwnSteps(actions[1..])
  }

  ghost predicate Stuck(s: State) {
    forall a :: Own(a) ==> !Enabled(s, a)
  }

  // ---- Each step does some of it -----------------------------------------------------------

  lemma {:induction false} OneTaskWorks(client: SocketAddr, tasks: seq<Task>, i: nat, t: Task)
    requires i < |tasks|
    ensures TasksWork(client, tasks[i := t]) + TaskWork(client, tasks[i]) ==
            TasksWork(client, tasks) + TaskWork(client, t)
  {
    hide TaskWork;
    var last := |tasks| - 1;
    if i == last {
      assert tasks[i := t][..last] == tasks[..last];
    } else {
      OneTaskWorks(client, tasks[..last], i, t);
      assert tasks[i := t][..last] == tasks[..last][i := t];
    }
  }

  lemma ReceiveLowersWork(s: State, i: nat)
    requires Enabled(s, Receive(i))
    ensures TaskWork(s.client, AfterReceive(s, i).tasks[i]) < TaskWork(s.client, s.tasks[i])
  {
    hide OpsFor;
  }

  lemma TaskStepLowersWork(s: State, a: Action, i: nat)
    requires Enabled(s, a)
    requires a in {Start(i), Receive(i), HangUp(i), Fetch(i), Write(i), Applied(i), RemoveSession(i), RemoveTables(i)}
    ensures i < |s.tasks| && |Next(s, a).tasks| == |s.tasks|
    ensures Next(s, a) == s.(tasks := s.tasks[i := Next(s, a).tasks[i]], store := Next(s, a).store)
    ensures TaskWork(s.client, Next(s, a).tasks[i]) < TaskWork(s.client, s.tasks[i])
  {
    hide OpsFor, MsgWork, ApplyOp, WithSession, WithoutItsSession, WithoutItsTables;
    if a.Receive? {
      ReceiveLowersWork(s, i);
    }
  }

  /** After the reader has ended, every own step is one of a task or of the clean-up, and some work is done. */
  lemma StepLowersWork(s: State, a: Action)
    requires s.reader.Ended? && Enabled(s, a)
    ensures Next(s, a).reader.Ended? && !a.Read?
    ensures if Own(a) then Work(Next(s, a)) < Work(s) else Work(Next(s, a)) == Work(s)
  {
    hide TasksWork, TaskWork, Foreign;
    if a.Others? || a.CleanUp? {
      hide AfterCleanUp;
    } else {
      hide Next;
      var i := a.i;
      TaskStepLowersWork(s, a, i);
      OneTaskWorks(s.client, s.tasks, i, Next(s, a).tasks[i]);
    }
  }

  /** However the steps are scheduled, there are no more of them than there is work. */
  lemma {:induction false} StepsAreBounded(s: State, actions: seq<Action>, s': State)
    requires s.reader.Ended? && Runs(s, actions, s')
    ensures s'.reader.Ended? && forall k :: 0 <= k < |actions| ==> !actions[k].Read?
    ensures OwnSteps(actions) + Work(s') <= Work(s)
    decreases |actions|
  {
    hide Work, Next, Enabled, Own;
    if actions != [] {
      StepLowersWork(s, actions[0]);
      StepsAreBounded(Next(s, actions[0]), actions[1..], s');
    }
  }

  // ---- No task is ever stuck ---------------------------------------------------------------

  /** Once the reader has ended, a task that is not done can make a step. */
  lemma TaskCanStep(s: State, i: nat) returns (a: Action)
    requires Transport(s) && LookedUp(s) && s.reader.Ended? && i < |s.tasks| && !s.tasks[i].phase.Done?
    ensures Own(a) && Enabled(s, a)
  {
    assert CanWrite(s.store, s.tasks[i].phase);
    match s.tasks[i].phase
    case Starting => a := Start(i);
    case Receiving => a := if s.tasks[i].queue == [] then HangUp(i) else Receive(i);
    case Applying(ops, table) =>
      a := if ops == [] then Applied(i) else if table.None? then Fetch(i) else Write(i);
    case Stopping => a := RemoveSession(i);
    case Clearing => a := RemoveTables(i);
  }

  /** Where nothing can move on, everything is done. */
  lemma StuckIsQuiet(s: State)
    requires Transport(s) && LookedUp(s) && s.reader.Ended? && Stuck(s)
    ensures Quiet(s) && s.cleanup >= 3
  {
    hide Transport, LookedUp;
    assert !Enabled(s, CleanUp);
    forall i | 0 <= i < |s.tasks|
      ensures s.tasks[i].phase.Done?
    {
      if !s.tasks[i].phase.Done? {
        var a := TaskCanStep(s, i);
      }
    }
  }

  // ---- Whole runs --------------------------------------------------------------------------

  lemma {:induction false} RunsAppend(s: State, actions: seq<Action>, s1: State, more: seq<Action>, s': State)
    requires Runs(s, actions, s1) && Runs(s1, more, s')
    ensures Runs(s, actions + more, s')
    decreases |actions|
  {
    hide Next, Enabled;
    if actions == [] {
      assert actions + more == more;
    } else {
      RunsAppend(Next(s, actions[0]), actions[1..], s1, more, s');
      assert (actions + more)[1..] == actions[1..] + more;
    }
  }

  lemma RunsAsAppend(client: SocketAddr, store: Shared, device: Device, actions: seq<Action>, s: State,
                     more: seq<Action>, s': State)
    requires RunsAs(client, store, device, actions, s) && s.reader.Ended? && Runs(s, more, s')
    ensures s'.reader.Ended? && RunsAs(client, store, device, actions + more, s')
  {
    hide Runs;
    StepsAreBounded(s, more, s');
    RunsAppend(Init(client, store), actions, s, more, s');
  }

  /**
   * However the tasks and the clean-up are scheduled after the reader has ended, they stop after a
   * bounded number of steps, and only when all are done; a harmless device then has left nothing.
   */
  lemma EveryScheduleEndsClean(client: SocketAddr, store: Shared, device: Device, actions: seq<Action>, s: State,
                               more: seq<Action>, s': State)
    requires Fresh(client, store) && RunsAs(client, store, device, actions, s) && s.reader.Ended?
    requires Runs(s, more, s')
    ensures OwnSteps(more) <= Work(s)
    ensures Stuck(s') ==> Quiet(s') && s'.cleanup >= 3
    ensures Stuck(s') && Harmless(device) ==> NothingLeft(s')
    ensures Stuck(s') && HarmlessToLocRib(device) ==> NoLocRibLeft(s')
  {
    hide Runs, Transport, LookedUp, Harmless, HarmlessToLocRib, NothingLeft, NoLocRibLeft, Stuck, Work, Quiet;
    StepsAreBounded(s, more, s');
    RunsAsAppend(client, store, device, actions, s, more, s');
    StartsLookedUp(client, store);
    RunsKeepTransport(Init(client, store), actions + more, s');
    RunsKeepLookedUp(Init(client, store), actions + more, s');
    if Stuck(s') {
      StuckIsQuiet(s');
      NothingIsLeft(client, store, device, actions + more, s');
    }
  }

  lemma StartsLookedUp(client: SocketAddr, store: Shared)
    requires Fresh(client, store)
    ensures LookedUp(Init(client, store)) && Transport(Init(client, store))
  {
  }

  /** The client alone gets there. */
  lemma {:induction false} SomeScheduleEnds(s: State) returns (more: seq<Action>, s': State)
    requires s.reader.Ended?
    ensures Runs(s, more, s') && Stuck(s') && forall k :: 0 <= k < |more| ==> Own(more[k])
    decreases Work(s)
  {
    hide Next, Enabled, Work;
    if Stuck(s) {
      more, s' := [], s;
    } else {
      var a :| Own(a) && Enabled(s, a);
      StepLowersWork(s, a);
      var rest, end := SomeScheduleEnds(Next(s, a));
      more, s' := [a] + rest, end;
      assert more[1..] == rest;
    }
  }
}
