/** One client connection of the server (src/server.c): its command queue, the
    task_in_flight flag and the reference count, under every interleaving of the event
    loop and the pool's workers.  Each region under client_lock or clients_lock is one step. */
module ClientQueue {

  type Command = seq<int>

  /** Where a submitted server_worker_client_task is. */
  datatype Phase =
    | Queued                     // in the pool's queue
    | AtLoop                     // about to look for a command
    | Executing(cmd: Command)    // running one, no lock held
    | Closing                    // about to call server_close_client
    | Releasing                  // about to call client_release_ref

  /** `arrived`, `started` and `refused` are history: all commands read from the socket, those
      handed to protocol_execute_command, and whether the pool refused the last task submitted. */
  datatype Client = Client(
    open: bool,                  // fd >= 0
    closed: bool,
    listed: bool,                // linked in server->clients
    inFlight: bool,
    refCount: int,
    queue: seq<Command>,
    tasks: map<nat, Phase>,
    nextTask: nat,
    freed: bool,
    arrived: seq<Command>,
    started: seq<Command>,
    refused: bool)

  datatype Action =
    | Arrive(cmd: Command, accepted: bool)   // client_handle_read's region; the pool's answer
    | CloseByLoop                            // server_close_client from the event loop
    | Begin(t: nat)
    | Take(t: nat)
    | Idle(t: nat)
    | Finish(t: nat, close: bool, detach: bool)
    | CloseSelf(t: nat)                      // server_close_client from the worker
    | Drop(t: nat)                           // client_release_ref

  function Accepted(): Client {
    Client(true, false, true, false, 1, [], map[], 0, false, [], [], false)
  }

  predicate At(c: Client, t: nat, ph: Phase) {
    t in c.tasks && c.tasks[t] == ph
  }

  predicate Enabled(c: Client, a: Action) {
    match a
    case Arrive(_, _) => c.listed
    case CloseByLoop => c.listed
    case Begin(t) => At(c, t, Queued)
    case Take(t) => At(c, t, AtLoop) && !c.closed && c.queue != []
    case Idle(t) => At(c, t, AtLoop) && (c.closed || c.queue == [])
    case Finish(t, _, _) => t in c.tasks && c.tasks[t].Executing?
    case CloseSelf(t) => At(c, t, Closing)
    case Drop(t) => At(c, t, Releasing)
  }

  function Move(c: Client, t: nat, ph: Phase): Client {
    c.(tasks := c.tasks[t := ph])
  }

  /** server_close_client: only the first call on an open descriptor does anything. */
  function Close(c: Client): Client {
    if !c.open then c
    else c.(closed := true, open := false, listed := false, refCount := c.refCount - 1, freed := c.refCount == 1)
  }

  function Next(c: Client, a: Action): Client
    requires Enabled(c, a)
  {
    match a
    case Arrive(cmd, accepted) =>
      var d := c.(queue := c.queue + [cmd], arrived := c.arrived + [cmd]);
      if c.inFlight || c.closed then d
      else if accepted then
        d.(inFlight := true, refCount := c.refCount + 1, refused := false,
           tasks := c.tasks[c.nextTask := Queued], nextTask := c.nextTask + 1)
      else d.(refused := true)
    case CloseByLoop => Close(c)
    case Begin(t) => Move(c, t, AtLoop)
    case Take(t) =>
      Move(c, t, Executing(c.queue[0])).(queue := c.queue[1..], started := c.started + [c.queue[0]])
    case Idle(t) => Move(c, t, Releasing).(inFlight := false)
    case Finish(t, close, detach) =>
      Move(c, t, if close || detach then Closing else AtLoop).(open := c.open && !detach)
    case CloseSelf(t) => Move(Close(c), t, Releasing)
    case Drop(t) =>
      c.(tasks := c.tasks - {t}, refCount := c.refCount - 1, freed := c.refCount == 1)
  }

  /** Phases in which a task owns the client's command stream. */
  predicate Active(ph: Phase) {
    !ph.Releasing?
  }

  predicate OneActive(tasks: map<nat, Phase>) {
    forall t, u | t in tasks && u in tasks && Active(tasks[t]) && Active(tasks[u]) :: t == u
  }

  ghost predicate SomeActive(tasks: map<nat, Phase>) {
    exists t :: t in tasks && Active(tasks[t])
  }

  ghost predicate RefInv(c: Client) {
    && c.refCount == (if c.listed then 1 else 0) + |c.tasks|
    && (c.freed <==> c.refCount == 0)
    && (c.open ==> c.listed)
    && (c.closed <==> !c.listed)
    && (forall t | t in c.tasks :: t < c.nextTask)
  }

  ghost predicate WorkerInv(c: Client) {
    && OneActive(c.tasks)
    && (SomeActive(c.tasks) ==> c.inFlight)
    && (c.inFlight && c.open ==> SomeActive(c.tasks))
  }

  ghost predicate QueueInv(c: Client) {
    && c.arrived == c.started + c.queue
    && (c.open && c.queue != [] && !c.refused ==> c.inFlight)
    && (c.open && c.refused ==> !c.inFlight)
  }

  ghost predicate Inv(c: Client) {
    RefInv(c) && WorkerInv(c) && QueueInv(c)
  }

  lemma SizeOfUpdate(m: map<nat, Phase>, t: nat, ph: Phase)
    ensures |m[t := ph]| == if t in m then |m| else |m| + 1
    ensures t in m ==> |m - {t}| == |m| - 1
  {
    assert m[t := ph].Keys == m.Keys + {t};
    assert (m - {t}).Keys == m.Keys - {t};
    assert |m| == |m.Keys| && |m[t := ph]| == |m[t := ph].Keys| && |m - {t}| == |(m - {t}).Keys|;
  }

  lemma RefMove(c: Client, t: nat, ph: Phase)
    requires RefInv(c) && t in c.tasks
    ensures RefInv(Move(c, t, ph))
  {
    SizeOfUpdate(c.tasks, t, ph);
  }

  lemma RefArrive(c: Client, cmd: Command, accepted: bool)
    requires RefInv(c) && c.listed
    ensures RefInv(Next(c, Arrive(cmd, accepted)))
  {
    SizeOfUpdate(c.tasks, c.nextTask, Queued);
  }

  lemma RefDrop(c: Client, t: nat)
    requires RefInv(c) && At(c, t, Releasing)
    ensures RefInv(Next(c, Drop(t)))
  {
    SizeOfUpdate(c.tasks, t, Releasing);
  }

  lemma RefKept(c: Client, a: Action)
    requires RefInv(c) && Enabled(c, a)
    ensures RefInv(Next(c, a))
  {
    match a {
      case Arrive(cmd, accepted) => RefArrive(c, cmd, accepted);
      case CloseByLoop =>
      case Begin(t) => RefMove(c, t, AtLoop);
      case Take(t) => RefMove(c, t, Executing(c.queue[0]));
      case Idle(t) => RefMove(c, t, Releasing);
      case Finish(t, close, detach) => RefMove(c, t, if close || detach then Closing else AtLoop);
      case CloseSelf(t) => RefMove(Close(c), t, Releasing);
      case Drop(t) => RefDrop(c, t);
    }
  }

  /** A task that moves while staying active remains the only active one. */
  lemma MoveActive(m: map<nat, Phase>, t: nat, ph: Phase)
    requires OneActive(m) && t in m && Active(m[t])
    ensures OneActive(m[t := ph])
    ensures SomeActive(m[t := ph]) <==> Active(ph)
  {
    var m' := m[t := ph];
    if Active(ph) {
      assert t in m' && Active(m'[t]);
    }
  }

  lemma WorkerKept(c: Client, a: Action)
    requires RefInv(c) && WorkerInv(c) && Enabled(c, a)
    ensures WorkerInv(Next(c, a))
  {
    match a {
      case Arrive(_, accepted) =>
        var c' := Next(c, a);
        if !c.inFlight && !c.closed && accepted {
          assert c.nextTask in c'.tasks && Active(c'.tasks[c.nextTask]);
        }
      case CloseByLoop =>
      case Begin(t) => MoveActive(c.tasks, t, AtLoop);
      case Take(t) => MoveActive(c.tasks, t, Executing(c.queue[0]));
      case Idle(t) => MoveActive(c.tasks, t, Releasing);
      case Finish(t, close, detach) => MoveActive(c.tasks, t, if close || detach then Closing else AtLoop);
      case CloseSelf(t) => MoveActive(c.tasks, t, Releasing);
      case Drop(t) =>
        var c' := Next(c, a);
        if SomeActive(c.tasks) {
          var u :| u in c.tasks && Active(c.tasks[u]);
          assert u in c'.tasks && Active(c'.tasks[u]);
        }
    }
  }

  lemma QueueKept(c: Client, a: Action)
    requires RefInv(c) && WorkerInv(c) && QueueInv(c) && Enabled(c, a)
    ensures QueueInv(Next(c, a))
  {
    match a {
      case Arrive(cmd, _) => assert c.started + (c.queue + [cmd]) == c.arrived + [cmd];
      case Take(t) => assert c.started + [c.queue[0]] + c.queue[1..] == c.started + c.queue;
      case _ =>
    }
  }

  lemma InvNext(c: Client, a: Action)
    requires Inv(c) && Enabled(c, a)
    ensures Inv(Next(c, a))
  {
    hide RefInv, WorkerInv, QueueInv, Next, Enabled;
    RefKept(c, a);
    WorkerKept(c, a);
    QueueKept(c, a);
  }

  ghost predicate Reaches(c: Client, acts: seq<Action>, d: Client)
    decreases |acts|
  {
    if acts == [] then c == d
    else Enabled(c, acts[0]) && Reaches(Next(c, acts[0]), acts[1..], d)
  }

  lemma {:induction false} InvReached(c: Client, acts: seq<Action>, d: Client)
    requires Inv(c) && Reaches(c, acts, d)
    ensures Inv(d)
    decreases |acts|
  {
    hide Inv, Next, Enabled;
    if acts != [] {
      InvNext(c, acts[0]);
      InvReached(Next(c, acts[0]), acts[1..], d);
    }
  }

  /** Over every interleaving: at most one worker owns the client, commands start in arrival order
      with none lost or repeated, and the reference count is list membership plus live tasks. */
  lemma ClientSafety(acts: seq<Action>, c: Client)
    requires Reaches(Accepted(), acts, c)
    ensures OneActive(c.tasks)
    ensures c.started <= c.arrived && c.arrived == c.started + c.queue
    ensures c.refCount == (if c.listed then 1 else 0) + |c.tasks|
  {
    assert Inv(Accepted());
    InvReached(Accepted(), acts, c);
    hide Reaches;
  }

  /** A freed client is out of the list, no task refers to it, and nothing can touch it again:
      it is freed once, and never while a worker still holds its reference. */
  lemma FreedIsFinal(acts: seq<Action>, c: Client, a: Action)
    requires Reaches(Accepted(), acts, c)
    ensures c.freed <==> !c.listed && c.tasks == map[]
    ensures c.freed ==> !Enabled(c, a)
  {
    assert Inv(Accepted());
    InvReached(Accepted(), acts, c);
    hide Reaches;
    if c.freed {
      assert |c.tasks| == 0;
    }
  }

  /** A pending command of an open client has a worker on its way if and only if the pool accepted
      the last task submitted for the client: the next accepted one picks everything up again. */
  lemma PendingHasWorkerIff(acts: seq<Action>, c: Client)
    requires Reaches(Accepted(), acts, c)
    requires c.open && c.queue != []
    ensures SomeActive(c.tasks) <==> !c.refused
    ensures SomeActive(c.tasks) <==> c.inFlight
  {
    assert Inv(Accepted());
    InvReached(Accepted(), acts, c);
    hide Reaches;
  }

  /** After a refusal (a full pool) a command can be left behind with no worker at all. */
  lemma RefusalStalls(cmd: Command)
    ensures exists acts, c :: Reaches(Accepted(), acts, c) && c.open && c.queue == [cmd] && c.tasks == map[]
  {
    var a := Arrive(cmd, false);
    var c := Next(Accepted(), a);
    assert Reaches(c, [a][1..], c);
    assert Reaches(Accepted(), [a], c);
    assert [] + [cmd] == [cmd];
  }

  /** A connection handed over to a replica by its worker: no descriptor, yet still listed. */
  predicate Detached(c: Client) {
    c.listed && !c.open
  }

  /** What ends an open connection leaves the client detached exactly when it is a detach;
      server_close_client, which follows, then finds no descriptor and leaves the list alone. */
  lemma DetachedBy(c: Client, a: Action)
    requires c.open && c.listed && Enabled(c, a) && !Next(c, a).open
    ensures Detached(Next(c, a)) <==> a.Finish? && a.detach
  {
  }

  lemma {:induction false} StaysDetached(c: Client, acts: seq<Action>, d: Client)
    requires Inv(c) && Detached(c) && Reaches(c, acts, d)
    ensures Detached(d) && !d.freed
    decreases |acts|
  {
    hide WorkerInv, QueueInv;
    if acts != [] {
      InvNext(c, acts[0]);
      StaysDetached(Next(c, acts[0]), acts[1..], d);
    }
  }

  /** No task is left that could take a command, and none will be submitted. */
  predicate Stopped(c: Client) {
    c.closed || (c.inFlight && forall t | t in c.tasks :: c.tasks[t].Closing? || c.tasks[t].Releasing?)
  }

  lemma StoppedNext(c: Client, a: Action)
    requires RefInv(c) && Stopped(c) && Enabled(c, a)
    ensures Stopped(Next(c, a)) && Next(c, a).started == c.started
  {
  }

  lemma {:induction false} StaysStopped(c: Client, acts: seq<Action>, d: Client)
    requires Inv(c) && Stopped(c) && Reaches(c, acts, d)
    ensures d.started == c.started
    decreases |acts|
  {
    hide WorkerInv, QueueInv, Stopped, Next, Enabled;
    if acts != [] {
      InvNext(c, acts[0]);
      StoppedNext(c, acts[0]);
      StaysStopped(Next(c, acts[0]), acts[1..], d);
    }
  }

  /** Once a command has asked for the connection to be closed or detached, no command that came
      behind it is ever started, under any interleaving. */
  lemma NothingAfterClose(acts: seq<Action>, c: Client, t: nat, close: bool, detach: bool, more: seq<Action>, d: Client)
    requires Reaches(Accepted(), acts, c) && Enabled(c, Finish(t, close, detach)) && (close || detach)
    requires Reaches(Next(c, Finish(t, close, detach)), more, d)
    ensures d.started == c.started
  {
    InvAccepted();
    InvReached(Accepted(), acts, c);
    InvNext(c, Finish(t, close, detach));
    hide Reaches, QueueInv;
    StaysStopped(Next(c, Finish(t, close, detach)), more, d);
  }

  /** A command is started at once or later if the connection stays open: a worker that neither
      closes nor detaches goes back for the next command. */
  lemma WorkerGoesOn(c: Client, t: nat)
    requires Enabled(c, Finish(t, false, false))
    ensures var d := Next(c, Finish(t, false, false));
            !c.closed && c.queue != [] ==> Enabled(d, Take(t)) && Next(d, Take(t)).started == c.started + [c.queue[0]]
  {
  }

  /** Steps a task has still to take once its client is closed, at most. */
  function Rank(ph: Phase): nat {
    match ph
    case Queued => 3
    case AtLoop => 2
    case Executing(_) => 3
    case Closing => 2
    case Releasing => 1
  }

  function RankOf(tasks: map<nat, Phase>, t: nat): nat {
    if t in tasks then Rank(tasks[t]) else 0
  }

  function Work(tasks: map<nat, Phase>, n: nat): nat {
    if n == 0 then 0 else RankOf(tasks, n - 1) + Work(tasks, n - 1)
  }

  lemma {:induction false} WorkChange(m: map<nat, Phase>, m': map<nat, Phase>, n: nat, t: nat)
    requires forall u: nat | u != t :: RankOf(m', u) == RankOf(m, u)
    ensures Work(m', n) - Work(m, n) == if t < n then RankOf(m', t) - RankOf(m, t) else 0
  {
    hide RankOf;
    if n > 0 {
      WorkChange(m, m', n - 1, t);
    }
  }

  /** A closed client has only its tasks' last steps ahead of it, each of which is one fewer to take. */
  lemma ClosedProgress(c: Client, a: Action)
    requires RefInv(c) && !c.listed && Enabled(c, a)
    ensures !Next(c, a).listed && Work(Next(c, a).tasks, c.nextTask) < Work(c.tasks, c.nextTask)
    ensures Next(c, a).nextTask == c.nextTask
  {
    hide Work;
    WorkChange(c.tasks, Next(c, a).tasks, c.nextTask, a.t);
  }

  /** A task is never stuck, so a client that nothing can happen to has none. */
  lemma TaskCanStep(c: Client, t: nat)
    requires t in c.tasks
    ensures exists a :: Enabled(c, a)
  {
    match c.tasks[t] {
      case Queued => assert Enabled(c, Begin(t));
      case AtLoop => assert Enabled(c, if c.closed || c.queue == [] then Idle(t) else Take(t));
      case Executing(_) => assert Enabled(c, Finish(t, false, false));
      case Closing => assert Enabled(c, CloseSelf(t));
      case Releasing => assert Enabled(c, Drop(t));
    }
  }

  /** Every run of an unlisted client is short, and one that cannot go on has freed it. */
  lemma {:induction false} ClosedRunFrees(c: Client, acts: seq<Action>, d: Client)
    requires Inv(c) && !c.listed && Reaches(c, acts, d)
    ensures |acts| <= Work(c.tasks, c.nextTask)
    ensures (forall a :: !Enabled(d, a)) <==> d.freed
    decreases |acts|
  {
    hide WorkerInv, QueueInv, Work;
    if acts != [] {
      ClosedProgress(c, acts[0]);
      InvNext(c, acts[0]);
      ClosedRunFrees(Next(c, acts[0]), acts[1..], d);
    } else if d.tasks != map[] {
      var t :| t in d.tasks;
      TaskCanStep(d, t);
    }
  }

  /** The run in which the tasks of an unlisted client take their last steps. */
  lemma {:induction false} CanBeFreed(c: Client) returns (acts: seq<Action>, d: Client)
    requires Inv(c) && !c.listed
    ensures Reaches(c, acts, d) && d.freed
    decreases Work(c.tasks, c.nextTask)
  {
    hide Inv, Work;
    acts, d := [], c;
    ClosedRunFrees(c, acts, d);
    if !c.freed {
      var a :| Enabled(c, a);
      assert RefInv(c) by { InvIsRef(c); }
      ClosedProgress(c, a);
      InvNext(c, a);
      var rest;
      rest, d := CanBeFreed(Next(c, a));
      Prepend(c, a, rest, d);
      acts := [a] + rest;
    }
  }

  lemma InvIsRef(c: Client)
    requires Inv(c)
    ensures RefInv(c)
  {
  }

  /** The memory of a connection that has ended is given back in the end if and only if it was not
      detached: nothing that happens to a detached client frees it, and any other is freed by
      whatever run its tasks take, in at most `Work` steps. */
  lemma EndedFreedIff(acts: seq<Action>, c: Client)
    requires Reaches(Accepted(), acts, c) && !c.open
    ensures !Detached(c) <==> exists more, d :: Reaches(c, more, d) && d.freed
    ensures forall more, d | !Detached(c) && Reaches(c, more, d) ::
              |more| <= Work(c.tasks, c.nextTask) && ((forall a :: !Enabled(d, a)) <==> d.freed)
  {
    hide Reaches, Inv, Work;
    assert Inv(Accepted()) by { InvAccepted(); }
    InvReached(Accepted(), acts, c);
    forall more, d | Reaches(c, more, d)
      ensures if Detached(c) then !d.freed
              else |more| <= Work(c.tasks, c.nextTask) && ((forall a :: !Enabled(d, a)) <==> d.freed)
    {
      if Detached(c) {
        StaysDetached(c, more, d);
      } else {
        ClosedRunFrees(c, more, d);
      }
    }
    if !Detached(c) {
      var more, d := CanBeFreed(c);
    }
  }

  lemma InvAccepted()
    ensures Inv(Accepted())
  {
  }

  /** A client that has been sent one command, with its task in phase `ph`. */
  function WithTask(cmd: Command, ph: Phase, taken: bool, open: bool): Client {
    Client(open, false, true, true, 2, if taken then [] else [cmd], map[0 := ph], 1, false,
           [cmd], if taken then [cmd] else [], false)
  }

  /** One SYNC on a connection: its task ends, and the client stays behind, listed and never freed. */
  lemma DetachLeaks(cmd: Command)
    ensures exists acts, c :: Reaches(Accepted(), acts, c) && Detached(c) && c.tasks == map[] && c.started == [cmd]
  {
    hide Reaches;
    var c1, c2 := WithTask(cmd, Queued, false, true), WithTask(cmd, AtLoop, false, true);
    var c3, c4 := WithTask(cmd, Executing(cmd), true, true), WithTask(cmd, Closing, true, false);
    var c5 := WithTask(cmd, Releasing, true, false);
    var c6 := c5.(tasks := map[], refCount := 1);
    ReachesItself(c6);
    assert c5.tasks - {0} == map[];
    Prepend(c5, Drop(0), [], c6);
    var run := [Drop(0)] + [];
    Moved(c4, CloseSelf(0), c5, run, c6);
    run := [CloseSelf(0)] + run;
    Moved(c3, Finish(0, false, true), c4, run, c6);
    run := [Finish(0, false, true)] + run;
    Moved(c2, Take(0), c3, run, c6);
    run := [Take(0)] + run;
    Moved(c1, Begin(0), c2, run, c6);
    run := [Begin(0)] + run;
    assert Next(Accepted(), Arrive(cmd, true)) == c1;
    Prepend(Accepted(), Arrive(cmd, true), run, c6);
  }

  /** A step to `c'` in front of a run from it, for clients with one task. */
  lemma Moved(c: Client, a: Action, c': Client, acts: seq<Action>, d: Client)
    requires Enabled(c, a) && Reaches(c', acts, d)
    requires Next(c, a).(tasks := map[]) == c'.(tasks := map[])
    requires 0 in c'.tasks && c'.tasks == map[0 := c'.tasks[0]] && Next(c, a).tasks == c.tasks[0 := c'.tasks[0]]
    requires c.tasks.Keys == {0}
    ensures Reaches(c, [a] + acts, d)
  {
    hide Reaches;
    assert Next(c, a).tasks == c'.tasks;
    Prepend(c, a, acts, d);
  }

  lemma ReachesItself(c: Client)
    ensures Reaches(c, [], c)
  {
  }

  lemma Prepend(c: Client, a: Action, acts: seq<Action>, d: Client)
    requires Enabled(c, a) && Reaches(Next(c, a), acts, d)
    ensures Reaches(c, [a] + acts, d)
  {
    assert ([a] + acts)[1..] == acts;
  }
}
