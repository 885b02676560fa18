/** The bounded thread pool (src/thread_pool.c): its ring buffer, and the pool as a
    step machine over all interleavings of submitters, workers and the destroyer.
    Each region under queue_lock is one step; waking from the condition variable is
    a step of its own, so spurious wakeups are included. */
module ThreadPool {
  import opened Common

  /** A submitted (function, argument) pair. */
  type Task = nat

  // ----- The ring buffer -----

  datatype Ring = Ring(slots: seq<Task>, head: nat, tail: nat, count: nat)

  predicate RingInv(r: Ring) {
    && |r.slots| > 0
    && r.head < |r.slots|
    && r.count <= |r.slots|
    && r.tail == (r.head + r.count) % |r.slots|
  }

  /** Pending tasks, oldest first. */
  function Queue(r: Ring): (q: seq<Task>)
    requires RingInv(r)
    ensures |q| == r.count
  {
    seq(r.count, i requires 0 <= i < r.count => r.slots[(r.head + i) % |r.slots|])
  }

  function Push(r: Ring, t: Task): Ring
    requires RingInv(r)
  {
    Ring(r.slots[r.tail := t], r.head, (r.tail + 1) % |r.slots|, r.count + 1)
  }

  function Pop(r: Ring): Ring
    requires RingInv(r) && r.count > 0
  {
    Ring(r.slots, (r.head + 1) % |r.slots|, r.tail, r.count - 1)
  }

  lemma WrapOnce(a: nat, n: nat)
    requires 0 < n && a < 2 * n
    ensures a % n == if a < n then a else a - n
  {
  }

  lemma PushAppends(r: Ring, t: Task)
    requires RingInv(r) && r.count < |r.slots|
    ensures RingInv(Push(r, t)) && Queue(Push(r, t)) == Queue(r) + [t]
  {
    var n, r' := |r.slots|, Push(r, t);
    WrapOnce(r.head + r.count, n);
    WrapOnce(r.tail + 1, n);
    WrapOnce(r.head + r.count + 1, n);
    forall i | 0 <= i < r.count
      ensures Queue(r')[i] == Queue(r)[i]
    {
      WrapOnce(r.head + i, n);
    }
  }

  lemma PopRemoves(r: Ring)
    requires RingInv(r) && r.count > 0
    ensures RingInv(Pop(r)) && Queue(r) == [r.slots[r.head]] + Queue(Pop(r))
  {
    var n, r' := |r.slots|, Pop(r);
    WrapOnce(r.head + 1, n);
    WrapOnce(r.head + r.count, n);
    WrapOnce(r'.head + r'.count, n);
    WrapOnce(r.head, n);
    forall i | 0 < i < r.count
      ensures Queue(r)[i] == Queue(r')[i - 1]
    {
      WrapOnce(r.head + i, n);
      WrapOnce(r'.head + (i - 1), n);
    }
  }

  /** The queue fields of thread_pool_t, updated in place. */
  class TaskRing {
    const slots: array<Task>
    var head: nat
    var tail: nat
    var count: nat
    var shutdown: bool

    ghost function View(): Ring
      reads this, slots
    {
      Ring(slots[..], head, tail, count)
    }

    ghost predicate Valid()
      reads this, slots
    {
      RingInv(View())
    }

    constructor (capacity: nat)
      requires capacity > 0
      ensures Valid() && fresh(slots) && slots.Length == capacity && Queue(View()) == [] && !shutdown
    {
      slots := new Task[capacity](_ => 0);
      head, tail, count, shutdown := 0, 0, 0, false;
    }

    /** The locked region of thread_pool_submit: refuses after shutdown and when full, never blocks. */
    method Submit(t: Task) returns (st: Status)
      requires Valid()
      modifies this`tail, this`count, slots
      ensures Valid()
      ensures st == if shutdown then Internal else if old(count) < slots.Length then Ok else Again
      ensures Queue(View()) == if st == Ok then old(Queue(View())) + [t] else old(Queue(View()))
    {
      if shutdown {
        return Internal;
      }
      if count >= slots.Length {
        return Again;
      }
      ghost var before := View();
      PushAppends(before, t);
      slots[tail] := t;
      tail := (tail + 1) % slots.Length;
      count := count + 1;
      assert View() == Push(before, t);
      st := Ok;
    }

    /** The locked region of thread_pool_destroy: nothing is accepted afterwards, nothing is lost. */
    method Shutdown()
      requires Valid()
      modifies this`shutdown
      ensures Valid() && shutdown && Queue(View()) == old(Queue(View()))
    {
      shutdown := true;
    }

    /** The dequeuing lines of thread_pool_worker. */
    method Take() returns (t: Task)
      requires Valid() && count > 0
      modifies this`head, this`count
      ensures Valid() && [t] + Queue(View()) == old(Queue(View()))
    {
      ghost var before := View();
      PopRemoves(before);
      t := slots[head];
      head := (head + 1) % slots.Length;
      count := count - 1;
      assert View() == Pop(before);
    }
  }

  // ----- The step machine -----

  datatype Phase =
    | AtLock                // about to enter the locked region
    | Waiting               // blocked in pthread_cond_wait
    | Running(task: Task)   // executing outside the lock
    | Exited

  /** `accepted` and `started` record history: submissions answered KV_OK, and tasks
      taken out, both in order; `done` the tasks whose function returned. */
  datatype Pool = Pool(
    ring: Ring, shutdown: bool, workers: seq<Phase>,
    accepted: seq<Task>, started: seq<Task>, done: seq<Task>)

  datatype Action =
    | Submit(task: Task, woken: Option<nat>)   // with the worker pthread_cond_signal wakes
    | Enter(w: nat)                            // a worker's locked region
    | Wake(w: nat)                             // a spurious wakeup
    | Finish(w: nat)                           // a task's function returns
    | Destroy                                  // the locked region of thread_pool_destroy

  function Start(threads: nat, capacity: nat): Pool {
    Pool(Ring(seq(capacity, _ => 0), 0, 0, 0), false, seq(threads, _ => AtLock), [], [], [])
  }

  predicate Accepts(p: Pool) {
    !p.shutdown && p.ring.count < |p.ring.slots|
  }

  predicate Enabled(p: Pool, a: Action) {
    match a
    case Submit(_, woken) =>
      // signal wakes one waiter if there is one, and nobody otherwise
      (match woken
       case None => Accepts(p) ==> Waiting !in p.workers
       case Some(w) => Accepts(p) && w < |p.workers| && p.workers[w] == Waiting)
    case Enter(w) => w < |p.workers| && p.workers[w] == AtLock
    case Wake(w) => w < |p.workers| && p.workers[w] == Waiting
    case Finish(w) => w < |p.workers| && p.workers[w].Running?
    case Destroy => true
  }

  function WakeAll(ws: seq<Phase>): seq<Phase> {
    seq(|ws|, i requires 0 <= i < |ws| => if ws[i] == Waiting then AtLock else ws[i])
  }

  function Next(p: Pool, a: Action): Pool
    requires RingInv(p.ring) && Enabled(p, a)
  {
    match a
    case Submit(t, woken) =>
      if !Accepts(p) then p
      else
        var ws := if woken.Some? then p.workers[woken.value := AtLock] else p.workers;
        p.(ring := Push(p.ring, t), accepted := p.accepted + [t], workers := ws)
    case Enter(w) =>
      if p.ring.count == 0 then p.(workers := p.workers[w := if p.shutdown then Exited else Waiting])
      else
        var t := p.ring.slots[p.ring.head];
        p.(ring := Pop(p.ring), started := p.started + [t], workers := p.workers[w := Running(t)])
    case Wake(w) => p.(workers := p.workers[w := AtLock])
    case Finish(w) => p.(done := p.done + [p.workers[w].task], workers := p.workers[w := AtLock])
    case Destroy => p.(shutdown := true, workers := WakeAll(p.workers))
  }

  function TasksOf(ph: Phase): multiset<Task> {
    if ph.Running? then multiset{ph.task} else multiset{}
  }

  function RunningTasks(ws: seq<Phase>): multiset<Task> {
    if ws == [] then multiset{}
    else TasksOf(ws[0]) + RunningTasks(ws[1..])
  }

  predicate Awake(ph: Phase) {
    ph.AtLock? || ph.Running?
  }

  predicate SomeoneAwake(ws: seq<Phase>) {
    exists w :: 0 <= w < |ws| && Awake(ws[w])
  }

  /** Each accepted task is queued, running or done; a non-empty queue has an unblocked worker. */
  predicate Inv(p: Pool) {
    && RingInv(p.ring)
    && |p.workers| > 0
    && p.accepted == p.started + Queue(p.ring)
    && multiset(p.started) == multiset(p.done) + RunningTasks(p.workers)
    && PhasesInv(p.workers, p.ring.count, p.shutdown)
  }

  predicate PhasesInv(ws: seq<Phase>, count: nat, shutdown: bool) {
    && (count > 0 ==> SomeoneAwake(ws))
    && (shutdown ==> Waiting !in ws)
    && (Exited in ws ==> shutdown && count == 0)
  }

  lemma {:induction false} RunningSplit(ws: seq<Phase>, w: nat)
    requires w < |ws|
    ensures RunningTasks(ws) == TasksOf(ws[w]) + (RunningTasks(ws[..w]) + RunningTasks(ws[w + 1..]))
    decreases |ws|
  {
    hide TasksOf;
    if w > 0 {
      RunningSplit(ws[1..], w - 1);
      assert ws[1..][..w - 1] == ws[..w][1..] && ws[1..][w..] == ws[w + 1..];
      var pre, post := RunningTasks(ws[..w][1..]), RunningTasks(ws[w + 1..]);
      assert RunningTasks(ws[..w]) == TasksOf(ws[0]) + pre;
      assert RunningTasks(ws) == TasksOf(ws[0]) + RunningTasks(ws[1..]);
      hide RunningTasks;
      Shuffle(TasksOf(ws[0]), TasksOf(ws[w]), pre, post);
    } else {
      assert ws[..0] == [] && RunningTasks(ws[..0]) == multiset{};
    }
  }

  lemma Shuffle(a: multiset<Task>, t: multiset<Task>, b: multiset<Task>, c: multiset<Task>)
    ensures a + (t + (b + c)) == t + ((a + b) + c)
  {
  }

  /** One worker changes phase: what the others run stays the same. */
  lemma RunningUpdate(ws: seq<Phase>, w: nat, ph: Phase) returns (others: multiset<Task>)
    requires w < |ws|
    ensures RunningTasks(ws) == TasksOf(ws[w]) + others
    ensures RunningTasks(ws[w := ph]) == TasksOf(ph) + others
  {
    hide RunningTasks;
    others := RunningTasks(ws[..w]) + RunningTasks(ws[w + 1..]);
    RunningSplit(ws, w);
    RunningSplit(ws[w := ph], w);
    assert ws[w := ph][..w] == ws[..w] && ws[w := ph][w + 1..] == ws[w + 1..];
  }

  lemma PhasesUpdate(ws: seq<Phase>, count: nat, shutdown: bool, w: nat, ph: Phase, count': nat)
    requires PhasesInv(ws, count, shutdown) && w < |ws|
    requires Awake(ph) || count' == 0
    requires ph == Waiting ==> !shutdown
    requires ph == Exited || Exited in ws ==> shutdown && count' == 0
    ensures PhasesInv(ws[w := ph], count', shutdown)
  {
    var ws' := ws[w := ph];
    assert ws'[w] == ph;
    assert forall x | x in ws' :: x == ph || x in ws;
  }

  lemma {:induction false} RunningWakeAll(ws: seq<Phase>)
    ensures RunningTasks(WakeAll(ws)) == RunningTasks(ws)
    decreases |ws|
  {
    if ws != [] {
      assert WakeAll(ws)[1..] == WakeAll(ws[1..]);
      RunningWakeAll(ws[1..]);
    }
  }

  lemma InvStart(threads: nat, capacity: nat)
    requires threads > 0 && capacity > 0
    ensures Inv(Start(threads, capacity))
  {
    NoneRunning(Start(threads, capacity).workers);
  }

  lemma {:induction false} NoneRunning(ws: seq<Phase>)
    requires forall w | 0 <= w < |ws| :: !ws[w].Running?
    ensures RunningTasks(ws) == multiset{}
    decreases |ws|
  {
    if ws != [] {
      NoneRunning(ws[1..]);
    }
  }

  lemma InvSubmit(p: Pool, t: Task, woken: Option<nat>)
    requires Inv(p) && Enabled(p, Submit(t, woken))
    ensures Inv(Next(p, Submit(t, woken)))
  {
    hide RunningTasks, Queue, PhasesInv;
    if Accepts(p) {
      PushAppends(p.ring, t);
      var p' := Next(p, Submit(t, woken));
      assert p'.accepted == p.started + Queue(p'.ring);
      SubmitPhases(p, woken);
      if woken.Some? {
        var others := RunningUpdate(p.workers, woken.value, AtLock);
        assert TasksOf(AtLock) == TasksOf(Waiting);
      }
    }
  }

  /** Signalling after the push leaves no lost wakeup: either somebody was awake, or somebody is now. */
  lemma SubmitPhases(p: Pool, woken: Option<nat>)
    requires |p.workers| > 0 && PhasesInv(p.workers, p.ring.count, p.shutdown)
    requires Accepts(p) && Enabled(p, Submit(0, woken))
    ensures var ws := if woken.Some? then p.workers[woken.value := AtLock] else p.workers;
            PhasesInv(ws, p.ring.count + 1, p.shutdown)
  {
    if woken.Some? {
      PhasesUpdate(p.workers, p.ring.count, p.shutdown, woken.value, AtLock, p.ring.count + 1);
    } else {
      assert p.workers[0] in p.workers;
      assert Awake(p.workers[0]);
    }
  }

  lemma InvEnter(p: Pool, w: nat)
    requires Inv(p) && Enabled(p, Enter(w))
    ensures Inv(Next(p, Enter(w)))
  {
    hide RunningTasks, Queue, PhasesInv;
    var p' := Next(p, Enter(w));
    var ph := p'.workers[w];
    var others := RunningUpdate(p.workers, w, ph);
    if p.ring.count > 0 {
      PopRemoves(p.ring);
      var t := p.ring.slots[p.ring.head];
      assert p'.started + Queue(p'.ring) == p.started + ([t] + Queue(p'.ring));
      assert multiset(p'.started) == multiset(p.started) + multiset{t};
    }
    EnterPhases(p, w);
  }

  lemma EnterPhases(p: Pool, w: nat)
    requires RingInv(p.ring) && PhasesInv(p.workers, p.ring.count, p.shutdown) && Enabled(p, Enter(w))
    ensures var p' := Next(p, Enter(w)); PhasesInv(p'.workers, p'.ring.count, p'.shutdown)
  {
    var p' := Next(p, Enter(w));
    PhasesUpdate(p.workers, p.ring.count, p.shutdown, w, p'.workers[w], p'.ring.count);
    hide PhasesInv;
  }

  lemma InvFinish(p: Pool, w: nat)
    requires Inv(p) && Enabled(p, Finish(w))
    ensures Inv(Next(p, Finish(w)))
  {
    var p' := Next(p, Finish(w));
    PhasesUpdate(p.workers, p.ring.count, p.shutdown, w, AtLock, p.ring.count);
    hide RunningTasks, Queue, PhasesInv;
    var t := p.workers[w].task;
    var others := RunningUpdate(p.workers, w, AtLock);
    assert multiset(p'.done) == multiset(p.done) + multiset{t};
    assert multiset(p.started) == multiset(p.done) + (multiset{t} + others);
  }

  lemma InvWake(p: Pool, w: nat)
    requires Inv(p) && Enabled(p, Wake(w))
    ensures Inv(Next(p, Wake(w)))
  {
    assert p.workers[w] in p.workers;
    PhasesUpdate(p.workers, p.ring.count, p.shutdown, w, AtLock, p.ring.count);
    hide RunningTasks, Queue, PhasesInv;
    var others := RunningUpdate(p.workers, w, AtLock);
    assert TasksOf(AtLock) == TasksOf(Waiting);
  }

  /** The broadcast: nobody is left waiting, and nobody else changes. */
  lemma DestroyPhases(ws: seq<Phase>, count: nat, shutdown: bool)
    requires PhasesInv(ws, count, shutdown)
    ensures PhasesInv(WakeAll(ws), count, true)
  {
    var ws' := WakeAll(ws);
    assert Exited in ws' ==> Exited in ws;
    if count > 0 {
      var w :| 0 <= w < |ws| && Awake(ws[w]);
      assert Awake(ws'[w]);
    }
  }

  lemma InvDestroy(p: Pool)
    requires Inv(p)
    ensures Inv(Next(p, Destroy))
  {
    hide RunningTasks, Queue, PhasesInv;
    RunningWakeAll(p.workers);
    DestroyPhases(p.workers, p.ring.count, p.shutdown);
  }

  lemma InvNext(p: Pool, a: Action)
    requires Inv(p) && Enabled(p, a)
    ensures Inv(Next(p, a))
  {
    hide Inv, Next, Enabled;
    match a {
      case Submit(t, woken) => InvSubmit(p, t, woken);
      case Enter(w) => InvEnter(p, w);
      case Wake(w) => InvWake(p, w);
      case Finish(w) => InvFinish(p, w);
      case Destroy => InvDestroy(p);
    }
  }

  /** States reachable from a fresh pool by `acts`. */
  ghost predicate Reaches(p: Pool, acts: seq<Action>, q: Pool)
    decreases |acts|
  {
    if acts == [] then p == q
    else RingInv(p.ring) && Enabled(p, acts[0]) && Reaches(Next(p, acts[0]), acts[1..], q)
  }

  lemma {:induction false} InvReached(p: Pool, acts: seq<Action>, q: Pool)
    requires Inv(p) && Reaches(p, acts, q)
    ensures Inv(q)
    decreases |acts|
  {
    hide Inv, Next, Enabled;
    if acts != [] {
      InvNext(p, acts[0]);
      InvReached(Next(p, acts[0]), acts[1..], q);
    }
  }

  /** Over every interleaving: tasks start in submission order, none is lost or run twice, and
      a pending task always has a worker that is not blocked on the condition variable. */
  lemma PoolSafety(threads: nat, capacity: nat, acts: seq<Action>, p: Pool)
    requires threads > 0 && capacity > 0 && Reaches(Start(threads, capacity), acts, p)
    ensures RingInv(p.ring) && p.started <= p.accepted && p.accepted == p.started + Queue(p.ring)
    ensures multiset(p.accepted) == multiset(Queue(p.ring)) + RunningTasks(p.workers) + multiset(p.done)
    ensures p.ring.count > 0 ==> SomeoneAwake(p.workers)
  {
    InvStart(threads, capacity);
    InvReached(Start(threads, capacity), acts, p);
    hide Reaches, Start, Queue, RunningTasks;
    assert multiset(p.accepted) == multiset(p.started) + multiset(Queue(p.ring));
  }

  /** When every worker has been joined, every accepted task has run exactly once. */
  lemma JoinedMeansDrained(threads: nat, capacity: nat, acts: seq<Action>, p: Pool)
    requires threads > 0 && capacity > 0 && Reaches(Start(threads, capacity), acts, p)
    requires forall w | 0 <= w < |p.workers| :: p.workers[w] == Exited
    ensures p.started == p.accepted && multiset(p.done) == multiset(p.accepted)
  {
    InvStart(threads, capacity);
    InvReached(Start(threads, capacity), acts, p);
    NoneRunning(p.workers);
    assert p.workers[0] in p.workers;
    assert p.started + Queue(p.ring) == p.started;
    hide Reaches, Start, RunningTasks;
  }

  // ----- Shutdown terminates -----

  function Rank(ph: Phase): nat {
    match ph
    case AtLock => 1
    case Waiting => 0
    case Running(_) => 2
    case Exited => 0
  }

  function Ranks(ws: seq<Phase>): nat {
    if ws == [] then 0 else Rank(ws[0]) + Ranks(ws[1..])
  }

  /** Steps left before all workers have exited. */
  function Remaining(p: Pool): nat {
    3 * p.ring.count + Ranks(p.workers)
  }

  lemma {:induction false} RanksUpdate(ws: seq<Phase>, w: nat, ph: Phase)
    requires w < |ws|
    ensures Ranks(ws[w := ph]) + Rank(ws[w]) == Ranks(ws) + Rank(ph)
    decreases |ws|
  {
    if w == 0 {
      assert ws[0 := ph][1..] == ws[1..];
    } else {
      assert ws[w := ph][1..] == ws[1..][w - 1 := ph];
      RanksUpdate(ws[1..], w - 1, ph);
    }
  }

  /** After thread_pool_destroy has set the flag every worker step brings the end closer, and a
      state in which no worker can step is one in which all of them have exited. */
  lemma ShutdownDrains(p: Pool, a: Action)
    requires Inv(p) && p.shutdown
    ensures (a.Enter? || a.Wake? || a.Finish?) && Enabled(p, a) ==> Remaining(Next(p, a)) < Remaining(p)
    ensures (forall w :: !Enabled(p, Enter(w)) && !Enabled(p, Finish(w))) ==>
              forall w | 0 <= w < |p.workers| :: p.workers[w] == Exited
  {
    if (a.Enter? || a.Wake? || a.Finish?) && Enabled(p, a) {
      RanksUpdate(p.workers, a.w, Next(p, a).workers[a.w]);
      assert p.workers[a.w] in p.workers;
    }
    if forall w :: !Enabled(p, Enter(w)) && !Enabled(p, Finish(w)) {
      forall w | 0 <= w < |p.workers|
        ensures p.workers[w] == Exited
      {
        assert p.workers[w] in p.workers;
        assert !Enabled(p, Enter(w)) && !Enabled(p, Finish(w));
      }
    }
    hide RunningTasks, Queue, Ranks;
  }
}
