/** Locking: the shard locks of src/kv.c with the log, replica, client and pool locks
    around them.  Threads run arbitrary sequences of the program's operations; every
    acquisition, every release and every access to what a lock protects is one step. */
module Locks {
  import Sharding

  // ----- Threads that take locks and touch what the locks protect -----

  /** `shards` bucket locks, `clients` connected clients; whether there is a memory budget, whether
      rewritten logs are merged, and whether kv_sync is called. */
  datatype Server = Server(shards: nat, clients: nat, budgeted: bool, merges: bool, syncs: bool)

  /** What operations touch. */
  datatype Effect =
    | Chain(shard: nat)         // the chains of the keys with this lock index
    | Table                     // any chain, or the bucket array
    | LogAppend                 // the log file or the rewrite buffer, inside an operation on keys
    | LogSync                   // the log file, from kv_sync
    | LogSwap                   // closing the log file and opening another
    | Replicas
    | ClientList                // server->clients and the reference counts
    | ClientState(client: nat)  // a client's queue and flags
    | TaskQueue

  datatype Act = Acquire(lock: nat) | Release(lock: nat) | Touch(e: Effect)

  /** A thread: the locks it holds and what it still has to do. */
  datatype Thread = Thread(held: set<nat>, plan: seq<Act>)

  /** Locks are taken in ascending order, given back only when held, and all given back in the end. */
  predicate Ordered(held: set<nat>, plan: seq<Act>)
    decreases |plan|
  {
    if plan == [] then held == {}
    else
      match plan[0]
      case Acquire(l) => (forall h | h in held :: h < l) && Ordered(held + {l}, plan[1..])
      case Release(l) => l in held && Ordered(held - {l}, plan[1..])
      case Touch(_) => Ordered(held, plan[1..])
  }

  predicate Free(ts: seq<Thread>, l: nat) {
    forall i | 0 <= i < |ts| :: l !in ts[i].held
  }

  predicate CanStep(ts: seq<Thread>, i: nat) {
    && i < |ts| && ts[i].plan != []
    && (ts[i].plan[0].Acquire? ==> Free(ts, ts[i].plan[0].lock))
  }

  function StepThread(t: Thread): Thread
    requires t.plan != []
  {
    match t.plan[0]
    case Acquire(l) => Thread(t.held + {l}, t.plan[1..])
    case Release(l) => Thread(t.held - {l}, t.plan[1..])
    case Touch(_) => Thread(t.held, t.plan[1..])
  }

  function Next(ts: seq<Thread>, i: nat): seq<Thread>
    requires CanStep(ts, i)
  {
    ts[i := StepThread(ts[i])]
  }

  /** Every thread is ordered and no lock is held twice. */
  predicate Inv(ts: seq<Thread>) {
    && (forall i | 0 <= i < |ts| :: Ordered(ts[i].held, ts[i].plan))
    && (forall i, j | 0 <= i < j < |ts| :: ts[i].held !! ts[j].held)
  }

  lemma InvNext(ts: seq<Thread>, i: nat)
    requires Inv(ts) && CanStep(ts, i)
    ensures Inv(Next(ts, i))
  {
    var t, t' := ts[i], StepThread(ts[i]);
    assert Ordered(t.held, t.plan);
    assert Ordered(t'.held, t'.plan);
    forall j | 0 <= j < |ts| && j != i
      ensures t'.held !! ts[j].held
    {
      assert t.held !! ts[j].held;
    }
  }

  predicate Unfinished(t: Thread) {
    t.plan != []
  }

  /** The lock an unfinished thread is about to take, if it is about to take one. */
  function Wanted(t: Thread): nat {
    if t.plan != [] && t.plan[0].Acquire? then t.plan[0].lock else 0
  }

  lemma {:induction false} HighestWanted(ts: seq<Thread>) returns (i: nat)
    requires exists k :: 0 <= k < |ts| && Unfinished(ts[k])
    ensures i < |ts| && Unfinished(ts[i])
    ensures forall k | 0 <= k < |ts| && Unfinished(ts[k]) :: Wanted(ts[k]) <= Wanted(ts[i])
    decreases |ts|
  {
    var last := |ts| - 1;
    var rest := ts[..last];
    if exists k :: 0 <= k < |rest| && Unfinished(rest[k]) {
      i := HighestWanted(rest);
      assert forall k | 0 <= k < last && Unfinished(ts[k]) :: ts[k] == rest[k];
      if Unfinished(ts[last]) && Wanted(ts[last]) > Wanted(ts[i]) {
        i := last;
      }
    } else {
      var k :| 0 <= k < |ts| && Unfinished(ts[k]);
      assert forall k | 0 <= k < last :: ts[k] == rest[k];
      i := last;
    }
  }

  /** A thread holding a lock still has work, and wants nothing below what it holds. */
  lemma HolderAims(t: Thread, l: nat)
    requires Ordered(t.held, t.plan) && l in t.held
    ensures Unfinished(t) && (t.plan[0].Acquire? ==> t.plan[0].lock > l)
  {
  }

  /** No deadlock: as long as some thread is unfinished, some thread can take a step. */
  lemma SomeoneCanStep(ts: seq<Thread>)
    requires Inv(ts) && exists k :: 0 <= k < |ts| && Unfinished(ts[k])
    ensures exists i :: CanStep(ts, i)
  {
    var i := HighestWanted(ts);
    if !CanStep(ts, i) {
      var l := ts[i].plan[0].lock;
      var j :| 0 <= j < |ts| && l in ts[j].held;
      HolderAims(ts[j], l);
      assert Wanted(ts[j]) <= Wanted(ts[i]);
      assert !ts[j].plan[0].Acquire?;
      assert CanStep(ts, j);
    }
  }

  // ----- Every schedule ends -----

  function Work(ts: seq<Thread>): nat {
    if ts == [] then 0 else |ts[0].plan| + Work(ts[1..])
  }

  lemma {:induction false} WorkUpdate(ts: seq<Thread>, i: nat, t: Thread)
    requires i < |ts|
    ensures Work(ts[i := t]) + |ts[i].plan| == Work(ts) + |t.plan|
    decreases |ts|
  {
    if i == 0 {
      assert ts[0 := t][1..] == ts[1..];
    } else {
      assert ts[i := t][1..] == ts[1..][i - 1 := t];
      WorkUpdate(ts[1..], i - 1, t);
    }
  }

  /** The states a schedule (a sequence of thread choices) passes through. */
  ghost predicate Reaches(ts: seq<Thread>, schedule: seq<nat>, end: seq<Thread>)
    decreases |schedule|
  {
    if schedule == [] then ts == end
    else CanStep(ts, schedule[0]) && Reaches(Next(ts, schedule[0]), schedule[1..], end)
  }

  lemma {:induction false} ReachesInv(ts: seq<Thread>, schedule: seq<nat>, end: seq<Thread>)
    requires Inv(ts) && Reaches(ts, schedule, end)
    ensures Inv(end) && |schedule| + Work(end) == Work(ts) && |end| == |ts|
    decreases |schedule|
  {
    hide Inv;
    if schedule != [] {
      var i := schedule[0];
      InvNext(ts, i);
      WorkUpdate(ts, i, StepThread(ts[i]));
      ReachesInv(Next(ts, i), schedule[1..], end);
    }
  }

  // ----- What is touched under which locks -----

  predicate AllShards(sv: Server, held: set<nat>) {
    forall s | 0 <= s < sv.shards :: s in held
  }

  /** The locks that have to be held to touch `e`. */
  ghost predicate Covered(sv: Server, held: set<nat>, e: Effect) {
    match e
    case Chain(s) => s < sv.shards && s in held
    case Table => AllShards(sv, held)
    case LogAppend => AofLock(sv) in held && exists s :: 0 <= s < sv.shards && s in held
    case LogSync => AofLock(sv) in held
    case LogSwap => AllShards(sv, held)
    case Replicas => ReplicasLock(sv) in held
    case ClientList => ClientsLock(sv) in held
    case ClientState(c) => ClientLock(sv, c) in held
    case TaskQueue => QueueLock(sv) in held
  }

  /** The two may not be touched at the same time. */
  predicate Conflict(e: Effect, f: Effect) {
    match (e, f)
    case (Chain(a), Chain(b)) => a == b
    case (Chain(_), Table) => true
    case (Table, Chain(_)) => true
    case (ClientState(a), ClientState(b)) => a == b
    case _ => e == f || (LogEffect(e) && LogEffect(f))
  }

  predicate LogEffect(e: Effect) {
    e == LogAppend || e == LogSync || e == LogSwap
  }

  /** Everything a plan touches is covered by what is held then. */
  ghost predicate Guarded(sv: Server, held: set<nat>, plan: seq<Act>)
    decreases |plan|
  {
    if plan == [] then true
    else
      match plan[0]
      case Acquire(l) => Guarded(sv, held + {l}, plan[1..])
      case Release(l) => Guarded(sv, held - {l}, plan[1..])
      case Touch(e) => Covered(sv, held, e) && Guarded(sv, held, plan[1..])
  }

  /** What a plan touches, in order. */
  function Touched(plan: seq<Act>): seq<Effect> {
    if plan == [] then []
    else if plan[0].Touch? then [plan[0].e] + Touched(plan[1..])
    else Touched(plan[1..])
  }

  /** Threads `i` and `j` are about to touch things that conflict. */
  predicate Clash(ts: seq<Thread>, i: nat, j: nat) {
    && i < |ts| && j < |ts| && i != j && ts[i].plan != [] && ts[j].plan != []
    && ts[i].plan[0].Touch? && ts[j].plan[0].Touch? && Conflict(ts[i].plan[0].e, ts[j].plan[0].e)
  }

  ghost predicate AllGuarded(sv: Server, ts: seq<Thread>) {
    forall i | 0 <= i < |ts| :: Guarded(sv, ts[i].held, ts[i].plan)
  }

  lemma GuardedNext(sv: Server, ts: seq<Thread>, i: nat)
    requires AllGuarded(sv, ts) && CanStep(ts, i)
    ensures AllGuarded(sv, Next(ts, i))
  {
    assert Guarded(sv, ts[i].held, ts[i].plan);
  }

  lemma {:induction false} ReachesGuarded(sv: Server, ts: seq<Thread>, schedule: seq<nat>, end: seq<Thread>)
    requires AllGuarded(sv, ts) && Reaches(ts, schedule, end)
    ensures AllGuarded(sv, end)
    decreases |schedule|
  {
    hide AllGuarded;
    if schedule != [] {
      GuardedNext(sv, ts, schedule[0]);
      ReachesGuarded(sv, Next(ts, schedule[0]), schedule[1..], end);
    }
  }

  predicate SyncAgainstSwap(e: Effect, f: Effect) {
    (e == LogSync && f == LogSwap) || (e == LogSwap && f == LogSync)
  }

  /** Covers of conflicting effects have a lock in common, except kv_sync's and a merge's. */
  lemma CoversMeet(sv: Server, held: set<nat>, e: Effect, held': set<nat>, f: Effect)
    requires sv.shards > 0 && Conflict(e, f) && Covered(sv, held, e) && Covered(sv, held', f)
    ensures SyncAgainstSwap(e, f) || exists l :: l in held && l in held'
  {
    var zero: nat, aof := 0, AofLock(sv);
    assert zero < sv.shards;
    assert AllShards(sv, held) ==> zero in held;
    assert AllShards(sv, held') ==> zero in held';
    assert (e == LogAppend || e == LogSync) && (f == LogAppend || f == LogSync) ==> aof in held && aof in held';
  }

  /** No two threads of a guarded, exclusive state clash, except kv_sync with a merge. */
  lemma NoClash(sv: Server, ts: seq<Thread>, i: nat, j: nat)
    requires sv.shards > 0 && AllGuarded(sv, ts) && Inv(ts) && Clash(ts, i, j)
    ensures SyncAgainstSwap(ts[i].plan[0].e, ts[j].plan[0].e)
  {
    assert Guarded(sv, ts[i].held, ts[i].plan) && Guarded(sv, ts[j].held, ts[j].plan);
    var e, f := ts[i].plan[0].e, ts[j].plan[0].e;
    assert ts[i].held !! ts[j].held by {
      assert ts[if i < j then i else j].held !! ts[if i < j then j else i].held;
    }
    CoversMeet(sv, ts[i].held, e, ts[j].held, f);
  }

  // ----- The program's operations -----

  function AofLock(sv: Server): nat { sv.shards }
  function ReplicasLock(sv: Server): nat { sv.shards + 1 }
  function ClientsLock(sv: Server): nat { sv.shards + 2 }
  function ClientLock(sv: Server, c: nat): nat { sv.shards + 3 + c }
  function QueueLock(sv: Server): nat { sv.shards + 3 + sv.clients }

  /** A piece of an operation on keys, in the order in which they come: work on its own chain (or
      the whole table), a log or buffer append, a broadcast, an eviction, an exchange of the log. */
  datatype Piece = Own | Append | Broadcast | Evict | Swap

  function PieceEffect(own: Effect, p: Piece): Effect {
    match p
    case Own => own
    case Append => LogAppend
    case Broadcast => Replicas
    case Evict => Table
    case Swap => LogSwap
  }

  function Effects(own: Effect, body: seq<Piece>): seq<Effect> {
    if body == [] then [] else [PieceEffect(own, body[0])] + Effects(own, body[1..])
  }

  /** The log and the replica list have locks of their own. */
  function PiecePlan(sv: Server, own: Effect, p: Piece): seq<Act> {
    match p
    case Own => [Touch(own)]
    case Append => [Acquire(AofLock(sv)), Touch(LogAppend), Release(AofLock(sv))]
    case Broadcast => [Acquire(ReplicasLock(sv)), Touch(Replicas), Release(ReplicasLock(sv))]
    case Evict => [Touch(Table)]
    case Swap => [Touch(LogSwap)]
  }

  /** A body inside its shard locks. */
  function BodyPlan(sv: Server, own: Effect, body: seq<Piece>): seq<Act> {
    if body == [] then [] else PiecePlan(sv, own, body[0]) + BodyPlan(sv, own, body[1..])
  }

  /** kv_acquire_all_locks from shard `from` on, the body, kv_release_all_locks back to it. */
  function AllPlan(sv: Server, from: nat, body: seq<Piece>): seq<Act>
    requires from <= sv.shards
    decreases sv.shards - from
  {
    if from == sv.shards then BodyPlan(sv, Table, body)
    else [Acquire(from)] + AllPlan(sv, from + 1, body) + [Release(from)]
  }

  datatype Operation =
    | Keyed(shard: nat, body: seq<Piece>)           // one bucket lock: GET, DELETE, RPOP, ...
    | Global(body: seq<Piece>)                      // all locks: resize, save, rewrite, merge, sweep
    | Escalating(shard: nat, body: seq<Piece>)      // SET, LPUSH, SADD dropping their lock first
    | Sync                                          // kv_sync
    | AddReplica                                    // replication_add_replica
    | Enqueue(client: nat, submits: bool)           // client_handle_read's locked region
    | CloseClient(client: nat)                      // server_close_client
    | WithClient(client: nat)                       // the worker's own regions
    | ReleaseRef                                    // client_release_ref
    | PoolRegion                                    // the pool's own regions

  /** Operations the server can come to run.  SET, LPUSH and SADD test for room under their bucket
      lock and evict later, so under a budget an eviction can happen there: other threads may have
      used the room in between. */
  predicate Fits(sv: Server, op: Operation) {
    match op
    case Keyed(s, body) => s < sv.shards && Swap !in body && (Evict in body ==> sv.budgeted)
    case Global(body) => Swap in body ==> sv.merges
    case Escalating(s, body) => s < sv.shards && Swap !in body && (Evict in body ==> sv.budgeted)
    case Sync => sv.syncs
    case Enqueue(c, _) => c < sv.clients
    case CloseClient(c) => c < sv.clients
    case WithClient(c) => c < sv.clients
    case _ => true
  }

  /** What an operation touches, locks aside. */
  function Needs(op: Operation): seq<Effect> {
    match op
    case Keyed(s, body) => Effects(Chain(s), body)
    case Global(body) => Effects(Table, body)
    case Escalating(s, body) => Effects(Table, body)
    case Sync => [LogSync]
    case AddReplica => [Replicas]
    case Enqueue(c, submits) => if submits then [ClientState(c), ClientList, TaskQueue] else [ClientState(c)]
    case CloseClient(c) => [ClientState(c), ClientList]
    case WithClient(c) => [ClientState(c)]
    case ReleaseRef => [ClientList]
    case PoolRegion => [TaskQueue]
  }

  function Plan(sv: Server, op: Operation): seq<Act> {
    match op
    case Keyed(s, body) => [Acquire(s)] + BodyPlan(sv, Chain(s), body) + [Release(s)]
    case Global(body) => AllPlan(sv, 0, body)
    case Escalating(s, body) => [Acquire(s), Release(s)] + AllPlan(sv, 0, body)
    case Sync => [Acquire(AofLock(sv)), Touch(LogSync), Release(AofLock(sv))]
    case AddReplica => [Acquire(ReplicasLock(sv)), Touch(Replicas), Release(ReplicasLock(sv))]
    case Enqueue(c, submits) =>
      [Acquire(ClientsLock(sv)), Acquire(ClientLock(sv, c)), Touch(ClientState(c))]
      + (if submits then [Touch(ClientList), Acquire(QueueLock(sv)), Touch(TaskQueue), Release(QueueLock(sv))] else [])
      + [Release(ClientLock(sv, c)), Release(ClientsLock(sv))]
    case CloseClient(c) =>
      [Acquire(ClientsLock(sv)), Acquire(ClientLock(sv, c)), Touch(ClientState(c)),
       Release(ClientLock(sv, c)), Touch(ClientList), Release(ClientsLock(sv))]
    case WithClient(c) => [Acquire(ClientLock(sv, c)), Touch(ClientState(c)), Release(ClientLock(sv, c))]
    case ReleaseRef => [Acquire(ClientsLock(sv)), Touch(ClientList), Release(ClientsLock(sv))]
    case PoolRegion => [Acquire(QueueLock(sv)), Touch(TaskQueue), Release(QueueLock(sv))]
  }

  function Program(sv: Server, ops: seq<Operation>): seq<Act> {
    if ops == [] then [] else Plan(sv, ops[0]) + Program(sv, ops[1..])
  }

  /** `plan` runs with `held` already held, leaves exactly `held` behind, touches `effects` in this
      order, and if `safe` only under their locks. */
  ghost predicate Runs(sv: Server, held: set<nat>, plan: seq<Act>, end: set<nat>, effects: seq<Effect>, safe: bool)
    decreases |plan|
  {
    if plan == [] then held == end && effects == []
    else
      match plan[0]
      case Acquire(l) => (forall h | h in held :: h < l) && Runs(sv, held + {l}, plan[1..], end, effects, safe)
      case Release(l) => l in held && Runs(sv, held - {l}, plan[1..], end, effects, safe)
      case Touch(e) =>
        && effects != [] && effects[0] == e && (safe ==> Covered(sv, held, e))
        && Runs(sv, held, plan[1..], end, effects[1..], safe)
  }

  lemma {:induction false} RunsThen(sv: Server, held: set<nat>, a: seq<Act>, mid: set<nat>, b: seq<Act>, end: set<nat>,
                                    ea: seq<Effect>, eb: seq<Effect>, safe: bool)
    requires Runs(sv, held, a, mid, ea, safe) && Runs(sv, mid, b, end, eb, safe)
    ensures Runs(sv, held, a + b, end, ea + eb, safe)
    decreases |a|
  {
    hide Covered;
    if a == [] {
      assert a + b == b && ea + eb == eb;
    } else {
      assert (a + b)[0] == a[0] && (a + b)[1..] == a[1..] + b;
      match a[0] {
        case Acquire(l) => RunsThen(sv, held + {l}, a[1..], mid, b, end, ea, eb, safe);
        case Release(l) => RunsThen(sv, held - {l}, a[1..], mid, b, end, ea, eb, safe);
        case Touch(e) =>
          assert (ea + eb)[1..] == ea[1..] + eb;
          RunsThen(sv, held, a[1..], mid, b, end, ea[1..], eb, safe);
      }
    }
  }

  lemma {:induction false} RunsOrdered(sv: Server, held: set<nat>, plan: seq<Act>, effects: seq<Effect>, safe: bool)
    requires Runs(sv, held, plan, {}, effects, safe)
    ensures Ordered(held, plan)
    decreases |plan|
  {
    hide Covered;
    if plan != [] {
      match plan[0] {
        case Acquire(l) => RunsOrdered(sv, held + {l}, plan[1..], effects, safe);
        case Release(l) => RunsOrdered(sv, held - {l}, plan[1..], effects, safe);
        case Touch(e) => RunsOrdered(sv, held, plan[1..], effects[1..], safe);
      }
    }
  }

  lemma {:induction false} RunsTouched(sv: Server, held: set<nat>, plan: seq<Act>, effects: seq<Effect>, safe: bool)
    requires Runs(sv, held, plan, {}, effects, safe)
    ensures Touched(plan) == effects
    decreases |plan|
  {
    hide Covered;
    if plan != [] {
      match plan[0] {
        case Acquire(l) => RunsTouched(sv, held + {l}, plan[1..], effects, safe);
        case Release(l) => RunsTouched(sv, held - {l}, plan[1..], effects, safe);
        case Touch(e) =>
          RunsTouched(sv, held, plan[1..], effects[1..], safe);
          assert effects == [e] + effects[1..];
      }
    }
  }

  lemma {:induction false} RunsGuarded(sv: Server, held: set<nat>, plan: seq<Act>, effects: seq<Effect>, safe: bool)
    requires Runs(sv, held, plan, {}, effects, safe) && safe
    ensures Guarded(sv, held, plan)
    decreases |plan|
  {
    hide Covered;
    if plan != [] {
      match plan[0] {
        case Acquire(l) => RunsGuarded(sv, held + {l}, plan[1..], effects, safe);
        case Release(l) => RunsGuarded(sv, held - {l}, plan[1..], effects, safe);
        case Touch(e) => RunsGuarded(sv, held, plan[1..], effects[1..], safe);
      }
    }
  }

  lemma RunsTouch(sv: Server, held: set<nat>, e: Effect, safe: bool)
    requires safe ==> Covered(sv, held, e)
    ensures Runs(sv, held, [Touch(e)], held, [e], safe)
  {
    hide Covered;
    assert [Touch(e)][1..] == [] && [e][1..] == [];
    RunsNothing(sv, held, safe);
  }

  lemma RunsNothing(sv: Server, held: set<nat>, safe: bool)
    ensures Runs(sv, held, [], held, [], safe)
  {
  }

  /** One lock around a piece of work. */
  lemma RunsAround(sv: Server, held: set<nat>, l: nat, inner: seq<Act>, effects: seq<Effect>, safe: bool)
    requires (forall h | h in held :: h < l) && Runs(sv, held + {l}, inner, held + {l}, effects, safe)
    ensures Runs(sv, held, [Acquire(l)] + inner + [Release(l)], held, effects, safe)
  {
    hide Covered;
    assert held + {l} - {l} == held;
    assert [Release(l)][1..] == [];
    assert Runs(sv, held + {l}, [Release(l)], held, [], safe);
    RunsThen(sv, held + {l}, inner, held + {l}, [Release(l)], held, effects, [], safe);
    assert effects + [] == effects;
    var plan := [Acquire(l)] + inner + [Release(l)];
    assert plan[0] == Acquire(l) && plan[1..] == inner + [Release(l)];
  }

  lemma RunsLocked(sv: Server, held: set<nat>, l: nat, e: Effect, safe: bool)
    requires (forall h | h in held :: h < l) && (safe ==> Covered(sv, held + {l}, e))
    ensures Runs(sv, held, [Acquire(l), Touch(e), Release(l)], held, [e], safe)
  {
    hide Runs, Covered;
    RunsTouch(sv, held + {l}, e, safe);
    RunsAround(sv, held, l, [Touch(e)], [e], safe);
    assert [Acquire(l)] + [Touch(e)] + [Release(l)] == [Acquire(l), Touch(e), Release(l)];
  }

  /** A body under shard locks `held`, the own effect covered by them. */
  lemma {:induction false} BodyRuns(sv: Server, held: set<nat>, own: Effect, body: seq<Piece>, safe: bool)
    requires forall h | h in held :: h < sv.shards
    requires safe ==> held != {} && Covered(sv, held, own)
    requires safe && (Evict in body || Swap in body) ==> AllShards(sv, held)
    ensures Runs(sv, held, BodyPlan(sv, own, body), held, Effects(own, body), safe)
    decreases |body|
  {
    hide Runs;
    if body == [] {
      RunsNothing(sv, held, safe);
    } else {
      BodyRuns(sv, held, own, body[1..], safe);
      PieceRuns(sv, held, own, body[0], safe);
      RunsThen(sv, held, PiecePlan(sv, own, body[0]), held, BodyPlan(sv, own, body[1..]), held,
               [PieceEffect(own, body[0])], Effects(own, body[1..]), safe);
    }
  }

  lemma PieceRuns(sv: Server, held: set<nat>, own: Effect, p: Piece, safe: bool)
    requires forall h | h in held :: h < sv.shards
    requires safe ==> held != {} && Covered(sv, held, own)
    requires safe && (p == Evict || p == Swap) ==> AllShards(sv, held)
    ensures Runs(sv, held, PiecePlan(sv, own, p), held, [PieceEffect(own, p)], safe)
  {
    hide Runs;
    match p {
      case Append =>
        if safe {
          var h :| h in held;
          assert h in held + {AofLock(sv)};
        }
        RunsLocked(sv, held, AofLock(sv), LogAppend, safe);
      case Broadcast => RunsLocked(sv, held, ReplicasLock(sv), Replicas, safe);
      case _ => RunsTouch(sv, held, PieceEffect(own, p), safe);
    }
  }

  lemma {:induction false} AllRuns(sv: Server, from: nat, held: set<nat>, body: seq<Piece>)
    requires from <= sv.shards && sv.shards > 0
    requires forall h :: h in held <==> 0 <= h < from
    ensures Runs(sv, held, AllPlan(sv, from, body), held, Effects(Table, body), true)
    decreases sv.shards - from
  {
    hide Runs;
    if from == sv.shards {
      assert 0 in held;
      BodyRuns(sv, held, Table, body, true);
    } else {
      AllRuns(sv, from + 1, held + {from}, body);
      RunsAround(sv, held, from, AllPlan(sv, from + 1, body), Effects(Table, body), true);
    }
  }

  /** The operation touches everything under its locks. */
  predicate Safe(sv: Server, op: Operation) {
    op.Keyed? && Evict in op.body ==> sv.shards == 1
  }

  /** Every operation takes locks in order, returns what it took and touches exactly what it needs;
      and everything under the right locks unless it evicts under one bucket lock of several. */
  lemma PlanRuns(sv: Server, op: Operation)
    requires sv.shards > 0 && Fits(sv, op)
    ensures Runs(sv, {}, Plan(sv, op), {}, Needs(op), Safe(sv, op))
  {
    hide Runs;
    match op {
      case Keyed(s, body) =>
        BodyRuns(sv, {} + {s}, Chain(s), body, Safe(sv, op));
        RunsAround(sv, {}, s, BodyPlan(sv, Chain(s), body), Needs(op), Safe(sv, op));
      case Global(body) => AllRuns(sv, 0, {}, body);
      case Escalating(s, body) =>
        RunsNothing(sv, {} + {s}, true);
        RunsAround(sv, {}, s, [], [], true);
        AllRuns(sv, 0, {}, body);
        RunsThen(sv, {}, [Acquire(s)] + [] + [Release(s)], {}, AllPlan(sv, 0, body), {}, [], Needs(op), true);
        assert [Acquire(s)] + [] + [Release(s)] == [Acquire(s), Release(s)] && [] + Needs(op) == Needs(op);
      case Sync => RunsLocked(sv, {}, AofLock(sv), LogSync, true);
      case AddReplica => RunsLocked(sv, {}, ReplicasLock(sv), Replicas, true);
      case Enqueue(c, submits) => EnqueueRuns(sv, c, submits);
      case CloseClient(c) => CloseRuns(sv, c);
      case WithClient(c) => RunsLocked(sv, {}, ClientLock(sv, c), ClientState(c), true);
      case ReleaseRef => RunsLocked(sv, {}, ClientsLock(sv), ClientList, true);
      case PoolRegion => RunsLocked(sv, {}, QueueLock(sv), TaskQueue, true);
    }
  }

  lemma EnqueueRuns(sv: Server, c: nat, submits: bool)
    requires c < sv.clients
    ensures var op := Enqueue(c, submits); Runs(sv, {}, Plan(sv, op), {}, Needs(op), true)
  {
    hide Runs;
    var a, b, q := ClientsLock(sv), ClientLock(sv, c), QueueLock(sv);
    var held := {a} + {b};
    var state, rest := [Touch(ClientState(c))], [Acquire(q), Touch(TaskQueue), Release(q)];
    RunsTouch(sv, held, ClientState(c), true);
    var inner, effects := state, [ClientState(c)];
    if submits {
      RunsTouch(sv, held, ClientList, true);
      RunsLocked(sv, held, q, TaskQueue, true);
      RunsThen(sv, held, [Touch(ClientList)], held, rest, held, [ClientList], [TaskQueue], true);
      RunsThen(sv, held, state, held, [Touch(ClientList)] + rest, held, effects, [ClientList] + [TaskQueue], true);
      inner, effects := state + ([Touch(ClientList)] + rest), effects + ([ClientList] + [TaskQueue]);
    }
    RunsAround(sv, {a}, b, inner, effects, true);
    assert {} + {a} == {a};
    RunsAround(sv, {}, a, [Acquire(b)] + inner + [Release(b)], effects, true);
    assert Plan(sv, Enqueue(c, submits)) == [Acquire(a)] + ([Acquire(b)] + inner + [Release(b)]) + [Release(a)];
    assert Needs(Enqueue(c, submits)) == effects;
  }

  lemma CloseRuns(sv: Server, c: nat)
    requires c < sv.clients
    ensures var op := CloseClient(c); Runs(sv, {}, Plan(sv, op), {}, Needs(op), true)
  {
    hide Runs;
    var a, b := ClientsLock(sv), ClientLock(sv, c);
    var state := [Acquire(b), Touch(ClientState(c)), Release(b)];
    RunsLocked(sv, {a}, b, ClientState(c), true);
    RunsTouch(sv, {a}, ClientList, true);
    RunsThen(sv, {a}, state, {a}, [Touch(ClientList)], {a}, [ClientState(c)], [ClientList], true);
    assert {} + {a} == {a};
    RunsAround(sv, {}, a, state + [Touch(ClientList)], [ClientState(c)] + [ClientList], true);
    assert Plan(sv, CloseClient(c)) == [Acquire(a)] + (state + [Touch(ClientList)]) + [Release(a)];
    assert Needs(CloseClient(c)) == [ClientState(c)] + [ClientList];
  }

  function AllNeeds(ops: seq<Operation>): seq<Effect> {
    if ops == [] then [] else Needs(ops[0]) + AllNeeds(ops[1..])
  }

  predicate AllSafe(sv: Server, ops: seq<Operation>) {
    forall op | op in ops :: Safe(sv, op)
  }

  lemma {:induction false} ProgramRuns(sv: Server, ops: seq<Operation>)
    requires sv.shards > 0 && forall op | op in ops :: Fits(sv, op)
    ensures Runs(sv, {}, Program(sv, ops), {}, AllNeeds(ops), AllSafe(sv, ops))
    decreases |ops|
  {
    hide Runs, Plan, Needs, Safe, Fits;
    if ops == [] {
      RunsNothing(sv, {}, true);
    } else {
      var safe := AllSafe(sv, ops);
      PlanRuns(sv, ops[0]);
      ProgramRuns(sv, ops[1..]);
      assert safe ==> Safe(sv, ops[0]) && AllSafe(sv, ops[1..]);
      RunsLess(sv, {}, Plan(sv, ops[0]), {}, Needs(ops[0]), Safe(sv, ops[0]), safe);
      RunsLess(sv, {}, Program(sv, ops[1..]), {}, AllNeeds(ops[1..]), AllSafe(sv, ops[1..]), safe);
      RunsThen(sv, {}, Plan(sv, ops[0]), {}, Program(sv, ops[1..]), {}, Needs(ops[0]), AllNeeds(ops[1..]), safe);
    }
  }

  lemma {:induction false} RunsLess(sv: Server, held: set<nat>, plan: seq<Act>, end: set<nat>, effects: seq<Effect>,
                                    safe: bool, safe': bool)
    requires Runs(sv, held, plan, end, effects, safe) && (safe' ==> safe)
    ensures Runs(sv, held, plan, end, effects, safe')
    decreases |plan|
  {
    hide Covered;
    if plan != [] {
      match plan[0] {
        case Acquire(l) => RunsLess(sv, held + {l}, plan[1..], end, effects, safe, safe');
        case Release(l) => RunsLess(sv, held - {l}, plan[1..], end, effects, safe, safe');
        case Touch(e) => RunsLess(sv, held, plan[1..], end, effects[1..], safe, safe');
      }
    }
  }

  /** Threads at the start, each with its sequence of operations. */
  function Start(sv: Server, programs: seq<seq<Operation>>): seq<Thread> {
    seq(|programs|, i requires 0 <= i < |programs| => Thread({}, Program(sv, programs[i])))
  }

  predicate AllFit(sv: Server, programs: seq<seq<Operation>>) {
    forall p | p in programs :: forall op | op in p :: Fits(sv, op)
  }

  lemma StartRuns(sv: Server, programs: seq<seq<Operation>>)
    requires sv.shards > 0 && AllFit(sv, programs)
    ensures Inv(Start(sv, programs))
    ensures forall i | 0 <= i < |programs| :: Touched(Start(sv, programs)[i].plan) == AllNeeds(programs[i])
    ensures (forall p | p in programs :: AllSafe(sv, p)) ==> AllGuarded(sv, Start(sv, programs))
  {
    hide Ordered, Runs, Program, AllNeeds, Guarded, Touched, AllSafe;
    forall i | 0 <= i < |programs|
      ensures var t := Start(sv, programs)[i];
              && Ordered(t.held, t.plan) && Touched(t.plan) == AllNeeds(programs[i])
              && (AllSafe(sv, programs[i]) ==> Guarded(sv, t.held, t.plan))
    {
      assert programs[i] in programs;
      ProgramRuns(sv, programs[i]);
      RunsOrdered(sv, {}, Program(sv, programs[i]), AllNeeds(programs[i]), AllSafe(sv, programs[i]));
      RunsTouched(sv, {}, Program(sv, programs[i]), AllNeeds(programs[i]), AllSafe(sv, programs[i]));
      if AllSafe(sv, programs[i]) {
        RunsGuarded(sv, {}, Program(sv, programs[i]), AllNeeds(programs[i]), true);
      }
    }
  }

  /** Any number of threads, each running any sequence of operations, under any schedule: no
      reachable state is stuck, no lock is held twice, and no schedule is longer than the work. */
  lemma NoDeadlock(sv: Server, programs: seq<seq<Operation>>, schedule: seq<nat>, ts: seq<Thread>)
    requires sv.shards > 0 && AllFit(sv, programs) && Reaches(Start(sv, programs), schedule, ts)
    ensures (exists k :: 0 <= k < |ts| && Unfinished(ts[k])) ==> exists i :: CanStep(ts, i)
    ensures forall i, j | 0 <= i < j < |ts| :: ts[i].held !! ts[j].held
    ensures |schedule| + Work(ts) == Work(Start(sv, programs))
  {
    StartRuns(sv, programs);
    hide Ordered, Program, AllNeeds, Touched;
    ReachesInv(Start(sv, programs), schedule, ts);
    if exists k :: 0 <= k < |ts| && Unfinished(ts[k]) {
      SomeoneCanStep(ts);
    }
  }

  /** Two threads never touch the same chain, log, list or queue at once, in any state of any run,
      unless one of them evicts under a bucket lock, or kv_sync meets a merge. */
  lemma Exclusion(sv: Server, programs: seq<seq<Operation>>, schedule: seq<nat>, ts: seq<Thread>, i: nat, j: nat)
    requires sv.shards > 0 && AllFit(sv, programs) && Reaches(Start(sv, programs), schedule, ts)
    requires Clash(ts, i, j)
    ensures (exists p :: p in programs && !AllSafe(sv, p)) || SyncAgainstSwap(ts[i].plan[0].e, ts[j].plan[0].e)
  {
    hide Reaches, Inv, AllGuarded, AllSafe, AllFit, Start, Clash;
    if forall p | p in programs :: AllSafe(sv, p) {
      assert Inv(Start(sv, programs)) && AllGuarded(sv, Start(sv, programs)) by { StartRuns(sv, programs); }
      ReachesInv(Start(sv, programs), schedule, ts);
      ReachesGuarded(sv, Start(sv, programs), schedule, ts);
      NoClash(sv, ts, i, j);
    }
  }

  // ----- When nobody clashes -----

  /** Only servers that sync have a thread about to sync the log, and only those that merge one about
      to exchange it. */
  predicate Licensed(sv: Server, effects: seq<Effect>) {
    forall e | e in effects :: (e == LogSync ==> sv.syncs) && (e == LogSwap ==> sv.merges)
  }

  lemma {:induction false} BodyLicensed(sv: Server, own: Effect, body: seq<Piece>)
    requires (Swap in body ==> sv.merges) && own != LogSync && own != LogSwap
    ensures Licensed(sv, Effects(own, body))
    decreases |body|
  {
    if body != [] {
      BodyLicensed(sv, own, body[1..]);
    }
  }

  lemma {:induction false} NeedsLicensed(sv: Server, ops: seq<Operation>)
    requires forall op | op in ops :: Fits(sv, op)
    ensures Licensed(sv, AllNeeds(ops))
    decreases |ops|
  {
    hide Needs, Fits;
    if ops != [] {
      assert ops[0] in ops;
      NeedsLicensed(sv, ops[1..]);
      OneLicensed(sv, ops[0]);
    }
  }

  lemma OneLicensed(sv: Server, op: Operation)
    requires Fits(sv, op)
    ensures Licensed(sv, Needs(op))
  {
    match op {
      case Keyed(s, body) => BodyLicensed(sv, Chain(s), body);
      case Global(body) => BodyLicensed(sv, Table, body);
      case Escalating(_, body) => BodyLicensed(sv, Table, body);
      case _ =>
    }
  }

  lemma {:induction false} ReachesLicensed(sv: Server, ts: seq<Thread>, schedule: seq<nat>, end: seq<Thread>)
    requires (forall i | 0 <= i < |ts| :: Licensed(sv, Touched(ts[i].plan))) && Reaches(ts, schedule, end)
    ensures forall i | 0 <= i < |end| :: Licensed(sv, Touched(end[i].plan))
    decreases |schedule|
  {
    if schedule != [] {
      var i := schedule[0];
      assert Licensed(sv, Touched(ts[i].plan));
      var t := StepThread(ts[i]);
      assert forall e | e in Touched(t.plan) :: e in Touched(ts[i].plan);
      hide Touched, Licensed;
      ReachesLicensed(sv, Next(ts, i), schedule[1..], end);
    }
  }

  ghost predicate Reachable(sv: Server, programs: seq<seq<Operation>>, schedule: seq<nat>, ts: seq<Thread>) {
    AllFit(sv, programs) && Reaches(Start(sv, programs), schedule, ts)
  }

  lemma ReachableLicensed(sv: Server, programs: seq<seq<Operation>>, schedule: seq<nat>, ts: seq<Thread>, i: nat)
    requires sv.shards > 0 && Reachable(sv, programs, schedule, ts)
    requires i < |ts| && ts[i].plan != [] && ts[i].plan[0].Touch?
    ensures (ts[i].plan[0].e == LogSync ==> sv.syncs) && (ts[i].plan[0].e == LogSwap ==> sv.merges)
  {
    StartRuns(sv, programs);
    forall k | 0 <= k < |programs|
      ensures Licensed(sv, Touched(Start(sv, programs)[k].plan))
    {
      assert programs[k] in programs;
      NeedsLicensed(sv, programs[k]);
    }
    hide Inv, AllGuarded, Start, AllFit;
    ReachesLicensed(sv, Start(sv, programs), schedule, ts);
    assert Licensed(sv, Touched(ts[i].plan)) && ts[i].plan[0].e in Touched(ts[i].plan);
  }

  /** The whole promise of the locks: no two threads of any run ever touch conflicting things at once. */
  ghost predicate Exclusive(sv: Server) {
    forall programs, schedule, ts, i, j | Reachable(sv, programs, schedule, ts) :: !Clash(ts, i, j)
  }

  /** It is kept if and only if no eviction can happen under one bucket lock of several, and kv_sync
      and merges do not both occur. */
  lemma ExclusiveIff(sv: Server)
    requires sv.shards > 0
    ensures Exclusive(sv) <==> !(sv.budgeted && sv.shards > 1) && !(sv.syncs && sv.merges)
  {
    hide Reachable, Clash, Reaches;
    if !(sv.budgeted && sv.shards > 1) && !(sv.syncs && sv.merges) {
      forall programs, schedule, ts, i, j | Reachable(sv, programs, schedule, ts)
        ensures !Clash(ts, i, j)
      {
        NeverClash(sv, programs, schedule, ts, i, j);
      }
    } else if sv.budgeted && sv.shards > 1 {
      var programs, schedule, ts := EvictionClashes(sv);
      assert Reachable(sv, programs, schedule, ts) && Clash(ts, 0, 1);
    } else {
      var programs, schedule, ts := SyncMeetsMerge(sv);
      assert Reachable(sv, programs, schedule, ts) && Clash(ts, 0, 1);
    }
  }

  lemma NeverClash(sv: Server, programs: seq<seq<Operation>>, schedule: seq<nat>, ts: seq<Thread>, i: nat, j: nat)
    requires sv.shards > 0 && Reachable(sv, programs, schedule, ts)
    requires !(sv.budgeted && sv.shards > 1) && !(sv.syncs && sv.merges)
    ensures !Clash(ts, i, j)
  {
    hide Reaches, Start;
    if Clash(ts, i, j) {
      forall p | p in programs
        ensures AllSafe(sv, p)
      {
        assert forall op | op in p :: Fits(sv, op);
      }
      Exclusion(sv, programs, schedule, ts, i, j);
      ReachableLicensed(sv, programs, schedule, ts, i);
      ReachableLicensed(sv, programs, schedule, ts, j);
    }
  }

  lemma OneStep(ts: seq<Thread>, i: nat, schedule: seq<nat>, end: seq<Thread>)
    requires CanStep(ts, i) && Reaches(Next(ts, i), schedule, end)
    ensures Reaches(ts, [i] + schedule, end)
  {
    assert ([i] + schedule)[1..] == schedule;
  }

  lemma NoStep(ts: seq<Thread>)
    ensures Reaches(ts, [], ts)
  {
  }

  lemma OneOperation(sv: Server, op: Operation)
    ensures Program(sv, [op]) == Plan(sv, op)
  {
    assert [op][1..] == [];
    assert Plan(sv, op) + [] == Plan(sv, op);
  }

  /** Two operations on keys of different shards, each with its bucket lock and at its work. */
  lemma BothInside(sv: Server, s: nat, p: Piece, t: nat) returns (schedule: seq<nat>, ts: seq<Thread>)
    requires s < sv.shards && t < sv.shards && s != t && (p == Own || p == Evict)
    ensures Reaches(Start(sv, [[Keyed(s, [p])], [Keyed(t, [Own])]]), schedule, ts)
    ensures |ts| == 2 && ts[0].plan == [Touch(PieceEffect(Chain(s), p)), Release(s)]
    ensures ts[1].plan == [Touch(Chain(t)), Release(t)]
  {
    hide Reaches;
    var programs := [[Keyed(s, [p])], [Keyed(t, [Own])]];
    OneOperation(sv, Keyed(s, [p]));
    OneOperation(sv, Keyed(t, [Own]));
    KeyedPlan(sv, s, p);
    KeyedPlan(sv, t, Own);
    var a := Start(sv, programs);
    assert a == [Thread({}, Plan(sv, Keyed(s, [p]))), Thread({}, Plan(sv, Keyed(t, [Own])))];
    var b := Next(a, 0);
    ts := Next(b, 1);
    NoStep(ts);
    OneStep(b, 1, [], ts);
    OneStep(a, 0, [1] + [], ts);
    schedule := [0] + ([1] + []);
  }

  lemma KeyedPlan(sv: Server, s: nat, p: Piece)
    requires p == Own || p == Evict
    ensures Plan(sv, Keyed(s, [p])) == [Acquire(s), Touch(PieceEffect(Chain(s), p)), Release(s)]
  {
    assert [p][1..] == [];
    assert BodyPlan(sv, Chain(s), [p]) == [Touch(PieceEffect(Chain(s), p))];
  }

  /** Under a budget: a SET evicts, holding its own bucket lock, while a GET walks another chain. */
  lemma EvictionClashes(sv: Server) returns (programs: seq<seq<Operation>>, schedule: seq<nat>, ts: seq<Thread>)
    requires sv.budgeted && sv.shards > 1
    ensures Reachable(sv, programs, schedule, ts) && Clash(ts, 0, 1)
    ensures ts[0].plan[0] == Touch(Table) && ts[1].plan[0] == Touch(Chain(1))
  {
    programs := [[Keyed(0, [Evict])], [Keyed(1, [Own])]];
    schedule, ts := BothInside(sv, 0, Evict, 1);
    hide Reaches;
  }

  /** The releases of kv_release_all_locks down to shard `from`. */
  function Releases(sv: Server, from: nat): seq<Act>
    requires from <= sv.shards
    decreases sv.shards - from
  {
    if from == sv.shards then [] else Releases(sv, from + 1) + [Release(from)]
  }

  /** The second of two threads takes all shard locks while the first holds none of them. */
  lemma {:induction false} TakesAll(sv: Server, t: Thread, held: set<nat>, from: nat, body: seq<Piece>, rest: seq<Act>)
    returns (schedule: seq<nat>, ts: seq<Thread>)
    requires from <= sv.shards && (forall s | 0 <= s < sv.shards :: s !in t.held)
    requires forall h | h in held :: h < from
    ensures Reaches([t, Thread(held, AllPlan(sv, from, body) + rest)], schedule, ts)
    ensures |ts| == 2 && ts[0] == t && ts[1].plan == BodyPlan(sv, Table, body) + (Releases(sv, from) + rest)
    decreases sv.shards - from
  {
    hide Reaches, BodyPlan;
    var a := [t, Thread(held, AllPlan(sv, from, body) + rest)];
    if from == sv.shards {
      schedule, ts := [], a;
      NoStep(ts);
      assert [] + rest == rest;
    } else {
      schedule, ts := TakesAll(sv, t, held + {from}, from + 1, body, [Release(from)] + rest);
      var plan := a[1].plan;
      assert plan[0] == Acquire(from) && plan[1..] == AllPlan(sv, from + 1, body) + ([Release(from)] + rest);
      assert CanStep(a, 1);
      assert Next(a, 1) == [t, Thread(held + {from}, AllPlan(sv, from + 1, body) + ([Release(from)] + rest))];
      OneStep(a, 1, schedule, ts);
      schedule := [1] + schedule;
      assert Releases(sv, from + 1) + ([Release(from)] + rest) == Releases(sv, from) + rest;
    }
  }

  /** kv_sync flushes the log file while a merge, which does not take aof_lock, closes it. */
  lemma SyncMeetsMerge(sv: Server) returns (programs: seq<seq<Operation>>, schedule: seq<nat>, ts: seq<Thread>)
    requires sv.syncs && sv.merges
    ensures Reachable(sv, programs, schedule, ts) && Clash(ts, 0, 1)
    ensures ts[0].plan[0] == Touch(LogSync) && ts[1].plan[0] == Touch(LogSwap)
  {
    programs := [[Sync], [Global([Swap])]];
    OneOperation(sv, Sync);
    OneOperation(sv, Global([Swap]));
    var a := Start(sv, programs);
    assert a == [Thread({}, Plan(sv, Sync)), Thread({}, AllPlan(sv, 0, [Swap]))];
    hide Reaches, AllPlan;
    var t := StepThread(a[0]);
    assert AllPlan(sv, 0, [Swap]) + [] == AllPlan(sv, 0, [Swap]);
    schedule, ts := TakesAll(sv, t, {}, 0, [Swap], []);
    assert Next(a, 0) == [t, a[1]];
    OneStep(a, 0, schedule, ts);
    schedule := [0] + schedule;
    assert [Swap][1..] == [] && BodyPlan(sv, Table, [Swap]) == [Touch(LogSwap)];
  }

  /** Two threads are about to touch, for keys with these hashes, one and the same chain of a table
      of `buckets` buckets. */
  ghost predicate ShareChain(sv: Server, ts: seq<Thread>, i: nat, j: nat, buckets: nat)
    requires sv.shards > 0 && buckets > 0
  {
    exists h: nat, g: nat :: InChain(sv, ts, i, h) && InChain(sv, ts, j, g) && i != j && h % buckets == g % buckets
                             && h < Sharding.HASHES && g < Sharding.HASHES
  }

  predicate InChain(sv: Server, ts: seq<Thread>, i: nat, h: nat)
    requires sv.shards > 0
  {
    i < |ts| && ts[i].plan != [] && ts[i].plan[0] == Touch(Chain(h % sv.shards))
  }

  /** Without a budget no two threads are ever in one chain, under any schedule of any operations, if
      and only if the number of locks divides the number of buckets. */
  lemma ChainExclusionIff(sv: Server, buckets: nat)
    requires sv.shards > 0 && !sv.budgeted && 0 < buckets < Sharding.HASHES
    ensures (forall programs, schedule, ts, i, j | Reachable(sv, programs, schedule, ts) ::
               !ShareChain(sv, ts, i, j, buckets))
            <==> buckets % sv.shards == 0
  {
    hide Reachable, Reaches;
    Sharding.ProtectedIff(buckets, sv.shards);
    if buckets % sv.shards == 0 {
      forall programs, schedule, ts, i, j | Reachable(sv, programs, schedule, ts)
        ensures !ShareChain(sv, ts, i, j, buckets)
      {
        OneThreadPerChain(sv, programs, schedule, ts, i, j, buckets);
      }
    } else {
      var t := buckets % sv.shards;
      var programs, schedule, ts := ChainShared(sv, t);
      assert InChain(sv, ts, 0, 0) && InChain(sv, ts, 1, buckets);
      assert ShareChain(sv, ts, 0, 1, buckets);
    }
  }

  lemma OneThreadPerChain(sv: Server, programs: seq<seq<Operation>>, schedule: seq<nat>, ts: seq<Thread>,
                          i: nat, j: nat, buckets: nat)
    requires sv.shards > 0 && !sv.budgeted && buckets > 0 && Sharding.ChainsProtected(buckets, sv.shards)
    requires Reachable(sv, programs, schedule, ts)
    ensures !ShareChain(sv, ts, i, j, buckets)
  {
    hide Reaches, Start;
    if ShareChain(sv, ts, i, j, buckets) {
      assert Clash(ts, i, j);
      forall p | p in programs
        ensures AllSafe(sv, p)
      {
        assert forall op | op in p :: Fits(sv, op);
      }
      Exclusion(sv, programs, schedule, ts, i, j);
    }
  }

  lemma ChainShared(sv: Server, t: nat) returns (programs: seq<seq<Operation>>, schedule: seq<nat>, ts: seq<Thread>)
    requires 0 < t < sv.shards
    ensures Reachable(sv, programs, schedule, ts) && InChain(sv, ts, 0, 0)
    ensures |ts| == 2 && ts[1].plan != [] && ts[1].plan[0] == Touch(Chain(t))
  {
    programs := [[Keyed(0, [Own])], [Keyed(t, [Own])]];
    schedule, ts := BothInside(sv, 0, Own, t);
    hide Reaches;
  }
}

/** Lock sharding: which bucket counts let a shard lock protect whole chains
    (kv_lock_index and the num_locks computation of kv_init_full). */
module Sharding {
  const MAX_LOCKS: nat := 64
  const DEFAULT_LOCKS: nat := 32
  const HASHES: nat := 0x1_0000_0000_0000_0000

  /** num_locks chosen for an initial bucket count. */
  function NumLocks(bucketCount: nat): nat {
    if bucketCount > MAX_LOCKS then MAX_LOCKS
    else if bucketCount < DEFAULT_LOCKS then DEFAULT_LOCKS
    else bucketCount
  }

  /** Keys in the same bucket use the same lock, for every pair of 64-bit hashes. */
  ghost predicate ChainsProtected(buckets: nat, locks: nat)
    requires buckets > 0 && locks > 0
  {
    forall h, g | 0 <= h < HASHES && 0 <= g < HASHES && h % buckets == g % buckets :: h % locks == g % locks
  }

  lemma {:induction false} MultipleMod(m: nat, q: nat, r: nat)
    requires m > 0
    ensures (m * q + r) % m == r % m
  {
    if q > 0 {
      MultipleMod(m, q - 1, r);
      assert m * q + r == m * (q - 1) + r + m;
      AddModulus(m * (q - 1) + r, m);
    }
  }

  lemma AddModulus(x: nat, m: nat)
    requires m > 0
    ensures (x + m) % m == x % m
  {
    var q, r := x / m, x % m;
    assert x + m == m * (q + 1) + r;
    DivModUnique(x + m, m, q + 1, r);
  }

  lemma DivModUnique(x: nat, m: nat, q: nat, r: nat)
    requires m > 0 && x == m * q + r && r < m
    ensures x % m == r
  {
    var q', r' := x / m, x % m;
    assert x == m * q' + r' && 0 <= r' < m;
    assert q' < q ==> m * (q' + 1) <= m * q;
    assert q' > q ==> m * (q + 1) <= m * q';
  }

  lemma ReduceTwice(h: nat, buckets: nat, locks: nat)
    requires locks > 0 && buckets > 0 && buckets % locks == 0
    ensures h % locks == (h % buckets) % locks
  {
    var k, q, r := buckets / locks, h / buckets, h % buckets;
    assert buckets == locks * k;
    assert h == buckets * q + r;
    assert h == locks * (k * q) + r by { assert locks * k * q == locks * (k * q); }
    MultipleMod(locks, k * q, r);
  }

  /** A shard lock protects whole chains if and only if the lock count divides the bucket count. */
  lemma ProtectedIff(buckets: nat, locks: nat)
    requires 0 < buckets < HASHES && locks > 0
    ensures ChainsProtected(buckets, locks) <==> buckets % locks == 0
  {
    if buckets % locks == 0 {
      forall h, g | 0 <= h < HASHES && 0 <= g < HASHES && h % buckets == g % buckets
        ensures h % locks == g % locks
      {
        ReduceTwice(h, buckets, locks);
        ReduceTwice(g, buckets, locks);
      }
    } else {
      // hashes 0 and `buckets` share a bucket but not a lock
      assert 0 % buckets == buckets % buckets && 0 % locks != buckets % locks;
    }
  }

  function Pow2(k: nat): nat {
    if k == 0 then 1 else 2 * Pow2(k - 1)
  }

  /** The bucket count after `k` automatic doublings. */
  function Doubled(initial: nat, k: nat): nat {
    initial * Pow2(k)
  }

  lemma {:induction false} DoublingKeepsMultiple(initial: nat, k: nat, locks: nat)
    requires locks > 0 && initial % locks == 0
    ensures Doubled(initial, k) % locks == 0
  {
    var q := initial / locks;
    assert initial == locks * q;
    assert Doubled(initial, k) == locks * (q * Pow2(k)) by { assert locks * q * Pow2(k) == locks * (q * Pow2(k)); }
    MultipleMod(locks, q * Pow2(k), 0);
  }

  /** From the initial count on, through every automatic doubling, chains are protected if and
      only if the store starts with 32 to 64 buckets or a multiple of 64. */
  lemma ShardExclusion(initial: nat)
    requires 0 < initial < HASHES
    ensures (forall k: nat | 0 < Doubled(initial, k) < HASHES ::
               ChainsProtected(Doubled(initial, k), NumLocks(initial)))
            <==> (32 <= initial <= 64 || initial % 64 == 0)
  {
    var locks := NumLocks(initial);
    assert initial % locks == 0 <==> DEFAULT_LOCKS <= initial <= MAX_LOCKS || initial % MAX_LOCKS == 0;
    if initial % locks == 0 {
      forall k: nat | 0 < Doubled(initial, k) < HASHES
        ensures ChainsProtected(Doubled(initial, k), locks)
      {
        DoublingKeepsMultiple(initial, k, locks);
        ProtectedIff(Doubled(initial, k), locks);
      }
    } else {
      assert Doubled(initial, 0) == initial;
      ProtectedIff(initial, locks);
    }
  }
}
