/** Whole runs of the imperative store: what its methods do, call after call, is a run of the state
    machine in Compaction, and the limits of the store hold throughout. */
module Runs {
  import opened Common
  import opened Spec
  import opened LogText
  import opened Durability
  import opened Table
  import opened Queues
  import opened Steps
  import opened Compaction
  import opened Eviction
  import opened Recency
  import opened Store

  /** What a server thread, the sweeper or the event loop asks of the store. */
  datatype Call =
    | Do(op: Op, env: Env)
    | SweepNow(sample: nat, limit: nat, at: int)
    | StartRewrite(at: int, saving: bool, forkOk: bool)
    | EndRewrite(outcome: MergeOutcome)
    | DropRewrite

  /** What a call came to: an event of the state machine, or the keys a sweep removed. */
  datatype Change = Did(ev: Event) | Swept(gone: set<bytes>) | Nothing

  function Changed(db: Db, c: Change): Db {
    match c
    case Did(ev) => Next(db, ev)
    case Swept(gone) => db.(items := db.items - gone)
    case Nothing => db
  }

  /** What `call` may come to on `db`, and what it answers. */
  ghost predicate Outcome(db: Db, call: Call, c: Change, t: Turn) {
    match call
    case Do(op, env) => c == Did(Command(op, env)) && t == Answered(op, Step(db, op, env).reply)
    case SweepNow(_, limit, at) =>
      c.Swept? && |c.gone| <= limit && SweptFrom(db.items, db.items - c.gone, c.gone, at)
    case StartRewrite(at, saving, forkOk) =>
      if db.log == NoLog || saving || db.rewrite.Some? || !forkOk then c == Nothing
      else c.Did? && c.ev.BgRewrite? && c.ev.now == at && Unique(c.ev.es) && MapOf(c.ev.es) == db.items
    case EndRewrite(outcome) => c == Did(Merge(outcome))
    case DropRewrite => c == Did(Discard)
  }

  function After(db: Db, changes: seq<Change>): Db
    decreases |changes|
  {
    if changes == [] then db else After(Changed(db, changes[0]), changes[1..])
  }

  ghost predicate Outcomes(db: Db, calls: seq<Call>, changes: seq<Change>, turns: seq<Turn>)
    decreases |calls|
  {
    && |changes| == |calls| == |turns|
    && (calls == [] || (Outcome(db, calls[0], changes[0], turns[0])
                        && Outcomes(Changed(db, changes[0]), calls[1..], changes[1..], turns[1..])))
  }

  /** Every call keeps to the condition under which the files stay faithful, before time `T`. */
  ghost predicate SafeCalls(db: Db, calls: seq<Call>, changes: seq<Change>, T: int)
    decreases |calls|
  {
    && |changes| == |calls|
    && (calls == [] || (&& (calls[0].SweepNow? ==> calls[0].at <= T)
                        && (changes[0].Did? ==> Possible(db, changes[0].ev, T) && Safe(db, changes[0].ev))
                        && SafeCalls(Changed(db, changes[0]), calls[1..], changes[1..], T)))
  }

  lemma {:induction false} AfterOneMore(db: Db, calls: seq<Call>, changes: seq<Change>, turns: seq<Turn>,
                                        call: Call, c: Change, t: Turn)
    requires Outcomes(db, calls, changes, turns) && Outcome(After(db, changes), call, c, t)
    ensures Outcomes(db, calls + [call], changes + [c], turns + [t])
    ensures After(db, changes + [c]) == Changed(After(db, changes), c)
    decreases |calls|
  {
    hide Outcome, Changed;
    if calls == [] {
      assert ([call])[1..] == [] && ([c])[1..] == [] && ([t])[1..] == [];
      assert [] + [call] == [call] && [] + [c] == [c] && [] + [t] == [t];
    } else {
      AfterOneMore(Changed(db, changes[0]), calls[1..], changes[1..], turns[1..], call, c, t);
      assert (calls + [call])[1..] == calls[1..] + [call];
      assert (changes + [c])[1..] == changes[1..] + [c];
      assert (turns + [t])[1..] == turns[1..] + [t];
    }
  }

  /** Before `T` a sweep has nothing to remove, and every event is as in Compaction. */
  lemma ChangeKept(db: Db, call: Call, c: Change, t: Turn, T: int)
    requires Recoverable(db, T) && Outcome(db, call, c, t)
    requires call.SweepNow? ==> call.at <= T
    requires c.Did? ==> Possible(db, c.ev, T) && Safe(db, c.ev)
    ensures Recoverable(Changed(db, c), T)
  {
    hide Mirrors, Next, Possible, Safe, WithinCap;
    match c {
      case Did(ev) => EventKeepsRecoverable(db, ev, T);
      case Swept(gone) =>
        assert gone == {};
        assert db.items - gone == db.items;
      case Nothing =>
    }
  }

  /** Whole runs of calls, sweeps included: the log on disk replays to the live map. */
  lemma {:induction false} CallsRecoverable(db: Db, calls: seq<Call>, changes: seq<Change>, turns: seq<Turn>, T: int)
    requires Recoverable(db, T) && Outcomes(db, calls, changes, turns) && SafeCalls(db, calls, changes, T)
    ensures Recoverable(After(db, changes), T)
    decreases |calls|
  {
    hide Recoverable, Outcome, Changed, Possible, Safe;
    if calls != [] {
      ChangeKept(db, calls[0], changes[0], turns[0], T);
      CallsRecoverable(Changed(db, changes[0]), calls[1..], changes[1..], turns[1..], T);
    }
  }

  /** The call adds no key, or is a SET that finds memory for a larger table. */
  predicate KeepsLoad(call: Call) {
    call.Do? ==> !call.op.LPushOp? && !call.op.SAddOp? && (call.op.SetOp? ==> call.env.tableOk)
  }

  predicate Callable(call: Call) {
    call.Do? ==> WellTyped(call.op)
  }

  /** The keys other than `key` that are in `before` and not in `after`. */
  function Lost(before: Items, after: Items, key: bytes): set<bytes> {
    before.Keys - after.Keys - {key}
  }

  lemma LostInOrder(b: Buckets, gone: set<bytes>, hash: Hash, n: nat, key: bytes, lost: set<bytes>)
    requires n > 0 && OldestFirst(b, gone, hash, n, key) && lost <= gone && gone - {key} <= lost
    ensures OldestFirst(b, lost, hash, n, key)
  {
    hide Flat;
  }

  lemma AllLostInOrder(b: Buckets, hash: Hash, n: nat, key: bytes, lost: set<bytes>)
    requires n > 0 && ItemsIn(b).Keys - {key} <= lost
    ensures OldestFirst(b, lost, hash, n, key)
  {
    hide Flat, MapOf;
    MapOfKeys(Flat(b));
    assert forall f | f in Flat(b) :: f.key in Keys(Flat(b));
  }

  /** One command on the store. */
  method Execute(s: KvStore, op: Op, env: Env) returns (reply: Reply, dangling: bool)
    requires s.Valid() && WellTyped(op) && s.clock + 1 < UINT64_MAX
    modifies s`buckets, s`size, s`allocBytes, s`peakBytes, s`clock, s`rewrite, s`log, s`drawn
    ensures s.Valid() && s.clock <= old(s.clock) + 1
    ensures s.budget == 0 ==> !dangling && StepOut(s.View(), reply) == Step(old(s.View()), op, env)
    ensures old(s.WithinBudget()) ==> s.WithinBudget()
    ensures s.budget == 0 && s.autoResize && KeepsLoad(Do(op, env)) && old(s.BelowLoadFactor()) ==> s.BelowLoadFactor()
    ensures s.Used(old(s.buckets), old(s.clock), op, reply)
    ensures !dangling ==>
              OldestFirst(old(s.buckets), Lost(old(s.Items()), s.Items(), op.key), s.hash, |s.buckets|, op.key)
  {
    if op.SetOp? || op.LPushOp? || op.SAddOp? {
      reply, dangling := ExecuteWrite(s, op, env);
    } else {
      dangling := false;
      reply := ExecuteOther(s, op, env);
    }
  }

  /** The commands that may evict. */
  method ExecuteWrite(s: KvStore, op: Op, env: Env) returns (reply: Reply, dangling: bool)
    requires s.Valid() && WellTyped(op) && s.clock + 1 < UINT64_MAX && (op.SetOp? || op.LPushOp? || op.SAddOp?)
    modifies s`buckets, s`size, s`allocBytes, s`peakBytes, s`clock, s`rewrite, s`log, s`drawn
    ensures s.Valid() && s.clock <= old(s.clock) + 1
    ensures s.budget == 0 ==> !dangling && StepOut(s.View(), reply) == Step(old(s.View()), op, env)
    ensures old(s.WithinBudget()) ==> s.WithinBudget()
    ensures s.budget == 0 && s.autoResize && KeepsLoad(Do(op, env)) && old(s.BelowLoadFactor()) ==> s.BelowLoadFactor()
    ensures s.Used(old(s.buckets), old(s.clock), op, reply)
    ensures !dangling ==>
              OldestFirst(old(s.buckets), Lost(old(s.Items()), s.Items(), op.key), s.hash, |s.buckets|, op.key)
  {
    hide KvStore.Valid, KvStore.Items, Step, AppendLog, AppendRewrite, OldestFirst, Pressed, KvStore.Used, ItemsIn;
    dangling := false;
    ghost var gone;
    s.ItemsAre();
    match op {
      case SetOp(key, val) =>
        var st;
        st, gone := s.Set(key, val, env);
        reply := Code(st);
        SetKeys(old(s.Items()), gone, key, val, st);
      case LPushOp(key, val) =>
        reply, dangling, gone := s.LPush(key, val, env);
        PushKeys(old(s.View()), op, env, gone);
      case SAddOp(key, val) =>
        reply, dangling, gone := s.SAdd(key, val, env);
        PushKeys(old(s.View()), op, env, gone);
    }
    ghost var lost := Lost(old(s.Items()), s.Items(), op.key);
    if reply == Code(BudgetExceeded) {
      s.CapacityMatches();
      assert s.Items() == map[];
      AllLostInOrder(old(s.buckets), s.hash, |s.buckets|, op.key, lost);
    } else if !dangling {
      LostIs(old(s.Items()), s.Items(), gone, op.key);
      LostInOrder(old(s.buckets), gone, s.hash, |s.buckets|, op.key, lost);
    }
  }

  lemma LostIs(before: Items, after: Items, gone: set<bytes>, key: bytes)
    requires after.Keys - {key} == before.Keys - gone - {key} && gone <= before.Keys
    ensures var lost := Lost(before, after, key); lost <= gone && gone - {key} <= lost
  {
    var lost := Lost(before, after, key);
    forall k | k in lost
      ensures k in gone
    {
      assert k !in after.Keys - {key};
    }
    forall k | k in gone - {key}
      ensures k in lost
    {
      assert k !in after.Keys - {key};
    }
  }

  lemma SetKeys(m: Items, gone: set<bytes>, key: bytes, val: bytes, st: Status)
    ensures AfterSet(m - gone, key, val, st).Keys - {key} == m.Keys - gone - {key}
  {
  }

  /** A push leaves every key but its own as it finds it. */
  lemma PushKeys(db: Db, op: Op, env: Env, gone: set<bytes>)
    requires op.LPushOp? || op.SAddOp?
    ensures var out := Step(db.(items := db.items - gone), op, env).db.items;
            out.Keys - {op.key} == db.items.Keys - gone - {op.key}
  {
    hide Apply, AppendLog, AppendRewrite, Recs;
    var m := db.items - gone;
    forall k | k != op.key
      ensures k in Apply(m, db.cap, op, env).items <==> k in m
    {
      OtherKey(m, db.cap, op, env, k);
    }
  }

  /** The commands that evict nothing. */
  method ExecuteOther(s: KvStore, op: Op, env: Env) returns (reply: Reply)
    requires s.Valid() && WellTyped(op) && s.clock + 1 < UINT64_MAX && !op.SetOp? && !op.LPushOp? && !op.SAddOp?
    modifies s`buckets, s`size, s`allocBytes, s`peakBytes, s`clock, s`rewrite, s`log, s`drawn
    ensures s.Valid() && s.clock <= old(s.clock) + 1 && |s.buckets| == old(|s.buckets|) && s.size <= old(s.size)
    ensures StepOut(s.View(), reply) == Step(old(s.View()), op, env)
    ensures s.budget > 0 ==> s.peakBytes == old(s.peakBytes)
    ensures s.Used(old(s.buckets), old(s.clock), op, reply)
    ensures OldestFirst(old(s.buckets), Lost(old(s.Items()), s.Items(), op.key), s.hash, |s.buckets|, op.key)
  {
    hide KvStore.Valid, KvStore.Items, Step, OldestFirst, KvStore.Used;
    ghost var before := s.View();
    match op {
      case DeleteOp(key) =>
        var st := s.Delete(key, env);
        reply := Code(st);
      case RPopOp(key) => reply := s.RPop(key, env);
      case SRemOp(key, val) => reply := s.SRem(key, val, env);
      case PExpireAtOp(key, deadline) => reply := s.PExpireAt(key, deadline, env);
      case PersistOp(key) => reply := s.Persist(key, env);
      case GetOp(key) => reply := s.Get(key, env);
      case ExistsOp(key) => reply := s.Exists(key, env);
      case LLenOp(key) => reply := s.LLen(key, env);
      case SCardOp(key) => reply := s.SCard(key, env);
      case SMembersOp(key) =>
        var members := s.SMembers(key, env);
        reply := if members.None? then Nil else Members(SetOf(members.value));
      case PTtlOp(key) => reply := s.PTtl(key, env);
    }
    OthersKept(before, op, env);
    assert Lost(before.items, s.Items(), op.key) == {};
    NobodyFirst(old(s.buckets), s.hash, |s.buckets|, op.key);
  }

  lemma OthersKept(db: Db, op: Op, env: Env)
    ensures Lost(db.items, Step(db, op, env).db.items, op.key) == {}
  {
    hide Apply, AppendLog, AppendRewrite, Recs, Refused;
    forall k | k != op.key
      ensures k in Apply(db.items, db.cap, op, env).items <==> k in db.items
    {
      OtherKey(db.items, db.cap, op, env, k);
    }
  }

  function Asked(call: Call, reply: Reply): Turn {
    if call.Do? then Answered(call.op, reply) else Other
  }

  /** One call; `dangling` when a push went on with a container that its own eviction had removed.
      `b0`, `clock0` and `turns` are any history the table is in order with: the call keeps it so, and
      of two keys of one bucket, if the call evicted one and not the other, it had been used before. */
  method Perform(s: KvStore, call: Call, ghost b0: Buckets, ghost clock0: nat, ghost turns: seq<Turn>)
    returns (reply: Reply, dangling: bool, ghost c: Change)
    requires s.Valid() && Callable(call) && s.clock + 1 < UINT64_MAX
    requires ByUse(s.buckets, b0, clock0, turns) && clock0 <= s.clock
    modifies s`buckets, s`size, s`allocBytes, s`peakBytes, s`clock, s`rewrite, s`log, s`drawn
    ensures s.Valid() && old(s.clock) <= s.clock <= old(s.clock) + 1
    ensures s.budget == 0 ==>
              !dangling && Outcome(old(s.View()), call, c, Asked(call, reply)) && s.View() == Changed(old(s.View()), c)
    ensures old(s.WithinBudget()) ==> s.WithinBudget()
    ensures s.budget == 0 && s.autoResize && KeepsLoad(call) && old(s.BelowLoadFactor()) ==> s.BelowLoadFactor()
    ensures ByUse(s.buckets, b0, clock0, turns + [Asked(call, reply)])
    ensures !dangling && call.Do? ==>
              forall k, k' | k in Lost(old(s.Items()), s.Items(), call.op.key) && Kept(old(s.Items()), s.Items(), k')
                             && k' != call.op.key && s.hash(k) % |s.buckets| == s.hash(k') % |s.buckets| ::
                LastUse(turns, k) < LastUse(turns, k') || (LastUse(turns, k) == LastUse(turns, k') == -1)
  {
    hide KvStore.Valid, KvStore.Items, Step, Flat, ByUse, KvStore.Used, Outcome, OldestFirst, LastUse;
    dangling, c, reply := false, Nothing, Nil;
    match call {
      case Do(op, env) =>
        reply, dangling, c := PerformCommand(s, op, env, b0, clock0, turns);
      case _ =>
        c := PerformOther(s, call, b0, clock0, turns);
    }
  }

  predicate Kept(before: Items, after: Items, k: bytes) {
    k in before && k in after
  }

  method PerformCommand(s: KvStore, op: Op, env: Env, ghost b0: Buckets, ghost clock0: nat, ghost turns: seq<Turn>)
    returns (reply: Reply, dangling: bool, ghost c: Change)
    requires s.Valid() && WellTyped(op) && s.clock + 1 < UINT64_MAX
    requires ByUse(s.buckets, b0, clock0, turns) && clock0 <= s.clock
    modifies s`buckets, s`size, s`allocBytes, s`peakBytes, s`clock, s`rewrite, s`log, s`drawn
    ensures s.Valid() && old(s.clock) <= s.clock <= old(s.clock) + 1
    ensures s.budget == 0 ==> !dangling && Outcome(old(s.View()), Do(op, env), c, Answered(op, reply))
                              && s.View() == Changed(old(s.View()), c)
    ensures old(s.WithinBudget()) ==> s.WithinBudget()
    ensures s.budget == 0 && s.autoResize && KeepsLoad(Do(op, env)) && old(s.BelowLoadFactor()) ==> s.BelowLoadFactor()
    ensures ByUse(s.buckets, b0, clock0, turns + [Answered(op, reply)])
    ensures !dangling ==>
              forall k, k' | k in Lost(old(s.Items()), s.Items(), op.key) && Kept(old(s.Items()), s.Items(), k')
                             && k' != op.key && s.hash(k) % |s.buckets| == s.hash(k') % |s.buckets| ::
                LastUse(turns, k) < LastUse(turns, k') || (LastUse(turns, k) == LastUse(turns, k') == -1)
  {
    hide KvStore.Valid, KvStore.Items, Step, Flat, ByUse, LastUses, OldestFirst, LastUse, ItemsIn, Uses, Stamps;
    ghost var was, before := s.buckets, s.Items();
    InTable(s);
    reply, dangling := Execute(s, op, env);
    c := Did(Command(op, env));
    InTable(s);
    UsedInOrder(s, was, old(s.clock), op, reply);
    ByUseCommand(s.buckets, was, b0, clock0, turns, op, reply, old(s.clock));
    if !dangling {
      ghost var lost := Lost(before, s.Items(), op.key);
      forall k, k' | k in lost && Kept(before, s.Items(), k') && k' != op.key
                     && s.hash(k) % |s.buckets| == s.hash(k') % |s.buckets|
        ensures LastUse(turns, k) < LastUse(turns, k') || (LastUse(turns, k) == LastUse(turns, k') == -1)
      {
        ghost var e :| e in Flat(was) && e.key == k;
        ghost var f :| f in Flat(was) && f.key == k';
        TakenUsedBefore(was, b0, clock0, turns, lost, s.hash, |s.buckets|, op.key, e, f);
      }
    }
  }

  /** The entries of the table are those of the map, and no stamp is ahead of the clock. */
  lemma InTable(s: KvStore)
    requires s.Valid()
    ensures Stamps(Flat(s.buckets), s.clock) && s.Items().Keys == Keys(Flat(s.buckets))
  {
    MapOfKeys(Flat(s.buckets));
  }

  lemma UsedInOrder(s: KvStore, was: Buckets, clock: nat, op: Op, reply: Reply)
    requires s.Valid() && s.Used(was, clock, op, reply)
    ensures LastUses(s.buckets, was, op.key, op.key in Keys(Flat(s.buckets)) && Uses(op, reply), clock + 1)
  {
    hide Flat, Uses, HasStamp;
    InTable(s);
    assert forall e | e in Flat(s.buckets) :: e.key in Keys(Flat(s.buckets));
  }

  method PerformOther(s: KvStore, call: Call, ghost b0: Buckets, ghost clock0: nat, ghost turns: seq<Turn>)
    returns (ghost c: Change)
    requires s.Valid() && !call.Do?
    requires ByUse(s.buckets, b0, clock0, turns) && clock0 <= s.clock
    modifies s`buckets, s`size, s`allocBytes, s`rewrite, s`log, s`drawn
    ensures s.Valid() && Outcome(old(s.View()), call, c, Other) && s.View() == Changed(old(s.View()), c)
    ensures |s.buckets| == old(|s.buckets|) && s.size <= old(s.size)
    ensures ByUse(s.buckets, b0, clock0, turns + [Other])
  {
    hide KvStore.Valid, KvStore.Items, Flat, ByUse, Within, SweptClean;
    WithinItself(s.buckets);
    c := Nothing;
    match call {
      case SweepNow(sample, limit, at) =>
        var n, gone := s.Sweep(sample, limit, at);
        c := Swept(gone);
      case StartRewrite(at, saving, forkOk) =>
        var st := s.BgRewriteAof(at, saving, forkOk);
        c := if st == Ok then Did(BgRewrite(Flat(s.buckets), at)) else Nothing;
      case EndRewrite(outcome) =>
        var st := s.MergeAofRewrite(outcome);
        c := Did(Merge(outcome));
      case DropRewrite =>
        s.DiscardAofRewrite();
        c := Did(Discard);
    }
    ByUseOther(s.buckets, old(s.buckets), b0, clock0, turns);
  }

  /** Any sequence of calls.  The budget is never exceeded, the load factor never reached unless a
      push or a failed allocation of the table is among them, the stamps are in the order in which the
      answers say the keys were last used, and without a budget the run is the one of the state
      machine, answers included, so the log on disk replays to what the table holds. */
  method PerformAll(s: KvStore, calls: seq<Call>)
    returns (turns: seq<Turn>, dangling: bool, ghost changes: seq<Change>)
    requires s.Valid() && s.clock + |calls| < UINT64_MAX && forall call | call in calls :: Callable(call)
    modifies s`buckets, s`size, s`allocBytes, s`peakBytes, s`clock, s`rewrite, s`log, s`drawn
    ensures s.Valid() && |turns| <= |calls| && (|turns| < |calls| ==> dangling)
    ensures forall i | 0 <= i < |turns| :: if calls[i].Do? then turns[i].Answered? && turns[i].op == calls[i].op
                                           else turns[i] == Other
    ensures s.budget == 0 ==>
              && !dangling && |turns| == |calls|
              && Outcomes(old(s.View()), calls, changes, turns) && s.View() == After(old(s.View()), changes)
              && (forall T | Recoverable(old(s.View()), T) && SafeCalls(old(s.View()), calls, changes, T) ::
                    Recoverable(s.View(), T))
    ensures old(s.WithinBudget()) ==> s.WithinBudget()
    ensures s.budget == 0 && s.autoResize && (forall call | call in calls :: KeepsLoad(call))
            && old(s.BelowLoadFactor()) ==>
              s.BelowLoadFactor()
    ensures ByUse(s.buckets, old(s.buckets), old(s.clock), turns)
  {
    hide KvStore.Valid, KvStore.Items, Outcome, Outcomes, After, Changed, Recoverable, SafeCalls, KeepsLoad, ByUse,
         Stamps, Flat, LastUse;
    turns, dangling, changes := [], false, [];
    StartOutcomes(s.View());
    InTable(s);
    ByUseStart(s.buckets, s.clock);
    while |turns| < |calls| && !dangling
      invariant s.Valid() && |turns| <= |calls| && old(s.clock) <= s.clock <= old(s.clock) + |turns|
      invariant forall i | 0 <= i < |turns| :: if calls[i].Do? then turns[i].Answered? && turns[i].op == calls[i].op
                                               else turns[i] == Other
      invariant s.budget == 0 ==> !dangling
      invariant s.budget == 0 ==>
                  && Outcomes(old(s.View()), calls[..|turns|], changes, turns)
                  && s.View() == After(old(s.View()), changes)
      invariant old(s.WithinBudget()) ==> s.WithinBudget()
      invariant s.budget == 0 && s.autoResize && (forall call | call in calls :: KeepsLoad(call))
                && old(s.BelowLoadFactor()) ==>
                  s.BelowLoadFactor()
      invariant ByUse(s.buckets, old(s.buckets), old(s.clock), turns)
    {
      ghost var c;
      var reply;
      ghost var n := |turns|;
      reply, dangling, c := Perform(s, calls[|turns|], old(s.buckets), old(s.clock), turns);
      if s.budget == 0 {
        AfterOneMore(old(s.View()), calls[..n], changes, turns, calls[n], c, Asked(calls[n], reply));
      }
      assert calls[..n + 1] == calls[..n] + [calls[n]];
      changes := changes + [c];
      turns := turns + [Asked(calls[|turns|], reply)];
    }
    assert calls[..|calls|] == calls;
    forall T | s.budget == 0 && Recoverable(old(s.View()), T) && SafeCalls(old(s.View()), calls, changes, T)
      ensures Recoverable(s.View(), T)
    {
      CallsRecoverable(old(s.View()), calls, changes, turns, T);
    }
  }

  lemma StartOutcomes(db: Db)
    ensures Outcomes(db, [], [], []) && After(db, []) == db
  {
  }
}
