/** The store together with its log and its compaction state, as a step machine:
    the logging half of kv_set/kv_delete, the list, set and expiry commands,
    kv_bgrewriteaof, kv_merge_aof_rewrite and a restart that replays the log. */
module Durability {
  import opened Common
  import opened Spec
  import opened LogText

  /** A compaction in progress: the child's finished dump and the parent's rewrite buffer. */
  datatype Rewrite = Rewrite(dump: bytes, buf: bytes)

  /** No log path, the file at aof_path open for appending, or that file with aof_fp NULL,
      as a merge that fails half-way leaves it: `file` is what is on disk. */
  datatype Log = NoLog | Appending(file: bytes) | Detached(file: bytes)

  /** `cap` is max_capacity. */
  datatype Db = Db(items: Items, cap: nat, log: Log, rewrite: Option<Rewrite>)

  datatype StepOut = StepOut(db: Db, reply: Reply)

  /** write_aof_record succeeds: the disk works and the record fits its buffer. */
  predicate Writable(r: Rec, env: Env) {
    env.ioOk && |Format(r)| < RECORD_BUF
  }

  function DeleteRecs(key: bytes, m: Items): seq<Rec> {
    if key in m then [] else [Rec(DELETE, key, [])]
  }

  /** The records a command leaves in the rewrite buffer; the log gets the first of them. */
  function Recs(op: Op, out: Out): seq<Rec> {
    match op
    case SetOp(k, v) => if out.reply == Code(Ok) then [Rec(SET, k, v)] else []
    case DeleteOp(k) => if out.reply == Code(Ok) then [Rec(DELETE, k, [])] else []
    case LPushOp(k, v) => if out.reply.Int? then [Rec(LPUSH, k, v)] else []
    case RPopOp(k) => if out.reply.Bulk? then [Rec(RPOP, k, [])] + DeleteRecs(k, out.items) else []
    case SAddOp(k, v) => if out.reply == Int(1) then [Rec(SADD, k, v)] else []
    case SRemOp(k, v) => if out.reply == Int(1) then [Rec(SREM, k, v)] + DeleteRecs(k, out.items) else []
    case PExpireAtOp(k, d) => if out.reply == Int(1) then [Rec(PEXPIREAT, k, PrintInt(d))] else []
    case PersistOp(k) => if out.reply == Int(1) then [Rec(PEXPIREAT, k, PrintInt(0))] else []
    case _ => []
  }

  /** SET and DELETE give up before touching the store when their record cannot be written. */
  predicate Refused(db: Db, op: Op, env: Env) {
    && db.log.Appending?
    && match op
       case SetOp(k, v) =>
         ValidateKey(k) == Ok && ValidateValue(v) == Ok && !Writable(Rec(SET, k, v), env)
       case DeleteOp(k) => ValidateKey(k) == Ok && !Writable(Rec(DELETE, k, []), env)
       case _ => false
  }

  function AppendLog(log: Log, recs: seq<Rec>, env: Env): Log {
    if log.Appending? && recs != [] && Writable(recs[0], env)
    then Appending(log.file + Format(recs[0])) else log
  }

  function AppendRewrite(rw: Option<Rewrite>, recs: seq<Rec>): Option<Rewrite> {
    if rw.Some? then Some(rw.value.(buf := rw.value.buf + FormatAll(recs))) else None
  }

  /** One command, on a store without a memory budget. */
  function Step(db: Db, op: Op, env: Env): StepOut {
    if Refused(db, op, env) then StepOut(db, Code(Io))
    else
      var out := Apply(db.items, db.cap, op, env);
      var recs := Recs(op, out);
      StepOut(Db(out.items, db.cap, AppendLog(db.log, recs, env), AppendRewrite(db.rewrite, recs)),
              out.reply)
  }

  // ----- No deadline is crossed before time T -----

  predicate Fresh(m: Items, T: int) {
    forall k | k in m :: !Expired(m[k], T)
  }

  predicate Timely(op: Op, T: int) {
    op.PExpireAtOp? ==> !(0 < op.deadline <= T)
  }

  // ----- Replaying the records of a command repeats the command -----

  /** A failed node allocation leaves a fresh key with an empty list or set. */
  predicate LeavesEmpty(m: Items, op: Op, out: Out) {
    (op.LPushOp? || op.SAddOp?) && op.key !in m && op.key in out.items && out.reply == Code(Internal)
  }

  predicate StoresUnloggable(op: Op, out: Out) {
    match op
    case SetOp(k, v) => out.reply == Code(Ok) && !Loggable(v)
    case LPushOp(k, v) => out.reply.Int? && !Loggable(v)
    case SAddOp(k, v) => out.reply == Int(1) && !Loggable(v)
    case _ => false
  }

  predicate Repeatable(m: Items, op: Op, out: Out) {
    !LeavesEmpty(m, op, out) && !StoresUnloggable(op, out)
  }

  lemma RecsWellFormed(m: Items, cap: nat, op: Op, env: Env)
    requires WellTyped(op) && AllReplayed(m)
    requires Repeatable(m, op, Apply(m, cap, op, env))
    ensures forall r | r in Recs(op, Apply(m, cap, op, env)) :: WellFormed(r)
  {
    hide ApplyRec, PrintInt;
    match op {
      case PExpireAtOp(k, d) => PrintIntShape(d);
      case PersistOp(k) => PrintIntShape(0);
      case _ =>
    }
  }

  lemma FetchFresh(m: Items, key: bytes, T: int, now: int)
    requires Fresh(m, T) && now <= T
    ensures Fetch(m, key, now) == m
  {
  }

  /** On fresh data a repeated list or set command cannot tell the two clocks apart. */
  lemma ClockBlind(m: Items, cap: nat, key: bytes, val: bytes, env: Env, T: int, now: int)
    requires Fresh(m, T) && env.now <= T && now <= T
    ensures var e := ReplayEnv(now);
            && (LPush(m, cap, key, val, env).reply.Int? ==> LPush(m, cap, key, val, env) == LPush(m, cap, key, val, e))
            && (RPop(m, key, env).reply.Bulk? ==> RPop(m, key, env) == RPop(m, key, e))
            && (SAdd(m, cap, key, val, env).reply.Int? ==> SAdd(m, cap, key, val, env) == SAdd(m, cap, key, val, e))
            && SRem(m, key, val, env) == SRem(m, key, val, e)
  {
    FetchFresh(m, key, T, env.now);
    FetchFresh(m, key, T, now);
    hide Fetch, Fresh;
  }

  /** A failed command leaves the map alone, unless it leaves an empty container. */
  lemma NoRecNoChange(m: Items, cap: nat, op: Op, env: Env, T: int)
    requires Fresh(m, T) && env.now <= T
    requires Recs(op, Apply(m, cap, op, env)) == []
    ensures LeavesEmpty(m, op, Apply(m, cap, op, env)) || Apply(m, cap, op, env).items == m
  {
    FetchFresh(m, op.key, T, env.now);
    hide Fetch, Fresh;
  }

  lemma ContainerRecRepeats(m: Items, cap: nat, op: Op, env: Env, T: int, now: int)
    requires op.LPushOp? || op.RPopOp? || op.SAddOp? || op.SRemOp?
    requires Fresh(m, T) && env.now <= T && now <= T && AllReplayed(m)
    requires Recs(op, Apply(m, cap, op, env)) != []
    ensures ApplyRec(m, cap, Recs(op, Apply(m, cap, op, env))[0], now) == Apply(m, cap, op, env).items
  {
    FetchFresh(m, op.key, T, env.now);
    hide Fetch, Fresh, Loggable, Strtoll, PrintInt, SetInternal, DeleteInternal;
    ClockBlind(m, cap, op.key, if op.RPopOp? then [] else op.val, env, T, now);
  }

  lemma StringRecRepeats(m: Items, cap: nat, op: Op, env: Env, now: int)
    requires op.SetOp? || op.DeleteOp?
    requires Recs(op, Apply(m, cap, op, env)) != []
    ensures ApplyRec(m, cap, Recs(op, Apply(m, cap, op, env))[0], now) == Apply(m, cap, op, env).items
  {
  }

  lemma ExpiryRecRepeats(m: Items, cap: nat, op: Op, env: Env, T: int, now: int)
    requires op.PExpireAtOp? || op.PersistOp?
    requires WellTyped(op) && Fresh(m, T) && env.now <= T && AllReplayed(m)
    requires Recs(op, Apply(m, cap, op, env)) != []
    ensures ApplyRec(m, cap, Recs(op, Apply(m, cap, op, env))[0], now) == Apply(m, cap, op, env).items
  {
    var deadline := if op.PersistOp? then 0 else op.deadline;
    FetchFresh(m, op.key, T, env.now);
    StrtollOfPrinted(deadline);
    hide Fetch, Fresh, Loggable, Strtoll, PrintInt, SetInternal, DeleteInternal, LPush, RPop, SAdd, SRem;
    assert Recs(op, Apply(m, cap, op, env))[0] == Rec(PEXPIREAT, op.key, PrintInt(deadline));
    assert Apply(m, cap, op, env).items == m[op.key := m[op.key].(deadline := deadline)];
  }

  lemma FirstRecRepeats(m: Items, cap: nat, op: Op, env: Env, T: int, now: int)
    requires WellTyped(op) && Fresh(m, T) && env.now <= T && now <= T
    requires AllReplayed(m)
    requires Recs(op, Apply(m, cap, op, env)) != []
    ensures ApplyRec(m, cap, Recs(op, Apply(m, cap, op, env))[0], now) == Apply(m, cap, op, env).items
  {
    hide Apply, ApplyRec, Fresh, AllReplayed, WellTyped;
    match op {
      case SetOp(_, _) => StringRecRepeats(m, cap, op, env, now);
      case DeleteOp(_) => StringRecRepeats(m, cap, op, env, now);
      case PExpireAtOp(_, _) => ExpiryRecRepeats(m, cap, op, env, T, now);
      case PersistOp(_) => ExpiryRecRepeats(m, cap, op, env, T, now);
      case _ => ContainerRecRepeats(m, cap, op, env, T, now);
    }
  }

  /** The extra DELETE after the last RPOP or SREM finds nothing to do. */
  lemma AllRecsRepeat(m: Items, cap: nat, op: Op, env: Env, T: int, now: int)
    requires WellTyped(op) && Fresh(m, T) && env.now <= T && now <= T
    requires AllReplayed(m)
    ensures var out := Apply(m, cap, op, env);
            LeavesEmpty(m, op, out) || ReplayRecs(m, cap, Recs(op, out), now) == out.items
  {
    var out := Apply(m, cap, op, env);
    var recs := Recs(op, out);
    if recs == [] {
      NoRecNoChange(m, cap, op, env, T);
    } else {
      FirstRecRepeats(m, cap, op, env, T, now);
      hide Apply, AllReplayed, Fresh, WellTyped;
      SecondRecIdle(out.items, cap, op, out, now);
    }
  }

  lemma SecondRecIdle(m: Items, cap: nat, op: Op, out: Out, now: int)
    requires m == out.items && Recs(op, out) != []
    ensures ReplayRecs(m, cap, Recs(op, out)[1..], now) == m
  {
    var tail := Recs(op, out)[1..];
    hide LPush, RPop, SAdd, SRem, SetInternal, Strtoll;
    assert tail == [] || (tail == [Rec(DELETE, op.key, [])] && op.key !in m);
    assert tail != [] ==> tail[1..] == [];
  }

  // ----- Files that mirror the live map -----

  /** Replaying `file` at any clock up to `T` rebuilds `m`. */
  ghost predicate Mirrors(file: bytes, m: Items, cap: nat, T: int) {
    WholeLines(file) && forall now | now <= T :: Replay(map[], cap, file, now) == m
  }

  lemma MirrorReplayed(file: bytes, m: Items, cap: nat, T: int)
    requires Mirrors(file, m, cap, T)
    ensures AllReplayed(m)
  {
    assert Replay(map[], cap, file, T) == m;
    ReplayReplayed(map[], cap, file, T);
  }

  /** Appending well-formed records to a mirror applies them. */
  lemma MirrorAppend(file: bytes, m: Items, cap: nat, T: int, recs: seq<Rec>, m': Items)
    requires Mirrors(file, m, cap, T)
    requires forall r | r in recs :: WellFormed(r)
    requires forall now | now <= T :: ReplayRecs(m, cap, recs, now) == m'
    ensures Mirrors(file + FormatAll(recs), m', cap, T)
  {
    hide ReplayRecs, Replay;
    FormatAllWhole(recs);
    forall now | now <= T
      ensures Replay(map[], cap, file + FormatAll(recs), now) == m'
    {
      ReplayAppend(map[], cap, file, FormatAll(recs), now);
      assert Replay(map[], cap, file, now) == m;
      ReplayFormatAll(m, cap, recs, now);
      assert ReplayRecs(m, cap, recs, now) == m';
    }
  }

  /** A repeatable command keeps a file that receives all its records a mirror. */
  lemma MirrorAllRecs(file: bytes, m: Items, cap: nat, op: Op, env: Env, T: int)
    requires Mirrors(file, m, cap, T) && WellTyped(op) && Fresh(m, T) && env.now <= T
    requires Repeatable(m, op, Apply(m, cap, op, env))
    ensures Mirrors(file + FormatAll(Recs(op, Apply(m, cap, op, env))), Apply(m, cap, op, env).items, cap, T)
  {
    MirrorReplayed(file, m, cap, T);
    var out := Apply(m, cap, op, env);
    RecsWellFormed(m, cap, op, env);
    forall now | now <= T
      ensures ReplayRecs(m, cap, Recs(op, out), now) == out.items
    {
      AllRecsRepeat(m, cap, op, env, T, now);
    }
    hide Apply, Recs, Mirrors, ReplayRecs;
    MirrorAppend(file, m, cap, T, Recs(op, out), out.items);
  }

  lemma MirrorFirstRec(file: bytes, m: Items, cap: nat, op: Op, env: Env, T: int)
    requires Mirrors(file, m, cap, T) && WellTyped(op) && Fresh(m, T) && env.now <= T
    requires Repeatable(m, op, Apply(m, cap, op, env))
    requires Recs(op, Apply(m, cap, op, env)) != []
    ensures Mirrors(file + Format(Recs(op, Apply(m, cap, op, env))[0]), Apply(m, cap, op, env).items, cap, T)
  {
    MirrorReplayed(file, m, cap, T);
    var out := Apply(m, cap, op, env);
    var rec := Recs(op, out)[0];
    RecsWellFormed(m, cap, op, env);
    forall now | now <= T
      ensures ReplayRecs(m, cap, [rec], now) == out.items
    {
      FirstRecRepeats(m, cap, op, env, T, now);
      assert ReplayRecs(m, cap, [rec], now) == ApplyRec(m, cap, rec, now) by {
        hide Apply, ApplyRec, Recs;
      }
    }
    hide Apply, Recs, Mirrors, ReplayRecs, Format;
    MirrorAppend(file, m, cap, T, [rec], out.items);
    assert FormatAll([rec]) == Format(rec) + FormatAll([]);
    assert FormatAll([rec]) == Format(rec);
  }

  /** A stored value that cannot be logged, or an empty container, has no mirror at all. */
  lemma UnrepeatableHasNoMirror(m: Items, cap: nat, op: Op, env: Env, T: int, file: bytes)
    requires WellTyped(op)
    requires !Repeatable(m, op, Apply(m, cap, op, env))
    ensures !Mirrors(file, Apply(m, cap, op, env).items, cap, T)
  {
    var out := Apply(m, cap, op, env);
    assert !Replayed(op.key, out.items[op.key]) by {
      hide Mirrors;
      assert op.LPushOp? ==> out.reply.Int? ==> out.items[op.key].value.items[0] == op.val;
      assert op.SAddOp? ==> out.reply == Int(1) ==> op.val in out.items[op.key].value.members;
    }
    if Mirrors(file, out.items, cap, T) {
      MirrorReplayed(file, out.items, cap, T);
      hide Apply;
      assert false;
    }
  }

  /** A change is on disk, or it was a PEXPIREAT to the deadline already there. */
  predicate Recorded(m: Items, op: Op, recs: seq<Rec>, env: Env) {
    || recs == []
    || Writable(recs[0], env)
    || (op.PExpireAtOp? && op.key in m && m[op.key].deadline == op.deadline)
  }

  // ----- The same conditions as guards, to be checked before the call -----

  predicate Mutates(op: Op) {
    || op.SetOp? || op.DeleteOp? || op.LPushOp? || op.RPopOp? || op.SAddOp? || op.SRemOp?
    || op.PExpireAtOp? || op.PersistOp?
  }

  /** The record a command writes, if it writes one. */
  function RecordOf(op: Op): Rec
    requires Mutates(op)
  {
    match op
    case SetOp(k, v) => Rec(SET, k, v)
    case DeleteOp(k) => Rec(DELETE, k, [])
    case LPushOp(k, v) => Rec(LPUSH, k, v)
    case RPopOp(k) => Rec(RPOP, k, [])
    case SAddOp(k, v) => Rec(SADD, k, v)
    case SRemOp(k, v) => Rec(SREM, k, v)
    case PExpireAtOp(k, d) => Rec(PEXPIREAT, k, PrintInt(d))
    case PersistOp(k) => Rec(PEXPIREAT, k, PrintInt(0))
  }

  /** The text a command would store fits a line of the log. */
  predicate Carries(op: Op) {
    op.SetOp? || op.LPushOp? || op.SAddOp? ==> Loggable(op.val)
  }

  /** A fresh entry for `key` can be made. */
  predicate Room(m: Items, cap: nat, key: bytes, env: Env) {
    key !in m && !Full(m, cap) && env.entryOk
  }

  predicate GoodArgs(key: bytes, val: bytes) {
    ValidateKey(key) == Ok && ValidateValue(val) == Ok
  }

  /** On a map without an expired entry for its key: the command takes effect. */
  predicate Succeeds(m: Items, cap: nat, op: Op, env: Env): (r: bool)
    ensures r ==> Mutates(op)
  {
    match op
    case SetOp(k, v) => GoodArgs(k, v) && (Room(m, cap, k, env) || (k in m && m[k].value.Str? && env.entryOk))
    case DeleteOp(k) => ValidateKey(k) == Ok && k in m
    case LPushOp(k, v) => GoodArgs(k, v) && (Room(m, cap, k, env) || (k in m && m[k].value.List?)) && env.nodeOk
    case RPopOp(k) => k in m && m[k].value.List? && m[k].value.items != [] && env.nodeOk
    case SAddOp(k, v) =>
      && GoodArgs(k, v) && env.nodeOk
      && (Room(m, cap, k, env) || (k in m && m[k].value.Set? && v !in m[k].value.members))
    case SRemOp(k, v) => k in m && m[k].value.Set? && v in m[k].value.members
    case PExpireAtOp(k, d) => k in m
    case PersistOp(k) => k in m && m[k].deadline != 0
    case _ => false
  }

  /** LPUSH or SADD makes the entry but not the node: an empty list or set stays behind. */
  predicate StrandsEmpty(m: Items, cap: nat, op: Op, env: Env) {
    (op.LPushOp? || op.SAddOp?) && GoodArgs(op.key, op.val) && Room(m, cap, op.key, env) && !env.nodeOk
  }

  /** The command would write what is there already. */
  predicate SameAgain(m: Items, op: Op) {
    && op.key in m
    && match op
       case SetOp(k, v) => m[k].value == Str(v)
       case PExpireAtOp(k, d) => m[k].deadline == d
       case _ => false
  }

  /** The command leaves the map as it is. */
  predicate Idle(m: Items, cap: nat, op: Op, env: Env) {
    !StrandsEmpty(m, cap, op, env) && (Succeeds(m, cap, op, env) ==> SameAgain(m, op))
  }

  lemma RecsGuard(m: Items, cap: nat, op: Op, env: Env)
    requires Fetch(m, op.key, env.now) == m
    ensures var recs := Recs(op, Apply(m, cap, op, env));
            (recs != [] <==> Succeeds(m, cap, op, env)) && (recs != [] ==> Mutates(op) && recs[0] == RecordOf(op))
  {
    hide Fetch, ValidateKey, ValidateValue, Full, PrintInt;
  }

  lemma RepeatableGuard(m: Items, cap: nat, op: Op, env: Env)
    requires Fetch(m, op.key, env.now) == m
    ensures Repeatable(m, op, Apply(m, cap, op, env))
            <==> !StrandsEmpty(m, cap, op, env) && (Succeeds(m, cap, op, env) ==> Carries(op))
  {
    hide Fetch, ValidateKey, ValidateValue, Full, Loggable;
  }

  /** Which commands leave the map alone. */
  lemma IdleGuard(m: Items, cap: nat, op: Op, env: Env)
    requires Fetch(m, op.key, env.now) == m
    ensures Apply(m, cap, op, env).items == m <==> Idle(m, cap, op, env)
  {
    hide Fetch, ValidateKey, ValidateValue, Full;
    var m' := Apply(m, cap, op, env).items;
    assert op.key in m ==> m[op.key := m[op.key]] == m;
    if op.LPushOp? && op.key in m && m[op.key].value.List? && m' == m {
      assert |m'[op.key].value.items| == |m[op.key].value.items|;
    }
    if op.RPopOp? && op.key in m && m[op.key].value.List? && op.key in m' && m' == m {
      assert |m'[op.key].value.items| == |m[op.key].value.items|;
    }
  }

  /** The exact condition under which one command keeps the log a mirror of the live map. */
  predicate Durable(db: Db, op: Op, env: Env) {
    var m, cap := db.items, db.cap;
    || Refused(db, op, env)
    || (&& !StrandsEmpty(m, cap, op, env)
        && (Succeeds(m, cap, op, env) ==>
              Carries(op) && (Writable(RecordOf(op), env) || (op.PExpireAtOp? && SameAgain(m, op)))))
  }

  /** The same for the rewrite buffer, which has no size limit and no failing disk. */
  predicate Bufferable(db: Db, op: Op, env: Env) {
    || Refused(db, op, env)
    || (!StrandsEmpty(db.items, db.cap, op, env) && (Succeeds(db.items, db.cap, op, env) ==> Carries(op)))
  }

  lemma DurableGuard(db: Db, op: Op, env: Env)
    requires Fetch(db.items, op.key, env.now) == db.items && !Refused(db, op, env)
    ensures var out := Apply(db.items, db.cap, op, env);
            && (Durable(db, op, env) <==> Repeatable(db.items, op, out) && Recorded(db.items, op, Recs(op, out), env))
            && (Bufferable(db, op, env) <==> Repeatable(db.items, op, out))
  {
    hide Fetch, Apply, Recs, StrandsEmpty, Succeeds, Carries, Repeatable, Writable;
    RecsGuard(db.items, db.cap, op, env);
    RepeatableGuard(db.items, db.cap, op, env);
  }

  lemma UnrecordedDiffers(m: Items, cap: nat, op: Op, env: Env, T: int)
    requires Fresh(m, T) && env.now <= T
    requires var recs := Recs(op, Apply(m, cap, op, env));
             recs != [] && !Recorded(m, op, recs, env) && !op.SetOp? && !op.DeleteOp?
    ensures Apply(m, cap, op, env).items != m
  {
    FetchFresh(m, op.key, T, env.now);
    hide Fetch, Fresh, Format;
    assert op.LPushOp? ==> |Apply(m, cap, op, env).items[op.key].value.items| > 0;
  }

  /** SET and DELETE that got past write_aof_record have their record in the log. */
  lemma NotRefusedIsRecorded(db: Db, op: Op, env: Env)
    requires db.log.Appending? && !Refused(db, op, env) && (op.SetOp? || op.DeleteOp?)
    ensures Recorded(db.items, op, Recs(op, Apply(db.items, db.cap, op, env)), env)
  {
  }

  /** One command keeps the log replaying to the live map if and only if it is durable. */
  lemma LogStep(db: Db, op: Op, env: Env, T: int)
    requires db.log.Appending? && Mirrors(db.log.file, db.items, db.cap, T)
    requires WellTyped(op) && Fresh(db.items, T) && env.now <= T
    ensures var next := Step(db, op, env).db;
            next.log.Appending? && (Mirrors(next.log.file, next.items, db.cap, T) <==> Durable(db, op, env))
  {
    if !Refused(db, op, env) {
      var m, cap, file := db.items, db.cap, db.log.file;
      FetchFresh(m, op.key, T, env.now);
      DurableGuard(db, op, env);
      var out := Apply(m, cap, op, env);
      var recs := Recs(op, out);
      if !Repeatable(m, op, out) {
        UnrepeatableHasNoMirror(m, cap, op, env, T, Step(db, op, env).db.log.file);
      } else if recs == [] {
        NoRecNoChange(m, cap, op, env, T);
      } else if Writable(recs[0], env) {
        MirrorFirstRec(file, m, cap, op, env, T);
      } else if Recorded(m, op, recs, env) {
        FetchFresh(m, op.key, T, env.now);
        SameDeadline(m, cap, op, env);
      } else {
        if op.SetOp? || op.DeleteOp? {
          NotRefusedIsRecorded(db, op, env);
        }
        UnrecordedDiffers(m, cap, op, env, T);
        assert Replay(map[], cap, file, T) == m;
      }
      hide Apply, Recs, Fresh, Fetch, Repeatable, Recorded, Replay, Format, Writable, WellTyped, Refused, Durable;
    }
  }

  lemma SameDeadline(m: Items, cap: nat, op: Op, env: Env)
    requires op.PExpireAtOp? && op.key in m && m[op.key].deadline == op.deadline
    requires Fetch(m, op.key, env.now) == m
    ensures Apply(m, cap, op, env).items == m
  {
    hide Fetch;
  }

  lemma RewriteBuffer(db: Db, op: Op, env: Env)
    requires db.rewrite.Some?
    ensures var next := Step(db, op, env).db;
            && next.rewrite.Some?
            && (if Refused(db, op, env) then next == db
                else
                  var out := Apply(db.items, db.cap, op, env);
                  && next.items == out.items
                  && next.rewrite.value.dump == db.rewrite.value.dump
                  && next.rewrite.value.buf == db.rewrite.value.buf + FormatAll(Recs(op, out)))
  {
    hide Apply, Recs, Refused, FormatAll;
  }

  /** Likewise for a compaction in progress: dump and buffer together replay to the live map. */
  lemma RewriteStep(db: Db, op: Op, env: Env, T: int)
    requires db.rewrite.Some?
    requires Mirrors(db.rewrite.value.dump + db.rewrite.value.buf, db.items, db.cap, T)
    requires WellTyped(op) && Fresh(db.items, T) && env.now <= T
    ensures var next := Step(db, op, env).db;
            && next.rewrite.Some?
            && (Mirrors(next.rewrite.value.dump + next.rewrite.value.buf, next.items, db.cap, T)
                <==> Bufferable(db, op, env))
  {
    hide Apply, Recs, Fresh, Fetch, Repeatable, Mirrors, Step, FormatAll, WellTyped, StrandsEmpty, Succeeds, Carries,
         Writable;
    RewriteBuffer(db, op, env);
    if !Refused(db, op, env) {
      FetchFresh(db.items, op.key, T, env.now);
      DurableGuard(db, op, env);
      var m, cap, rw := db.items, db.cap, db.rewrite.value;
      var text := FormatAll(Recs(op, Apply(m, cap, op, env)));
      if Repeatable(m, op, Apply(m, cap, op, env)) {
        MirrorAllRecs(rw.dump + rw.buf, m, cap, op, env, T);
        assert rw.dump + (rw.buf + text) == (rw.dump + rw.buf) + text;
      } else {
        UnrepeatableHasNoMirror(m, cap, op, env, T, rw.dump + (rw.buf + text));
      }
    }
  }

  lemma StepKeepsFresh(db: Db, op: Op, env: Env, T: int)
    requires Fresh(db.items, T) && Timely(op, T) && env.now <= T
    ensures Fresh(Step(db, op, env).db.items, T)
  {
    FetchFresh(db.items, op.key, T, env.now);
    hide Fetch, Recs, Refused, AppendLog, AppendRewrite;
  }

  predicate WithinCap(db: Db) {
    db.cap > 0 ==> |db.items| <= db.cap
  }

  lemma ApplyKeysFetched(m: Items, cap: nat, op: Op, env: Env)
    requires Fetch(m, op.key, env.now) == m
    ensures var keys := Apply(m, cap, op, env).items.Keys;
            keys <= m.Keys || (keys == m.Keys + {op.key} && !Full(m, cap))
  {
    hide Fetch, ValidateKey, ValidateValue, Full;
  }

  /** The keys after a command on a key that is there, expired or not. */
  lemma ApplyKeysPresent(m: Items, cap: nat, op: Op, env: Env)
    requires op.key in m
    ensures Apply(m, cap, op, env).items.Keys <= m.Keys
  {
    hide ValidateKey, ValidateValue, Full, Expired;
  }

  /** A command adds at most its own key, and only below the capacity. */
  lemma ApplyKeys(m: Items, cap: nat, op: Op, env: Env)
    ensures var keys := Apply(m, cap, op, env).items.Keys;
            keys <= m.Keys || (keys == m.Keys + {op.key} && !Full(m, cap))
  {
    hide Apply, Full;
    if op.key in m {
      ApplyKeysPresent(m, cap, op, env);
    } else {
      ApplyKeysFetched(m, cap, op, env);
    }
  }

  lemma SubsetSize<T>(a: set<T>, b: set<T>)
    requires a <= b
    ensures |a| <= |b|
  {
    assert b == a + (b - a);
  }

  lemma StepKeepsCap(db: Db, op: Op, env: Env)
    requires WithinCap(db)
    ensures WithinCap(Step(db, op, env).db)
  {
    hide Apply, Recs, Refused, AppendLog, AppendRewrite;
    ApplyKeys(db.items, db.cap, op, env);
    var m' := Apply(db.items, db.cap, op, env).items;
    if m'.Keys <= db.items.Keys {
      SubsetSize(m'.Keys, db.items.Keys);
    } else {
      SubsetSize(m'.Keys, db.items.Keys + {op.key});
    }
    assert |m'| == |m'.Keys| && |db.items| == |db.items.Keys|;
  }
}
