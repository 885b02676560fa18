/** The steps of Durability spelled out command by command, in the order in which
    the source decides them. */
module Steps {
  import opened Common
  import opened Spec
  import opened LogText
  import opened Durability

  /** The map after a SET that ended with `st`: an existing key keeps its deadline. */
  function AfterSet(m: Items, key: bytes, val: bytes, st: Status): Items {
    if st == Ok then m[key := Item(Str(val), if key in m then m[key].deadline else 0)] else m
  }

  /** The status kv_set_internal ends with when there is no budget. */
  function SetStatus(m: Items, cap: nat, key: bytes, val: bytes, entryOk: bool): Status {
    if ValidateKey(key) != Ok then ValidateKey(key)
    else if ValidateValue(val) != Ok then ValidateValue(val)
    else if key in m && !m[key].value.Str? then WrongType
    else if key !in m && Full(m, cap) then CapacityFull
    else if entryOk then Ok else Internal
  }

  lemma SetAgrees(m: Items, cap: nat, key: bytes, val: bytes, entryOk: bool)
    ensures var st := SetStatus(m, cap, key, val, entryOk);
            Out(AfterSet(m, key, val, st), Code(st)) == Spec.SetInternal(m, cap, key, val, entryOk)
  {
  }

  lemma NothingGone(m: Items, key: bytes, val: bytes)
    ensures m - {} == m
    ensures forall st: Status | st != Ok :: AfterSet(m, key, val, st) == m
  {
  }

  lemma GoneTwice(m: Items, gone: set<bytes>, more: set<bytes>, kept: Items, key: bytes, val: bytes, st: Status)
    requires kept == AfterSet(m - gone, key, val, Internal) && more <= kept.Keys
    ensures kept - more == m - (gone + more)
    ensures more <= m.Keys
  {
  }

  lemma StepSet(db: Db, key: bytes, val: bytes, env: Env)
    ensures var step := Step(db, SetOp(key, val), env);
            var out := Spec.SetInternal(db.items, db.cap, key, val, env.entryOk);
            var r := Rec(SET, key, val);
            if ValidateKey(key) != Ok then step == StepOut(db, Code(ValidateKey(key)))
            else if ValidateValue(val) != Ok then step == StepOut(db, Code(ValidateValue(val)))
            else if db.log.Appending? && !Writable(r, env) then step == StepOut(db, Code(Io))
            else step == StepOut(Db(out.items, db.cap,
                                    if out.reply == Code(Ok) then AppendLog(db.log, [r], env) else db.log,
                                    AppendRewrite(db.rewrite, if out.reply == Code(Ok) then [r] else [])),
                                 out.reply)
  {
    AppendNothing(db.rewrite);
    hide Format;
  }

  lemma StepDelete(db: Db, key: bytes, env: Env)
    ensures var step := Step(db, DeleteOp(key), env);
            var out := Spec.DeleteInternal(db.items, key);
            var r := Rec(DELETE, key, []);
            if ValidateKey(key) != Ok then step == StepOut(db, Code(InvalidParam))
            else if db.log.Appending? && !Writable(r, env) then step == StepOut(db, Code(Io))
            else step == StepOut(Db(out.items, db.cap,
                                    if out.reply == Code(Ok) then AppendLog(db.log, [r], env) else db.log,
                                    AppendRewrite(db.rewrite, if out.reply == Code(Ok) then [r] else [])),
                                 out.reply)
  {
    AppendNothing(db.rewrite);
    hide Format;
  }

  /** Cutting a log back to where its last record started undoes the write. */
  lemma Undone(log: Log, r: Rec, env: Env, pos: int)
    requires log.Appending? ==> Writable(r, env) && pos == |log.file|
    ensures var written := AppendLog(log, [r], env);
            log.Appending? ==>
              written.Appending? && pos <= |written.file| && Appending(written.file[..pos]) == log
  {
  }

  lemma StepOther(db: Db, op: Op, env: Env)
    requires !op.SetOp? && !op.DeleteOp?
    ensures var out := Apply(db.items, db.cap, op, env);
            Step(db, op, env) == StepOut(Db(out.items, db.cap, AppendLog(db.log, Recs(op, out), env),
                                            AppendRewrite(db.rewrite, Recs(op, out))), out.reply)
  {
    hide Apply, Recs;
  }

  /** Finding or creating the container of a push: an absent key needs room and an allocation. */
  function OpenStatus(m: Items, cap: nat, key: bytes, empty: Value, env: Env): Status {
    if key in m then
      if m[key].value.List? == empty.List? && m[key].value.Set? == empty.Set? then Ok else WrongType
    else if Full(m, cap) then CapacityFull
    else if env.entryOk then Ok else Internal
  }

  function Opened(m: Items, key: bytes, empty: Value): Items {
    m[key := if key in m then m[key] else Item(empty, 0)]
  }

  lemma EvictedNothing(db: Db)
    ensures db.items - {} == db.items && db.(items := db.items - {}) == db
  {
  }

  lemma FullLess(m: Items, gone: set<bytes>, cap: nat)
    ensures Full(m - gone, cap) ==> Full(m, cap)
  {
    var rest := m - gone;
    SubsetSize(rest.Keys, m.Keys);
    assert |rest| == |rest.Keys| && |m| == |m.Keys|;
  }

  /** Evicting other keys before the container is opened, or after, comes to the same. */
  lemma EvictedFirst(m0: Items, cap: nat, gone: set<bytes>, more: set<bytes>, key: bytes, empty: Value, env: Env)
    requires key !in gone
    ensures var m, m' := Fetch(m0, key, env.now) - gone, Fetch(m0 - (gone + more), key, env.now);
            && Opened(m, key, empty).Keys <= m0.Keys + {key}
            && (key !in more ==>
                  && m' == m - more
                  && Opened(m, key, empty) - more == Opened(m', key, empty)
                  && (OpenStatus(m, cap, key, empty, env) == Ok ==> OpenStatus(m', cap, key, empty, env) == Ok))
            && m - {} == m && gone + {} == gone
  {
    hide Full;
    var m := Fetch(m0, key, env.now) - gone;
    FullLess(m, more, cap);
    if key !in more {
      assert Fetch(m0 - (gone + more), key, env.now) == m - more;
    }
  }

  lemma NoneEvicted(m: Items, gone: set<bytes>, key: bytes, now: int)
    ensures gone == {} ==> Fetch(m, key, now) - gone == Fetch(m, key, now)
  {
    hide Fetch;
  }

  lemma BadPushArgs(m: Items, cap: nat, key: bytes, val: bytes, env: Env)
    ensures var st := if ValidateKey(key) != Ok then ValidateKey(key) else ValidateValue(val);
            && (!GoodArgs(key, val) ==> LPush(m, cap, key, val, env) == Out(m, Code(st)) == SAdd(m, cap, key, val, env))
            && st != BudgetExceeded
  {
  }

  lemma LPushCases(m0: Items, cap: nat, key: bytes, val: bytes, env: Env)
    requires GoodArgs(key, val)
    ensures var m := Fetch(m0, key, env.now);
            var st := OpenStatus(m, cap, key, List([]), env);
            var m' := Opened(m, key, List([]));
            LPush(m0, cap, key, val, env) ==
            if st != Ok then Out(m, Code(st))
            else if !env.nodeOk then Out(m', Code(Internal))
            else
              var items := m'[key].value.items;
              Out(m'[key := Item(List([val] + items), m'[key].deadline)], Int(|items| + 1))
  {
    hide Fetch, Full;
  }

  lemma SAddCases(m0: Items, cap: nat, key: bytes, val: bytes, env: Env)
    requires GoodArgs(key, val)
    ensures var m := Fetch(m0, key, env.now);
            var st := OpenStatus(m, cap, key, Set({}), env);
            var m' := Opened(m, key, Set({}));
            SAdd(m0, cap, key, val, env) ==
            if st != Ok then Out(m, Code(st))
            else if val in m'[key].value.members then Out(m', Int(0))
            else if !env.nodeOk then Out(m', Code(Internal))
            else Out(m'[key := Item(Set(m'[key].value.members + {val}), m'[key].deadline)], Int(1))
  {
    hide Fetch, Full;
    var m := Fetch(m0, key, env.now);
    assert key in m ==> m[key := m[key]] == m;
  }

  /** LPUSH and SADD add at most one key, and one exactly when they can make its container. */
  lemma PushSize(m0: Items, cap: nat, key: bytes, val: bytes, env: Env)
    ensures var f := Fetch(m0, key, env.now);
            var grown := if !GoodArgs(key, val) then |m0| else if Room(f, cap, key, env) then |f| + 1 else |f|;
            && |f| <= |m0|
            && |LPush(m0, cap, key, val, env).items| == grown
            && |SAdd(m0, cap, key, val, env).items| == grown
  {
    hide ValidateKey, ValidateValue, Full;
    var f := Fetch(m0, key, env.now);
    SubsetSize(f.Keys, m0.Keys);
    if GoodArgs(key, val) {
      PushSizeOpened(m0, cap, key, val, env);
    } else {
      BadPushArgs(m0, cap, key, val, env);
    }
  }

  lemma PushSizeOpened(m0: Items, cap: nat, key: bytes, val: bytes, env: Env)
    requires GoodArgs(key, val)
    ensures var f := Fetch(m0, key, env.now);
            var grown := if Room(f, cap, key, env) then |f| + 1 else |f|;
            && |LPush(m0, cap, key, val, env).items| == grown
            && |SAdd(m0, cap, key, val, env).items| == grown
  {
    hide ValidateKey, ValidateValue, Full, LPush, SAdd, Fetch;
    LPushCases(m0, cap, key, val, env);
    SAddCases(m0, cap, key, val, env);
    var f := Fetch(m0, key, env.now);
    OneMoreKey(f, LPush(m0, cap, key, val, env).items, key);
    OneMoreKey(f, SAdd(m0, cap, key, val, env).items, key);
  }

  lemma OneMoreKey(f: Items, m: Items, key: bytes)
    ensures m.Keys == f.Keys + {key} ==> |m| == if key in f then |f| else |f| + 1
  {
    assert |m| == |m.Keys| && |f| == |f.Keys|;
    if key in f {
      assert f.Keys + {key} == f.Keys;
    }
  }

  /** A push that could not open its container, after eviction. */
  lemma PushRefused(m0: Items, cap: nat, key: bytes, val: bytes, env: Env, gone: set<bytes>)
    requires GoodArgs(key, val) && key !in gone
    ensures var m := Fetch(m0, key, env.now) - gone;
            var st, st' := OpenStatus(m, cap, key, List([]), env), OpenStatus(m, cap, key, Set({}), env);
            && (st != Ok ==> LPush(m0 - gone, cap, key, val, env) == Out(m, Code(st)))
            && (st' != Ok ==> SAdd(m0 - gone, cap, key, val, env) == Out(m, Code(st')))
  {
    hide ValidateKey, ValidateValue, Full, LPush, SAdd, OpenStatus;
    LPushCases(m0 - gone, cap, key, val, env);
    SAddCases(m0 - gone, cap, key, val, env);
    EvictedFirst(m0, cap, gone, {}, key, List([]), env);
  }

  lemma OpenInternal(m: Items, cap: nat, key: bytes, empty: Value, env: Env)
    ensures OpenStatus(m, cap, key, empty, env) == Internal ==> key !in m
  {
  }

  lemma ArgCodes(key: bytes, val: bytes)
    ensures ValidateKey(key) != Internal && ValidateValue(val) != Internal
  {
  }

  lemma FetchKeys(m: Items, key: bytes, now: int)
    ensures m.Keys - {key} <= Fetch(m, key, now).Keys <= m.Keys
  {
  }

  lemma OpenedKeys(m: Items, key: bytes, now: int, gone: set<bytes>, empty: Value)
    ensures m.Keys - gone - {key} <= Opened(Fetch(m, key, now) - gone, key, empty).Keys
  {
  }

  lemma OpenedSame(m: Items, gone: set<bytes>, key: bytes, empty: Value)
    requires key !in gone
    ensures Opened(m - gone, key, empty)[key] == Opened(m, key, empty)[key]
  {
  }

  lemma OpenedKind(m: Items, cap: nat, key: bytes, empty: Value, env: Env)
    requires !empty.Str? && OpenStatus(m, cap, key, empty, env) == Ok
    ensures var v := Opened(m, key, empty)[key].value; v.List? == empty.List? && v.Set? == empty.Set?
  {
  }

  /** A push that opened its container as `open`, lost `more` to eviction, and went on from there. */
  lemma LPushed(m0: Items, cap: nat, key: bytes, val: bytes, env: Env, gone: set<bytes>, more: set<bytes>, open: Items)
    requires GoodArgs(key, val) && key !in gone && key !in more && gone <= m0.Keys && more <= open.Keys
    requires var m := Fetch(m0, key, env.now) - gone;
             OpenStatus(m, cap, key, List([]), env) == Ok && open == Opened(m, key, List([]))
    ensures gone + more <= m0.Keys && key in open && open[key].value.List?
    ensures LPush(m0 - (gone + more), cap, key, val, env)
            == if env.nodeOk
               then Out((open - more)[key := Item(List([val] + open[key].value.items), open[key].deadline)],
                        Int(|open[key].value.items| + 1))
               else Out(open - more, Code(Internal))
  {
    hide ValidateKey, ValidateValue, Full, LPush, Fetch;
    EvictedFirst(m0, cap, gone, more, key, List([]), env);
    LPushCases(m0 - (gone + more), cap, key, val, env);
  }

  lemma SAdded(m0: Items, cap: nat, key: bytes, val: bytes, env: Env, gone: set<bytes>, more: set<bytes>, open: Items)
    requires GoodArgs(key, val) && key !in gone && key !in more && gone <= m0.Keys && more <= open.Keys
    requires var m := Fetch(m0, key, env.now) - gone;
             OpenStatus(m, cap, key, Set({}), env) == Ok && open == Opened(m, key, Set({}))
    ensures gone + more <= m0.Keys && key in open && open[key].value.Set?
    ensures SAdd(m0 - (gone + more), cap, key, val, env)
            == if val in open[key].value.members then Out(open - more, Int(0))
               else if env.nodeOk
               then Out((open - more)[key := Item(Set(open[key].value.members + {val}), open[key].deadline)], Int(1))
               else Out(open - more, Code(Internal))
  {
    hide ValidateKey, ValidateValue, Full, SAdd, Fetch;
    EvictedFirst(m0, cap, gone, more, key, Set({}), env);
    SAddCases(m0 - (gone + more), cap, key, val, env);
  }

  /** LPUSH and SADD as a step: the change to the map, and a record if it was made. */
  lemma StepPush(db: Db, op: Op, env: Env)
    requires op.LPushOp? || op.SAddOp?
    ensures var out := Apply(db.items, db.cap, op, env);
            var recs := if out.reply.Int? && (op.LPushOp? || out.reply == Int(1)) then [RecordOf(op)] else [];
            && Step(db, op, env) == StepOut(Db(out.items, db.cap, AppendLog(db.log, recs, env),
                                               AppendRewrite(db.rewrite, recs)), out.reply)
            && AppendLog(db.log, [], env) == db.log && AppendRewrite(db.rewrite, []) == db.rewrite
  {
    hide Apply, Format, FormatAll, Writable;
    AppendNothing(db.rewrite);
  }

  lemma StepRPop(db: Db, key: bytes, env: Env)
    requires AllStorable(db.items)
    ensures var step := Step(db, RPopOp(key), env);
            var m := Fetch(db.items, key, env.now);
            var r, d := Rec(RPOP, key, []), Rec(DELETE, key, []);
            if key !in m then step == StepOut(db.(items := m), Code(NotFound))
            else if !m[key].value.List? then step == StepOut(db.(items := m), Code(WrongType))
            else if m[key].value.items == [] then step == StepOut(db.(items := m), Code(NotFound))
            else if !env.nodeOk then step == StepOut(db.(items := m), Code(Internal))
            else
              var n := |m[key].value.items| - 1;
              var m' := m[key := Item(List(m[key].value.items[..n]), m[key].deadline)];
              var rw := AppendRewrite(db.rewrite, [r]);
              && ValidKey(key)
              && step == StepOut(Db(if n == 0 then m' - {key} else m', db.cap, AppendLog(db.log, [r], env),
                                    if n == 0 then AppendRewrite(rw, [d]) else rw),
                                 Bulk(m[key].value.items[n]))
  {
    StepOther(db, RPopOp(key), env);
    AppendNothing(db.rewrite);
    AppendPair(db.rewrite, Rec(RPOP, key, []), Rec(DELETE, key, []));
    var m := Fetch(db.items, key, env.now);
    assert forall it: Item {:trigger Item(it.value, it.deadline)} :: m[key := it] - {key} == m - {key};
    hide Step, Format, Writable, AppendRewrite;
  }

  lemma AppendPair(rw: Option<Rewrite>, r: Rec, t: Rec)
    ensures AppendRewrite(AppendRewrite(rw, [r]), [t]) == AppendRewrite(rw, [r, t])
    ensures [r] + [t] == [r, t] && [r] + [] == [r]
  {
    hide Format;
    FormatAllAppend([r], [t]);
    assert [r] + [t] == [r, t];
    hide FormatAll;
    if rw.Some? {
      var b := rw.value.buf;
      assert b + FormatAll([r]) + FormatAll([t]) == b + (FormatAll([r]) + FormatAll([t]));
    }
  }

  lemma StepSRem(db: Db, key: bytes, val: bytes, env: Env)
    requires AllStorable(db.items)
    ensures var step := Step(db, SRemOp(key, val), env);
            var m := Fetch(db.items, key, env.now);
            var r, d := Rec(SREM, key, val), Rec(DELETE, key, []);
            if key !in m then step == StepOut(db.(items := m), Int(0))
            else if !m[key].value.Set? then step == StepOut(db.(items := m), Code(WrongType))
            else if val !in m[key].value.members then step == StepOut(db.(items := m), Int(0))
            else
              var last := m[key].value.members == {val};
              var m' := m[key := Item(Set(m[key].value.members - {val}), m[key].deadline)];
              var rw := AppendRewrite(db.rewrite, [r]);
              && ValidKey(key)
              && step == StepOut(Db(if last then m' - {key} else m', db.cap, AppendLog(db.log, [r], env),
                                    if last then AppendRewrite(rw, [d]) else rw), Int(1))
  {
    StepOther(db, SRemOp(key, val), env);
    AppendNothing(db.rewrite);
    AppendPair(db.rewrite, Rec(SREM, key, val), Rec(DELETE, key, []));
    var m := Fetch(db.items, key, env.now);
    assert forall it: Item {:trigger Item(it.value, it.deadline)} :: m[key := it] - {key} == m - {key};
    hide Step, Format, Writable, AppendRewrite;
  }

  lemma StepPExpireAt(db: Db, key: bytes, deadline: int, env: Env)
    ensures var step := Step(db, PExpireAtOp(key, deadline), env);
            var m := Fetch(db.items, key, env.now);
            var r := Rec(PEXPIREAT, key, PrintInt(deadline));
            if key !in m then step == StepOut(db.(items := m), Int(0))
            else step == StepOut(Db(m[key := Item(m[key].value, deadline)], db.cap,
                                    AppendLog(db.log, [r], env), AppendRewrite(db.rewrite, [r])), Int(1))
  {
    StepOther(db, PExpireAtOp(key, deadline), env);
    AppendNothing(db.rewrite);
    hide Step, Fetch, Format, Writable, PrintInt;
  }

  lemma StepPersist(db: Db, key: bytes, env: Env)
    ensures var step := Step(db, PersistOp(key), env);
            var m := Fetch(db.items, key, env.now);
            var r := Rec(PEXPIREAT, key, PrintInt(0));
            if key !in m || m[key].deadline == 0 then step == StepOut(db.(items := m), Int(0))
            else step == StepOut(Db(m[key := Item(m[key].value, 0)], db.cap,
                                    AppendLog(db.log, [r], env), AppendRewrite(db.rewrite, [r])), Int(1))
  {
    StepOther(db, PersistOp(key), env);
    AppendNothing(db.rewrite);
    hide Step, Fetch, Format, Writable, PrintInt;
  }

  lemma PiecesMakeRecord(r: Rec, buf: bytes)
    ensures FormatAll([r]) == Format(r)
    ensures buf + FormatAll([r])
            == if HasArg(r.cmd) then buf + (Tag(r.cmd) + [TAB]) + r.key + [TAB] + r.arg + [NL]
               else buf + (Tag(r.cmd) + [TAB]) + r.key + [NL]
  {
    assert [r][1..] == [];
    assert FormatAll([r]) == Format(r) + FormatAll([]);
    hide Tag;
  }

  lemma AppendNothing(rw: Option<Rewrite>)
    ensures AppendRewrite(rw, []) == rw
  {
    assert rw.Some? ==> rw.value.buf + [] == rw.value.buf;
  }

  /** Without a log and without a compaction a step is just the command. */
  lemma SetUnlogged(db: Db, key: bytes, val: bytes, env: Env)
    requires !db.log.Appending?
    ensures var step := Step(db, SetOp(key, val), env);
            Out(step.db.items, step.reply) == Spec.SetInternal(db.items, db.cap, key, val, env.entryOk)
  {
    hide Recs, Spec.SetInternal;
  }

  lemma Unlogged(db: Db, op: Op, env: Env)
    requires !db.log.Appending? && db.rewrite.None?
    ensures Step(db, op, env).db == db.(items := Apply(db.items, db.cap, op, env).items)
  {
    hide Apply, Recs;
  }
}
