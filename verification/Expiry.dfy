/** Lazy against eager expiry: dropping expired entries early (the sweep of
    src/eviction.c) or late (find_entry_unlocked) cannot be told apart by any
    command that looks its key up, and exactly when SET and DELETE can tell. */
module Expiry {
  import opened Common
  import opened Spec
  import opened LogText
  import opened Durability

  predicate LiveIn(m: Items, k: bytes, t: int) {
    k in m && !Expired(m[k], t)
  }

  /** The two maps hold the same entries, except for ones already expired at `t`. */
  ghost predicate SameLive(a: Items, b: Items, t: int) {
    forall k :: LiveIn(a, k, t) == LiveIn(b, k, t) && (LiveIn(a, k, t) ==> a[k] == b[k])
  }

  /** Commands that reach their entry through find_entry_unlocked. */
  predicate LooksUp(op: Op) {
    !op.SetOp? && !op.DeleteOp?
  }

  lemma FetchLive(m: Items, key: bytes, t: int)
    ensures key in Fetch(m, key, t) <==> LiveIn(m, key, t)
    ensures LiveIn(m, key, t) ==> Fetch(m, key, t)[key] == m[key]
    ensures SameLive(Fetch(m, key, t), m, t)
  {
  }

  lemma SameLiveLater(a: Items, b: Items, t: int, t': int)
    requires SameLive(a, b, t) && t <= t'
    ensures SameLive(a, b, t')
  {
    forall k
      ensures LiveIn(a, k, t') == LiveIn(b, k, t') && (LiveIn(a, k, t') ==> a[k] == b[k])
    {
      assert LiveIn(a, k, t) == LiveIn(b, k, t) && (LiveIn(a, k, t) ==> a[k] == b[k]);
      assert LiveIn(a, k, t') ==> LiveIn(a, k, t);
      assert LiveIn(b, k, t') ==> LiveIn(b, k, t);
    }
  }

  lemma SameLiveTrans(a: Items, b: Items, c: Items, t: int)
    requires SameLive(a, b, t) && SameLive(b, c, t)
    ensures SameLive(a, c, t)
  {
  }

  lemma SameLiveUpdate(a: Items, b: Items, key: bytes, it: Item, t: int)
    requires SameLive(a, b, t)
    ensures SameLive(a[key := it], b[key := it], t)
    ensures SameLive(a - {key}, b - {key}, t)
  {
    forall k
      ensures LiveIn(a[key := it], k, t) == LiveIn(b[key := it], k, t)
              && (LiveIn(a[key := it], k, t) ==> a[key := it][k] == b[key := it][k])
      ensures LiveIn(a - {key}, k, t) == LiveIn(b - {key}, k, t)
              && (LiveIn(a - {key}, k, t) ==> (a - {key})[k] == (b - {key})[k])
    {
      assert LiveIn(a, k, t) == LiveIn(b, k, t) && (LiveIn(a, k, t) ==> a[k] == b[k]);
    }
  }

  /** After the lookup the two maps agree on the key itself. */
  lemma FetchAgree(a: Items, b: Items, key: bytes, now: int)
    requires SameLive(a, b, now)
    ensures var a', b' := Fetch(a, key, now), Fetch(b, key, now);
            && (key in a' <==> key in b') && (key in a' ==> a'[key] == b'[key])
            && SameLive(a', b', now)
  {
    FetchLive(a, key, now);
    FetchLive(b, key, now);
    assert LiveIn(a, key, now) == LiveIn(b, key, now) && (LiveIn(a, key, now) ==> a[key] == b[key]);
    SameLiveTrans(Fetch(a, key, now), a, b, now);
    SameLiveTrans(Fetch(a, key, now), b, Fetch(b, key, now), now) by {
      assert SameLive(b, Fetch(b, key, now), now);
    }
    hide Fetch, SameLive;
  }

  /** A looking-up command does one of three things to the fetched map. */
  datatype Effect = Nothing | Store(it: Item) | Drop

  function Perform(m: Items, key: bytes, e: Effect): Items {
    match e
    case Nothing => m
    case Store(it) => m[key := it]
    case Drop => m - {key}
  }

  /** The argument checks in front of LPUSH and SADD. */
  function ArgStatus(op: Op): Status {
    if !op.LPushOp? && !op.SAddOp? then Ok
    else if ValidateKey(op.key) != Ok then ValidateKey(op.key) else ValidateValue(op.val)
  }

  /** What a command does and answers depends only on the fetched item. */
  function EffectOf(op: Op, it: Option<Item>, env: Env): Effect {
    match op
    case LPushOp(_, v) =>
      if it.Some? && !it.value.value.List? then Nothing
      else if it.None? && !env.entryOk then Nothing
      else
        var was := if it.Some? then it.value else Item(List([]), 0);
        if !env.nodeOk then Store(was) else Store(Item(List([v] + was.value.items), was.deadline))
    case RPopOp(_) =>
      if it.None? || !it.value.value.List? || it.value.value.items == [] || !env.nodeOk then Nothing
      else
        var rest := it.value.value.items[..|it.value.value.items| - 1];
        if rest == [] then Drop else Store(Item(List(rest), it.value.deadline))
    case SAddOp(_, v) =>
      if it.Some? && !it.value.value.Set? then Nothing
      else if it.None? && !env.entryOk then Nothing
      else
        var was := if it.Some? then it.value else Item(Set({}), 0);
        if v in was.value.members then Nothing
        else if !env.nodeOk then Store(was) else Store(Item(Set(was.value.members + {v}), was.deadline))
    case SRemOp(_, v) =>
      if it.None? || !it.value.value.Set? || v !in it.value.value.members then Nothing
      else if it.value.value.members == {v} then Drop
      else Store(Item(Set(it.value.value.members - {v}), it.value.deadline))
    case PExpireAtOp(_, d) => if it.None? then Nothing else Store(it.value.(deadline := d))
    case PersistOp(_) => if it.None? || it.value.deadline == 0 then Nothing else Store(it.value.(deadline := 0))
    case _ => Nothing
  }

  function Lookup(m: Items, key: bytes): Option<Item> {
    if key in m then Some(m[key]) else None
  }

  lemma ApplyIsEffect(m: Items, op: Op, env: Env)
    requires LooksUp(op) && ArgStatus(op) == Ok
    ensures var f := Fetch(m, op.key, env.now);
            Apply(m, 0, op, env).items == Perform(f, op.key, EffectOf(op, Lookup(f, op.key), env))
  {
    hide Fetch;
  }

  lemma ReplyAgrees(a: Items, b: Items, op: Op, env: Env)
    requires LooksUp(op)
    requires var f, g := Fetch(a, op.key, env.now), Fetch(b, op.key, env.now); Lookup(f, op.key) == Lookup(g, op.key)
    ensures Apply(a, 0, op, env).reply == Apply(b, 0, op, env).reply
  {
    hide Fetch;
  }

  lemma PerformAgrees(a: Items, b: Items, key: bytes, e: Effect, t: int)
    requires SameLive(a, b, t) && Lookup(a, key) == Lookup(b, key)
    ensures SameLive(Perform(a, key, e), Perform(b, key, e), t)
    ensures key in Perform(a, key, e) <==> key in Perform(b, key, e)
  {
    hide SameLive;
    match e {
      case Nothing =>
      case Store(it) => SameLiveUpdate(a, b, key, it, t);
      case Drop => SameLiveUpdate(a, b, key, Item(Str([]), 0), t);
    }
  }

  lemma EffectsAgree(m: Items, n: Items, op: Op, env: Env)
    requires SameLive(m, n, env.now) && LooksUp(op)
    requires Apply(m, 0, op, env).reply == Apply(n, 0, op, env).reply
    ensures SameLive(Apply(m, 0, op, env).items, Apply(n, 0, op, env).items, env.now)
    ensures Recs(op, Apply(m, 0, op, env)) == Recs(op, Apply(n, 0, op, env))
  {
    hide Fetch, SameLive, Apply, EffectOf, Perform, Recs, ArgStatus;
    FetchAgree(m, n, op.key, env.now);
    if ArgStatus(op) == Ok {
      var f, g := Fetch(m, op.key, env.now), Fetch(n, op.key, env.now);
      ApplyIsEffect(m, op, env);
      ApplyIsEffect(n, op, env);
      PerformAgrees(f, g, op.key, EffectOf(op, Lookup(f, op.key), env), env.now);
      RecsAgree(op, Apply(m, 0, op, env), Apply(n, 0, op, env));
    } else {
      BadArgs(m, op, env);
      BadArgs(n, op, env);
    }
  }

  /** One looking-up command on two stores that differ only in expired entries: same answer, same
      records in the log, and still no difference but expired entries. */
  lemma CommandBlind(a: Db, b: Db, op: Op, env: Env, t: int)
    requires a.cap == b.cap == 0 && a.log == b.log && a.rewrite == b.rewrite
    requires SameLive(a.items, b.items, t) && t <= env.now && LooksUp(op)
    ensures var x, y := Step(a, op, env), Step(b, op, env);
            && x.reply == y.reply
            && x.db.log == y.db.log && x.db.rewrite == y.db.rewrite && x.db.cap == y.db.cap == 0
            && SameLive(x.db.items, y.db.items, env.now)
  {
    hide SameLive, Apply, Recs, AppendLog, AppendRewrite;
    SameLiveLater(a.items, b.items, t, env.now);
    FetchAgree(a.items, b.items, op.key, env.now);
    ReplyAgrees(a.items, b.items, op, env);
    EffectsAgree(a.items, b.items, op, env);
  }

  lemma BadArgs(m: Items, op: Op, env: Env)
    requires ArgStatus(op) != Ok
    ensures Apply(m, 0, op, env) == Out(m, Code(ArgStatus(op))) && Recs(op, Apply(m, 0, op, env)) == []
  {
  }

  lemma RecsAgree(op: Op, x: Out, y: Out)
    requires x.reply == y.reply && (op.key in x.items <==> op.key in y.items)
    ensures Recs(op, x) == Recs(op, y)
  {
  }

  // ----- Whole runs with sweeps anywhere -----

  datatype Event =
    | Do(op: Op, env: Env)
    | Swept(gone: set<bytes>, now: int)

  function TimeOf(ev: Event): int {
    match ev
    case Do(_, env) => env.now
    case Swept(_, now) => now
  }

  function After(db: Db, ev: Event): Db {
    match ev
    case Do(op, env) => Step(db, op, env).db
    case Swept(gone, _) => db.(items := db.items - gone)
  }

  /** A sweep removes only entries that have expired by then. */
  predicate Fair(db: Db, ev: Event) {
    match ev
    case Do(op, _) => LooksUp(op)
    case Swept(gone, now) => forall k | k in gone && k in db.items :: Expired(db.items[k], now)
  }

  /** The clock never runs backwards and every event is fair. */
  predicate FairRun(db: Db, evs: seq<Event>, t: int)
    decreases |evs|
  {
    evs == [] || (t <= TimeOf(evs[0]) && Fair(db, evs[0]) && FairRun(After(db, evs[0]), evs[1..], TimeOf(evs[0])))
  }

  function Replies(db: Db, evs: seq<Event>): seq<Reply>
    decreases |evs|
  {
    if evs == [] then []
    else (if evs[0].Do? then [Step(db, evs[0].op, evs[0].env).reply] else []) + Replies(After(db, evs[0]), evs[1..])
  }

  function WithoutSweeps(evs: seq<Event>): seq<Event> {
    if evs == [] then [] else (if evs[0].Do? then [evs[0]] else []) + WithoutSweeps(evs[1..])
  }

  lemma SweepBlind(m: Items, gone: set<bytes>, t: int)
    requires forall k | k in gone && k in m :: Expired(m[k], t)
    ensures SameLive(m - gone, m, t)
  {
  }

  lemma {:induction false} SweepsInvisibleFrom(a: Db, b: Db, evs: seq<Event>, t: int)
    requires a.cap == b.cap == 0 && a.log == b.log && a.rewrite == b.rewrite
    requires SameLive(a.items, b.items, t) && FairRun(a, evs, t)
    ensures Replies(a, evs) == Replies(b, WithoutSweeps(evs))
    decreases |evs|
  {
    hide SameLive, Step;
    if evs != [] {
      var ev, t' := evs[0], TimeOf(evs[0]);
      match ev {
        case Do(op, env) =>
          CommandBlind(a, b, op, env, t);
          SweepsInvisibleFrom(After(a, ev), After(b, ev), evs[1..], t');
          assert WithoutSweeps(evs)[1..] == WithoutSweeps(evs[1..]);
        case Swept(gone, now) =>
          SweepBlind(a.items, gone, now);
          SameLiveLater(a.items, b.items, t, now);
          SameLiveTrans(a.items - gone, a.items, b.items, now);
          SweepsInvisibleFrom(After(a, ev), b, evs[1..], t');
          assert WithoutSweeps(evs) == WithoutSweeps(evs[1..]);
      }
    }
  }

  /** Sweeping anywhere in a run changes no answer of any looking-up command. */
  lemma SweepsInvisible(db: Db, evs: seq<Event>, t: int)
    requires db.cap == 0 && FairRun(db, evs, t)
    ensures Replies(db, evs) == Replies(db, WithoutSweeps(evs))
  {
    SweepsInvisibleFrom(db, db, evs, t);
  }

  // ----- SET and DELETE ignore expiry -----

  /** `gone` holds expired keys only. */
  predicate SweptKeys(m: Items, gone: set<bytes>, now: int) {
    forall k | k in gone && k in m :: Expired(m[k], now)
  }

  /** SET behaves the same before and after any sweep if and only if the sweep did not take its
      key: otherwise it would have inherited the dead deadline, or been refused for the dead type. */
  lemma SetTellsSweptApart(m: Items, key: bytes, val: bytes, gone: set<bytes>, now: int)
    requires ValidKey(key) && ValidValue(val) && SweptKeys(m, gone, now)
    ensures var x, y := SetInternal(m, 0, key, val, true), SetInternal(m - gone, 0, key, val, true);
            (x.reply == y.reply && SameLive(x.items, y.items, now)) <==> !(key in gone && key in m)
  {
    hide ValidateKey, ValidateValue;
    var x, y := SetInternal(m, 0, key, val, true), SetInternal(m - gone, 0, key, val, true);
    if key in gone && key in m {
      assert LiveIn(y.items, key, now) && !LiveIn(x.items, key, now);
    } else {
      assert x.reply == y.reply;
      assert forall k :: LiveIn(x.items, k, now) == LiveIn(y.items, k, now)
                         && (LiveIn(x.items, k, now) ==> x.items[k] == y.items[k]);
    }
  }

  lemma DeleteTellsSweptApart(m: Items, key: bytes, gone: set<bytes>, now: int)
    requires ValidKey(key) && SweptKeys(m, gone, now)
    ensures var x, y := DeleteInternal(m, key), DeleteInternal(m - gone, key);
            && (x.reply == y.reply <==> !(key in gone && key in m))
            && SameLive(x.items, y.items, now)
  {
    hide ValidateKey;
  }

  /** A client's view: SET answers OK on an expired leftover, and the value is gone at once. */
  lemma SetOnExpiredIsLost()
    ensures var k, m := [107], map[[107] := Item(Str([97]), 5)];
            var env := ReplayEnv(10);
            var afterSet := SetInternal(m, 0, k, [98], true);
            && afterSet.reply == Code(Ok)
            && Get(afterSet.items, k, env).reply == Nil
            && Get(SetInternal(m - {k}, 0, k, [98], true).items, k, env).reply == Bulk([98])
  {
    var k: bytes := [107];
    assert ValidateKey(k) == Ok by { assert forall c | c in k :: c == 107; }
  }
}
