/** Log compaction: the child's dump of the table (kv_bgrewriteaof), the merge
    with the rewrite buffer (kv_merge_aof_rewrite), and runs that mix commands,
    compactions and restarts. */
module Compaction {
  import opened Common
  import opened Spec
  import opened Table
  import opened LogText
  import opened Durability

  // ----- The dump -----

  /** A list is written tail first, so that replaying the pushes restores its order. */
  function PushRecs(key: bytes, items: seq<bytes>): seq<Rec> {
    if items == [] then [] else PushRecs(key, items[1..]) + [Rec(LPUSH, key, items[0])]
  }

  function AddRecs(key: bytes, items: seq<bytes>): seq<Rec> {
    if items == [] then [] else [Rec(SADD, key, items[0])] + AddRecs(key, items[1..])
  }

  function PayloadRecs(e: Entry): seq<Rec> {
    match e.payload
    case PStr(s) => [Rec(SET, e.key, s)]
    case PList(items) => PushRecs(e.key, items)
    case PSet(nodes) => AddRecs(e.key, Concat(nodes))
  }

  function DeadlineRecs(e: Entry): seq<Rec> {
    if e.deadline > 0 then [Rec(PEXPIREAT, e.key, PrintInt(e.deadline))] else []
  }

  function EntryRecs(e: Entry): seq<Rec> {
    PayloadRecs(e) + DeadlineRecs(e)
  }

  function DumpRecs(es: seq<Entry>, now: int): seq<Rec> {
    if es == [] then []
    else (if Expired(ItemOf(es[0]), now) then [] else EntryRecs(es[0])) + DumpRecs(es[1..], now)
  }

  /** The file the child writes. */
  function Dump(es: seq<Entry>, now: int): bytes {
    FormatAll(DumpRecs(es, now))
  }

  lemma {:induction false} DumpRecsAppend(es: seq<Entry>, fs: seq<Entry>, now: int)
    ensures DumpRecs(es + fs, now) == DumpRecs(es, now) + DumpRecs(fs, now)
  {
    hide EntryRecs, Expired;
    if es == [] {
      assert es + fs == fs;
    } else {
      assert (es + fs)[1..] == es[1..] + fs;
      DumpRecsAppend(es[1..], fs, now);
    }
  }

  lemma DumpNothing(now: int)
    ensures Dump([], now) == []
  {
  }

  /** The child's file grows by one entry's records, unless the entry has expired. */
  lemma DumpOneMore(es: seq<Entry>, e: Entry, now: int)
    ensures Dump(es + [e], now)
            == if 0 < e.deadline <= now then Dump(es, now) else Dump(es, now) + FormatAll(EntryRecs(e))
  {
    hide EntryRecs;
    DumpRecsAppend(es, [e], now);
    var one := if 0 < e.deadline <= now then [] else EntryRecs(e);
    assert DumpRecs([e], now) == one + DumpRecs([e][1..], now);
    assert DumpRecs([e], now) == one;
    hide DumpRecs;
    FormatAllAppend(DumpRecs(es, now), one);
    assert Dump(es, now) + [] == Dump(es, now);
  }

  lemma {:induction false} AddRecsSnoc(key: bytes, items: seq<bytes>, v: bytes)
    ensures AddRecs(key, items + [v]) == AddRecs(key, items) + [Rec(SADD, key, v)]
  {
    if items == [] {
      assert [v][1..] == [];
    } else {
      assert (items + [v])[1..] == items[1..] + [v];
      AddRecsSnoc(key, items[1..], v);
    }
  }

  // ----- Replaying the dump -----

  lemma {:induction false} ReplayRecsAppend(m: Items, cap: nat, rs: seq<Rec>, ts: seq<Rec>, now: int)
    ensures ReplayRecs(m, cap, rs + ts, now) == ReplayRecs(ReplayRecs(m, cap, rs, now), cap, ts, now)
    decreases |rs|
  {
    hide ApplyRec;
    if rs == [] {
      assert rs + ts == ts;
    } else {
      assert (rs + ts)[1..] == rs[1..] + ts;
      ReplayRecsAppend(ApplyRec(m, cap, rs[0], now), cap, rs[1..], ts, now);
    }
  }

  lemma ReplaySingle(m: Items, cap: nat, r: Rec, now: int)
    ensures ReplayRecs(m, cap, [r], now) == ApplyRec(m, cap, r, now)
  {
    hide ApplyRec;
  }

  lemma ApplyLPush(m: Items, cap: nat, r: Rec, now: int)
    requires r.cmd == LPUSH && ValidKey(r.key) && ValidValue(r.arg)
    requires if r.key in m then m[r.key].value.List? && m[r.key].deadline == 0 else !Full(m, cap)
    ensures var was := if r.key in m then m[r.key].value.items else [];
            ApplyRec(m, cap, r, now) == m[r.key := Item(List([r.arg] + was), 0)]
  {
  }

  /** Pushing a whole list, tail first, onto an absent key. */
  lemma {:induction false} ReplayPushes(m: Items, cap: nat, key: bytes, items: seq<bytes>, now: int)
    requires ValidKey(key) && key !in m && !Full(m, cap)
    requires forall v | v in items :: ValidValue(v)
    ensures ReplayRecs(m, cap, PushRecs(key, items), now)
            == if items == [] then m else m[key := Item(List(items), 0)]
    decreases |items|
  {
    hide ApplyRec;
    if items != [] {
      var last := Rec(LPUSH, key, items[0]);
      ReplayRecsAppend(m, cap, PushRecs(key, items[1..]), [last], now);
      ReplayPushes(m, cap, key, items[1..], now);
      var m' := if items[1..] == [] then m else m[key := Item(List(items[1..]), 0)];
      ReplaySingle(m', cap, last, now);
      ApplyLPush(m', cap, last, now);
      assert [items[0]] + items[1..] == items;
    }
  }

  /** Adding members one by one to an absent key or a set already there. */
  lemma {:induction false} ReplayAdds(m: Items, cap: nat, key: bytes, items: seq<bytes>, now: int)
    requires ValidKey(key)
    requires if key in m then m[key].value.Set? && m[key].deadline == 0 else !Full(m, cap)
    requires forall v | v in items :: ValidValue(v)
    ensures var was := if key in m then m[key].value.members else {};
            ReplayRecs(m, cap, AddRecs(key, items), now)
            == if items == [] then m else m[key := Item(Set(was + SetOf(items)), 0)]
    decreases |items|
  {
    hide ApplyRec;
    if items != [] {
      var r := Rec(SADD, key, items[0]);
      var was := if key in m then m[key].value.members else {};
      var m' := m[key := Item(Set(was + {items[0]}), 0)];
      ApplySAdd(m, cap, r, now);
      assert AddRecs(key, items)[0] == r && AddRecs(key, items)[1..] == AddRecs(key, items[1..]);
      ReplayAdds(m', cap, key, items[1..], now);
      assert was + {items[0]} + SetOf(items[1..]) == was + SetOf(items);
      assert items[1..] == [] ==> SetOf(items) == {items[0]};
    }
  }

  lemma ApplySAdd(m: Items, cap: nat, r: Rec, now: int)
    requires r.cmd == SADD && ValidKey(r.key) && ValidValue(r.arg)
    requires if r.key in m then m[r.key].value.Set? && m[r.key].deadline == 0 else !Full(m, cap)
    ensures var was := if r.key in m then m[r.key].value.members else {};
            ApplyRec(m, cap, r, now) == m[r.key := Item(Set(was + {r.arg}), 0)]
  {
    var was := if r.key in m then m[r.key].value.members else {};
    assert r.arg in was ==> was + {r.arg} == was;
  }

  /** What the dump of an entry is worth: nothing for an empty container, and a
      negative deadline comes back as no deadline. */
  function DumpedItem(e: Entry): Item {
    Item(ValueOf(e.payload), if e.deadline > 0 then e.deadline else 0)
  }

  predicate HasContent(e: Entry) {
    match e.payload
    case PStr(_) => true
    case PList(items) => items != []
    case PSet(nodes) => Concat(nodes) != []
  }

  lemma ReplayEntry(m: Items, cap: nat, e: Entry, now: int)
    requires StorableEntry(e) && e.key !in m && !Full(m, cap)
    ensures ReplayRecs(m, cap, EntryRecs(e), now)
            == if HasContent(e) then m[e.key := DumpedItem(e)] else m
  {
    ReplayPayload(m, cap, e, now);
    ReplayRecsAppend(m, cap, PayloadRecs(e), DeadlineRecs(e), now);
    var m' := if HasContent(e) then m[e.key := Item(ValueOf(e.payload), 0)] else m;
    if e.deadline > 0 {
      var r := Rec(PEXPIREAT, e.key, PrintInt(e.deadline));
      StrtollOfPrinted(e.deadline);
      hide PrintInt, Strtoll, ReplayRecs, PayloadRecs;
      ReplaySingle(m', cap, r, now);
    }
  }

  lemma ReplayPayload(m: Items, cap: nat, e: Entry, now: int)
    requires StorableEntry(e) && e.key !in m && !Full(m, cap)
    ensures ReplayRecs(m, cap, PayloadRecs(e), now)
            == if HasContent(e) then m[e.key := Item(ValueOf(e.payload), 0)] else m
  {
    match e.payload {
      case PStr(s) => ReplaySingle(m, cap, Rec(SET, e.key, s), now);
      case PList(items) => ReplayPushes(m, cap, e.key, items, now);
      case PSet(nodes) =>
        ReplayAdds(m, cap, e.key, Concat(nodes), now);
        assert {} + SetOf(Concat(nodes)) == SetOf(Concat(nodes));
    }
  }

  /** The entries a dump carries over. */
  function Dumped(m: Items, es: seq<Entry>, now: int): Items
    decreases |es|
  {
    if es == [] then m
    else
      var e := es[0];
      Dumped(if !Expired(ItemOf(e), now) && HasContent(e) then m[e.key := DumpedItem(e)] else m, es[1..], now)
  }

  lemma {:induction false} ReplayDumpRecs(m: Items, cap: nat, es: seq<Entry>, now0: int, now: int)
    requires Unique(es) && (forall e | e in es :: StorableEntry(e) && e.key !in m)
    requires cap > 0 ==> |m| + |es| <= cap
    ensures ReplayRecs(m, cap, DumpRecs(es, now0), now) == Dumped(m, es, now0)
    decreases |es|
  {
    hide StorableEntry, EntryRecs, HasContent, DumpedItem;
    if es != [] {
      var e := es[0];
      var rs := if Expired(ItemOf(e), now0) then [] else EntryRecs(e);
      ReplayRecsAppend(m, cap, rs, DumpRecs(es[1..], now0), now);
      ReplayEntry(m, cap, e, now);
      var m' := if !Expired(ItemOf(e), now0) && HasContent(e) then m[e.key := DumpedItem(e)] else m;
      assert ReplayRecs(m, cap, rs, now) == m' by { hide ApplyRec; }
      assert forall f | f in es[1..] :: f in es && f.key != e.key;
      hide ReplayRecs;
      ReplayDumpRecs(m', cap, es[1..], now0, now);
    }
  }

  /** An entry that compaction keeps as it is. */
  predicate CarriedOver(e: Entry, now: int) {
    !Expired(ItemOf(e), now) && HasContent(e) && e.deadline >= 0
  }

  lemma {:induction false} DumpedSpec(m: Items, es: seq<Entry>, now: int)
    requires Unique(es) && forall e | e in es :: e.key !in m
    ensures var d := Dumped(m, es, now);
            && (forall k | k in m :: k in d && d[k] == m[k])
            && (forall k | k in d :: k in m || k in Keys(es))
            && (forall e | e in es ::
                  if !Expired(ItemOf(e), now) && HasContent(e) then e.key in d && d[e.key] == DumpedItem(e)
                  else e.key !in d)
    decreases |es|
  {
    hide HasContent, DumpedItem, Expired;
    if es != [] {
      var e := es[0];
      var m' := if !Expired(ItemOf(e), now) && HasContent(e) then m[e.key := DumpedItem(e)] else m;
      assert forall f | f in es[1..] :: f in es && f.key != e.key;
      DumpedSpec(m', es[1..], now);
      assert forall f | f in es :: f == e || f in es[1..];
    }
  }

  /** The dump equals the table exactly when every entry is carried over. */
  lemma DumpedExactly(es: seq<Entry>, now: int)
    requires Unique(es)
    ensures Dumped(map[], es, now) == MapOf(es) <==> forall e | e in es :: CarriedOver(e, now)
  {
    hide HasContent, Expired, ValueOf;
    DumpedSpec(map[], es, now);
    MapOfSpec(es);
    var d := Dumped(map[], es, now);
    if forall e | e in es :: CarriedOver(e, now) {
      assert d.Keys == MapOf(es).Keys;
      forall k | k in d
        ensures d[k] == MapOf(es)[k]
      {
        var e :| e in es && e.key == k;
        assert CarriedOver(e, now);
      }
    }
    if d == MapOf(es) {
      forall e | e in es
        ensures CarriedOver(e, now)
      {
        assert e.key in d && d[e.key] == ItemOf(e);
      }
    }
  }

  predicate LoggableEntry(e: Entry) {
    match e.payload
    case PStr(s) => Loggable(s)
    case PList(items) => forall v | v in items :: Loggable(v)
    case PSet(nodes) => forall v | v in Concat(nodes) :: Loggable(v)
  }

  lemma {:induction false} PushRecsWellFormed(key: bytes, items: seq<bytes>)
    requires ValidKey(key) && forall v | v in items :: ValidValue(v) && Loggable(v)
    ensures forall r | r in PushRecs(key, items) :: WellFormed(r)
  {
    if items != [] {
      PushRecsWellFormed(key, items[1..]);
    }
  }

  lemma {:induction false} AddRecsWellFormed(key: bytes, items: seq<bytes>)
    requires ValidKey(key) && forall v | v in items :: ValidValue(v) && Loggable(v)
    ensures forall r | r in AddRecs(key, items) :: WellFormed(r)
  {
    if items != [] {
      AddRecsWellFormed(key, items[1..]);
    }
  }

  lemma EntryRecsWellFormed(e: Entry)
    requires StorableEntry(e) && LoggableEntry(e)
    ensures forall r | r in EntryRecs(e) :: WellFormed(r)
  {
    match e.payload {
      case PStr(s) =>
      case PList(items) => PushRecsWellFormed(e.key, items);
      case PSet(nodes) =>
        assert forall v | v in Concat(nodes) :: v in SetOf(Concat(nodes));
        AddRecsWellFormed(e.key, Concat(nodes));
    }
    PrintIntShape(e.deadline);
    hide PrintInt, PushRecs, AddRecs;
  }

  lemma {:induction false} DumpRecsWellFormed(es: seq<Entry>, now: int)
    requires forall e | e in es :: StorableEntry(e) && LoggableEntry(e)
    ensures forall r | r in DumpRecs(es, now) :: WellFormed(r)
  {
    hide EntryRecs, WellFormed, StorableEntry, LoggableEntry;
    if es != [] {
      EntryRecsWellFormed(es[0]);
      DumpRecsWellFormed(es[1..], now);
    }
  }

  lemma ReplayDump(es: seq<Entry>, cap: nat, now0: int, now: int)
    requires Unique(es) && forall e | e in es :: StorableEntry(e) && LoggableEntry(e)
    requires cap > 0 ==> |es| <= cap
    ensures Replay(map[], cap, Dump(es, now0), now) == Dumped(map[], es, now0)
  {
    hide StorableEntry, LoggableEntry;
    DumpRecsWellFormed(es, now0);
    ReplayFormatAll(map[], cap, DumpRecs(es, now0), now);
    ReplayDumpRecs(map[], cap, es, now0, now);
  }

  lemma ReplayedEntry(es: seq<Entry>, e: Entry)
    requires Unique(es) && e in es && AllReplayed(MapOf(es))
    ensures LoggableEntry(e)
  {
    MapOfSpec(es);
    assert Replayed(e.key, MapOf(es)[e.key]);
    match e.payload {
      case PSet(nodes) => assert forall v | v in Concat(nodes) :: v in SetOf(Concat(nodes));
      case _ =>
    }
  }

  /** Replaying the dump rebuilds the table it was taken from, at any clock, if and
      only if no entry was expired, empty, unloggable or had a negative deadline. */
  lemma DumpMirrors(es: seq<Entry>, cap: nat, now0: int, T: int)
    requires Unique(es) && forall e | e in es :: StorableEntry(e)
    requires cap > 0 ==> |es| <= cap
    ensures Mirrors(Dump(es, now0), MapOf(es), cap, T)
            <==> forall e | e in es :: CarriedOver(e, now0) && LoggableEntry(e)
  {
    hide StorableEntry, LoggableEntry, CarriedOver, Replay;
    FormatAllWhole(DumpRecs(es, now0));
    if Mirrors(Dump(es, now0), MapOf(es), cap, T) {
      MirrorReplayed(Dump(es, now0), MapOf(es), cap, T);
      forall e | e in es
        ensures LoggableEntry(e)
      {
        ReplayedEntry(es, e);
      }
      ReplayDump(es, cap, now0, T);
      DumpedExactly(es, now0);
    }
    if forall e | e in es :: CarriedOver(e, now0) && LoggableEntry(e) {
      DumpedExactly(es, now0);
      forall now | now <= T
        ensures Replay(map[], cap, Dump(es, now0), now) == MapOf(es)
      {
        ReplayDump(es, cap, now0, now);
      }
    }
  }

  /** A client-set negative deadline (never expiring, but reported as TTL 0) is lost by compaction. */
  lemma NegativeDeadlineIsLost()
    ensures var e := Entry([97], PStr([98]), -5, 1);
            && StorableEntry(e)
            && !Mirrors(Dump([e], 0), MapOf([e]), 0, 0)
            && Dumped(map[], [e], 0) == map[[97] := Item(Str([98]), 0)]
  {
    var e := Entry([97], PStr([98]), -5, 1);
    DumpMirrors([e], 0, 0, 0);
    assert Dumped(map[], [e], 0) == Dumped(map[[97] := DumpedItem(e)], [], 0);
    assert !CarriedOver([e][0], 0);
    hide Dump, Mirrors;
  }

  // ----- Runs of commands, compactions and restarts -----

  datatype MergeOutcome =
    | Merged
    | TempFileLost      // the temporary file cannot be opened or extended
    | RenameFailed      // the old file stays, already closed: logging stops
    | ReopenFailed      // the new file is in place but cannot be opened: logging stops

  /** `es` in BgRewrite is the layout the forked child finds the table in. */
  datatype Event =
    | Command(op: Op, env: Env)
    | BgRewrite(es: seq<Entry>, now: int)
    | Merge(outcome: MergeOutcome)
    | Discard
    | Restart(now: int)

  /** kv_bgrewriteaof asks for a log path, not for an open log. */
  predicate Starts(db: Db) {
    db.log != NoLog && db.rewrite.None?
  }

  function Next(db: Db, ev: Event): Db {
    match ev
    case Command(op, env) => Step(db, op, env).db
    case BgRewrite(es, now) => if Starts(db) then db.(rewrite := Some(Rewrite(Dump(es, now), []))) else db
    case Merge(outcome) =>
      if db.log == NoLog || db.rewrite.None? then db
      else
        var merged := db.rewrite.value.dump + db.rewrite.value.buf;
        (match outcome
         case Merged => db.(log := Appending(merged), rewrite := None)
         case TempFileLost => db.(rewrite := None)
         case RenameFailed => db.(log := Detached(db.log.file), rewrite := None)
         case ReopenFailed => db.(log := Detached(merged), rewrite := None))
    case Discard => db.(rewrite := None)
    case Restart(now) =>
      if db.log == NoLog then db.(items := map[], rewrite := None)
      else db.(items := Replay(map[], db.cap, db.log.file, now), log := Appending(db.log.file), rewrite := None)
  }

  /** Events that can happen in `db` before time `T`: well-typed commands that set no
      deadline inside the period, and forks of the table as it is. */
  predicate Possible(db: Db, ev: Event, T: int) {
    match ev
    case Command(op, env) => WellTyped(op) && Timely(op, T) && env.now <= T
    case BgRewrite(es, now) => now <= T && Unique(es) && MapOf(es) == db.items
    case Restart(now) => now <= T
    case _ => true
  }

  /** The exact condition on an event for the files to stay faithful.  While the log is detached
      only a command that changes nothing is safe. */
  predicate Safe(db: Db, ev: Event) {
    match ev
    case Command(op, env) =>
      && (if db.log.Appending? then Durable(db, op, env) else Idle(db.items, db.cap, op, env))
      && (db.rewrite.Some? ==> Bufferable(db, op, env))
    case BgRewrite(es, now) => Starts(db) ==> forall k | k in db.items :: db.items[k].deadline >= 0
    case _ => true
  }

  /** The file on disk, open or not, and the compaction in progress if any, both replay to the
      live map. */
  ghost predicate Recoverable(db: Db, T: int) {
    && Fresh(db.items, T)
    && WithinCap(db)
    && db.log != NoLog && Mirrors(db.log.file, db.items, db.cap, T)
    && (db.rewrite.Some? ==> Mirrors(db.rewrite.value.dump + db.rewrite.value.buf, db.items, db.cap, T))
  }

  /** A file mirrors one map only, so without a log a command must leave the map alone. */
  lemma DetachedStep(db: Db, op: Op, env: Env, T: int)
    requires db.log.Detached? && Mirrors(db.log.file, db.items, db.cap, T)
    requires Fresh(db.items, T) && env.now <= T
    ensures var next := Step(db, op, env).db;
            && next.log == db.log
            && (Mirrors(next.log.file, next.items, db.cap, T) <==> Idle(db.items, db.cap, op, env))
  {
    hide Apply, Recs, Idle, Fresh, Replay, AppendRewrite;
    FetchFresh(db.items, op.key, T, env.now);
    IdleGuard(db.items, db.cap, op, env);
    assert Replay(map[], db.cap, db.log.file, T) == db.items;
  }

  lemma CommandEvent(db: Db, op: Op, env: Env, T: int)
    requires Recoverable(db, T) && Possible(db, Command(op, env), T)
    ensures Recoverable(Step(db, op, env).db, T) <==> Safe(db, Command(op, env))
  {
    StepKeepsFresh(db, op, env, T);
    StepKeepsCap(db, op, env);
    StepKeepsShape(db, op, env);
    hide Step, Durable, Bufferable, Idle, Mirrors, Fresh, WithinCap, WellTyped, Timely;
    if db.log.Appending? {
      LogStep(db, op, env, T);
    } else {
      DetachedStep(db, op, env, T);
    }
    if db.rewrite.Some? {
      RewriteStep(db, op, env, T);
    }
  }

  lemma StepKeepsShape(db: Db, op: Op, env: Env)
    ensures var next := Step(db, op, env).db;
            && next.cap == db.cap && (next.log == NoLog <==> db.log == NoLog)
            && next.rewrite.Some? == db.rewrite.Some?
  {
    hide Apply, Recs, Refused, Format, FormatAll;
  }

  /** The dump of a table that a log replays to is complete exactly when no deadline is negative. */
  lemma ForkDump(m: Items, es: seq<Entry>, cap: nat, now: int, T: int)
    requires Unique(es) && MapOf(es) == m && AllReplayed(m) && Fresh(m, T) && now <= T && (cap > 0 ==> |m| <= cap)
    ensures Mirrors(Dump(es, now), m, cap, T) <==> forall k | k in m :: m[k].deadline >= 0
  {
    hide Mirrors, StorableEntry, LoggableEntry, HasContent, Dump;
    MapOfSpec(es);
    MapOfSize(es);
    forall e | e in es
      ensures StorableEntry(e) && LoggableEntry(e) && HasContent(e) && !Expired(ItemOf(e), now)
      ensures e.key in m && m[e.key].deadline == e.deadline
    {
      ForkEntry(m, es, e, T);
    }
    DumpMirrors(es, cap, now, T);
    forall k | k in m
      ensures exists e :: e in es && e.key == k && m[k].deadline == e.deadline
    {
      var e :| e in es && e.key == k;
    }
  }

  lemma ForkEntry(m: Items, es: seq<Entry>, e: Entry, T: int)
    requires Unique(es) && MapOf(es) == m && AllReplayed(m) && Fresh(m, T) && e in es
    ensures StorableEntry(e) && LoggableEntry(e) && HasContent(e) && !Expired(ItemOf(e), T)
    ensures e.key in m && m[e.key] == ItemOf(e)
  {
    MapOfSpec(es);
    ReplayedEntry(es, e);
    assert Replayed(e.key, m[e.key]) && !Expired(m[e.key], T);
  }

  lemma ForkEvent(db: Db, es: seq<Entry>, now: int, T: int)
    requires Recoverable(db, T) && Possible(db, BgRewrite(es, now), T)
    ensures Recoverable(Next(db, BgRewrite(es, now)), T) <==> Safe(db, BgRewrite(es, now))
  {
    hide Mirrors, Dump, Fresh;
    if Starts(db) {
      MirrorReplayed(db.log.file, db.items, db.cap, T);
      ForkDump(db.items, es, db.cap, now, T);
      assert Dump(es, now) + [] == Dump(es, now);
    }
  }

  /** Every possible event keeps the store recoverable if and only if it is safe. */
  lemma EventKeepsRecoverable(db: Db, ev: Event, T: int)
    requires Recoverable(db, T) && Possible(db, ev, T)
    ensures Recoverable(Next(db, ev), T) <==> Safe(db, ev)
  {
    match ev {
      case Command(op, env) => CommandEvent(db, op, env, T);
      case BgRewrite(es, now) => ForkEvent(db, es, now, T);
      case _ =>
        hide Replay, Fresh;
    }
  }

  function Run(db: Db, evs: seq<Event>): Db
    decreases |evs|
  {
    if evs == [] then db else Run(Next(db, evs[0]), evs[1..])
  }

  predicate SafeRun(db: Db, evs: seq<Event>, T: int)
    decreases |evs|
  {
    evs == [] ||
    (Possible(db, evs[0], T) && Safe(db, evs[0]) && SafeRun(Next(db, evs[0]), evs[1..], T))
  }

  /** Whole runs, with any number of compactions, failed merges and restarts in between:
      replaying the log on disk rebuilds the live map, lists in order and deadlines included. */
  lemma {:induction false} RunRecoverable(db: Db, evs: seq<Event>, T: int)
    requires Recoverable(db, T) && SafeRun(db, evs, T)
    ensures Recoverable(Run(db, evs), T)
    decreases |evs|
  {
    hide Recoverable, Possible, Safe, Next;
    if evs != [] {
      EventKeepsRecoverable(db, evs[0], T);
      RunRecoverable(Next(db, evs[0]), evs[1..], T);
    }
  }

  /** Compaction preserves meaning: in any state of a safe run with a compaction under way, the
      compact file, the file on disk and the live map agree. */
  lemma CompactionPreservesMeaning(db: Db, evs: seq<Event>, T: int, now: int)
    requires Recoverable(db, T) && SafeRun(db, evs, T) && now <= T
    requires Run(db, evs).rewrite.Some?
    ensures var end := Run(db, evs);
            var compact := end.rewrite.value.dump + end.rewrite.value.buf;
            && Replay(map[], end.cap, compact, now) == end.items
            && end.log != NoLog && Replay(map[], end.cap, end.log.file, now) == end.items
  {
    RunRecoverable(db, evs, T);
    hide Run, Replay;
  }

  /** A store opened on an empty log is recoverable. */
  lemma EmptyRecoverable(cap: nat, T: int)
    ensures Recoverable(Db(map[], cap, Appending([]), None), T)
  {
  }

  // ----- A detached log loses writes, and a compaction repairs it -----

  /** The compaction under way replays to the live map, whatever the file on disk holds. */
  ghost predicate Compacting(db: Db, T: int) {
    && Fresh(db.items, T) && WithinCap(db) && db.log != NoLog && db.rewrite.Some?
    && Mirrors(db.rewrite.value.dump + db.rewrite.value.buf, db.items, db.cap, T)
  }

  /** A fork of any store with a log path, its log stale or detached, starts a faithful compaction
      if and only if every entry fits the dump's format. */
  lemma ForkStartsCompacting(db: Db, es: seq<Entry>, now: int, T: int)
    requires Fresh(db.items, T) && WithinCap(db) && Starts(db) && Possible(db, BgRewrite(es, now), T)
    requires forall e | e in es :: StorableEntry(e)
    ensures Compacting(Next(db, BgRewrite(es, now)), T)
            <==> forall e | e in es :: HasContent(e) && LoggableEntry(e) && e.deadline >= 0
  {
    MapOfSpec(es);
    MapOfSize(es);
    assert forall e | e in es :: !Expired(ItemOf(e), now) by {
      forall e | e in es
        ensures !Expired(ItemOf(e), now)
      {
        assert db.items[e.key] == ItemOf(e) && !Expired(db.items[e.key], T);
      }
    }
    hide Mirrors, StorableEntry, LoggableEntry, HasContent, Expired, Dump, Fresh, ItemOf;
    DumpMirrors(es, db.cap, now, T);
    assert Dump(es, now) + [] == Dump(es, now);
  }

  /** With or without an open log, commands keep the compaction faithful if and only if their
      records fit the format. */
  lemma CommandKeepsCompacting(db: Db, op: Op, env: Env, T: int)
    requires Compacting(db, T) && Possible(db, Command(op, env), T)
    ensures Compacting(Step(db, op, env).db, T) <==> Bufferable(db, op, env)
  {
    StepKeepsFresh(db, op, env, T);
    StepKeepsCap(db, op, env);
    StepKeepsShape(db, op, env);
    hide Step, Bufferable, Mirrors, Fresh, WithinCap, WellTyped, Timely;
    RewriteStep(db, op, env, T);
  }

  predicate BufferedRun(db: Db, cmds: seq<(Op, Env)>, T: int)
    decreases |cmds|
  {
    cmds == [] ||
    var (op, env) := cmds[0];
    && Possible(db, Command(op, env), T) && Bufferable(db, op, env)
    && BufferedRun(Step(db, op, env).db, cmds[1..], T)
  }

  /** Whatever the file on disk had come to, a faithful compaction, any commands that fit the
      format, and a merge whose rename succeeds make the store recoverable again. */
  lemma {:induction false} CompactionRepairs(db: Db, cmds: seq<(Op, Env)>, outcome: MergeOutcome, T: int)
    requires Compacting(db, T) && BufferedRun(db, cmds, T)
    requires outcome == Merged || outcome == ReopenFailed
    ensures Recoverable(Next(Run(db, Commands(cmds)), Merge(outcome)), T)
    decreases |cmds|
  {
    if cmds == [] {
      hide Mirrors, Fresh;
    } else {
      hide Compacting, Recoverable, Possible, Bufferable, Step, Next;
      var (op, env) := cmds[0];
      CommandKeepsCompacting(db, op, env, T);
      CompactionRepairs(Step(db, op, env).db, cmds[1..], outcome, T);
      RunCommand(db, cmds);
    }
  }

  /** A rename that fails leaves the old file and no open log: the SET that follows answers OK,
      and the restart after it does not bring the key back. */
  lemma DetachedLogLosesWrites()
    ensures var empty := Db(map[], 0, Appending([]), None);
            var detached := Run(empty, [BgRewrite([], 0), Merge(RenameFailed)]);
            var done := Step(detached, SetOp([97], [98]), ReplayEnv(0));
            && done.reply == Code(Ok) && done.db.items == map[[97] := Item(Str([98]), 0)]
            && Next(done.db, Restart(0)).items == map[]
  {
    var empty := Db(map[], 0, Appending([]), None);
    var forked, merge: Event := Next(empty, BgRewrite([], 0)), Merge(RenameFailed);
    var detached := Next(forked, merge);
    assert detached == Db(map[], 0, Detached([]), None);
    assert [BgRewrite([], 0), merge][1..] == [merge] && [merge][1..] == [];
    assert Run(forked, [merge]) == Run(detached, []);
    assert ValidateKey([97]) == Ok by { assert forall c: byte | c in [97] :: c == 97; }
  }

  // ----- The log is exactly the records of the successful commands -----

  function Logged(db: Db, op: Op, env: Env): seq<Rec> {
    var recs := Recs(op, Apply(db.items, db.cap, op, env));
    if !Refused(db, op, env) && recs != [] && Writable(recs[0], env) then [recs[0]] else []
  }

  function LoggedRun(db: Db, cmds: seq<(Op, Env)>): seq<Rec>
    decreases |cmds|
  {
    if cmds == [] then []
    else Logged(db, cmds[0].0, cmds[0].1) + LoggedRun(Step(db, cmds[0].0, cmds[0].1).db, cmds[1..])
  }

  function Commands(cmds: seq<(Op, Env)>): seq<Event> {
    if cmds == [] then [] else [Command(cmds[0].0, cmds[0].1)] + Commands(cmds[1..])
  }

  lemma FormatSingle(r: Rec)
    ensures FormatAll([r]) == Format(r)
  {
    hide Format;
    assert FormatAll([r]) == Format(r) + FormatAll([r][1..]);
  }

  lemma StepLog(db: Db, op: Op, env: Env)
    requires db.log.Appending?
    ensures Step(db, op, env).db.log == Appending(db.log.file + FormatAll(Logged(db, op, env)))
  {
    var recs := Recs(op, Apply(db.items, db.cap, op, env));
    hide Apply, Recs, Format, Refused;
    if recs != [] {
      FormatSingle(recs[0]);
    }
    assert FormatAll([]) == [] && db.log.file + [] == db.log.file;
    hide FormatAll;
  }

  lemma RunCommand(db: Db, cmds: seq<(Op, Env)>)
    requires cmds != []
    ensures Run(db, Commands(cmds)) == Run(Step(db, cmds[0].0, cmds[0].1).db, Commands(cmds[1..]))
  {
    hide Step, Dump, Replay;
    assert Commands(cmds)[1..] == Commands(cmds[1..]);
  }

  lemma AppendTwice(log: bytes, rs: seq<Rec>, ts: seq<Rec>)
    ensures log + FormatAll(rs) + FormatAll(ts) == log + FormatAll(rs + ts)
  {
    FormatAllAppend(rs, ts);
    hide FormatAll;
  }

  /** Failed SETs and DELETEs leave no trace; every other record is there, once and in order. */
  lemma {:induction false} LogIsSuccessfulRecords(db: Db, cmds: seq<(Op, Env)>)
    requires db.log.Appending?
    ensures Run(db, Commands(cmds)).log == Appending(db.log.file + FormatAll(LoggedRun(db, cmds)))
    decreases |cmds|
  {
    hide Logged, Step, Next, Format;
    if cmds == [] {
      assert db.log.file + [] == db.log.file;
    } else {
      hide FormatAll;
      var op, env := cmds[0].0, cmds[0].1;
      var next := Step(db, op, env).db;
      StepLog(db, op, env);
      RunCommand(db, cmds);
      hide Run, Commands;
      LogIsSuccessfulRecords(next, cmds[1..]);
      AppendTwice(db.log.file, Logged(db, op, env), LoggedRun(next, cmds[1..]));
      assert LoggedRun(db, cmds) == Logged(db, op, env) + LoggedRun(next, cmds[1..]);
    }
  }
}
