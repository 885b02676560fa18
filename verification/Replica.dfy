/** The replication stream (src/replication.c): what the master broadcasts for SET and
    DELETE, and the record-splitting loop of replica_thread_main that applies it. */
module Replica {
  import opened Common
  import opened Spec
  import opened LogText
  import opened Durability
  import opened Framing
  import opened Store

  const CMD_BUF_SIZE: nat := 4096

  // ----- The replica's side -----

  predicate StartsWith(s: bytes, p: bytes) {
    |s| >= |p| && s[..|p|] == p
  }

  const SET_TAB: bytes := [83, 69, 84, 9]
  const DELETE_TAB: bytes := [68, 69, 76, 69, 84, 69, 9]

  /** One line of the stream: only SET and DELETE with tabs are understood. */
  function ApplyCommand(m: Items, line: bytes): Items {
    if StartsWith(line, SET_TAB) then
      var rest := line[|SET_TAB|..];
      var tab := IndexOf(rest, TAB);
      if tab == |rest| then m else SetInternal(m, 0, rest[..tab], rest[tab + 1..], true).items
    else if StartsWith(line, DELETE_TAB) then DeleteInternal(m, line[|DELETE_TAB|..]).items
    else m
  }

  function ApplyLines(m: Items, lines: seq<bytes>): Items
    decreases |lines|
  {
    if lines == [] then m else ApplyLines(ApplyCommand(m, lines[0]), lines[1..])
  }

  /** The receive loop over a sequence of chunks, starting with `held` in cmdbuf. */
  function ApplyChunks(m: Items, held: bytes, chunks: seq<bytes>): Items
    decreases |chunks|
  {
    if chunks == [] then m
    else ApplyChunks(ApplyLines(m, Lines(held + chunks[0])), Tail(held + chunks[0]), chunks[1..])
  }

  lemma {:induction false} ApplyLinesAppend(m: Items, a: seq<bytes>, b: seq<bytes>)
    ensures ApplyLines(m, a + b) == ApplyLines(ApplyLines(m, a), b)
    decreases |a|
  {
    hide ApplyCommand;
    if a == [] {
      assert a + b == b;
    } else {
      assert (a + b)[1..] == a[1..] + b;
      ApplyLinesAppend(ApplyCommand(m, a[0]), a[1..], b);
    }
  }

  /** Applying a stream does not depend on how it was cut into chunks. */
  lemma {:induction false} ChunkingIrrelevant(m: Items, held: bytes, chunks: seq<bytes>)
    requires NL !in held
    ensures ApplyChunks(m, held, chunks) == ApplyLines(m, Lines(held + Join(chunks)))
    decreases |chunks|
  {
    hide ApplyCommand, Lines, Tail;
    if chunks == [] {
      assert held + [] == held;
      NoNewline(held);
    } else {
      var a, rest := held + chunks[0], Join(chunks[1..]);
      assert held + Join(chunks) == a + rest;
      SplitInTwo(a, rest);
      ChunkingIrrelevant(ApplyLines(m, Lines(a)), Tail(a), chunks[1..]);
      ApplyLinesAppend(m, Lines(a), Lines(Tail(a) + rest));
    }
  }

  // ----- The master's side -----

  predicate Streamed(op: Op) {
    op.SetOp? || op.DeleteOp?
  }

  predicate ValidArgs(op: Op)
    requires Streamed(op)
  {
    ValidateKey(op.key) == Ok && (op.SetOp? ==> ValidateValue(op.val) == Ok)
  }

  /** What a logging master broadcasts for a command: before it knows whether the command succeeds. */
  function Broadcast(op: Op): bytes {
    if Streamed(op) && ValidArgs(op) && |Format(RecordOf(op))| < RECORD_BUF then Format(RecordOf(op)) else []
  }

  type Call = (Op, Env)

  /** A command the stream can carry, in an environment without failures. */
  predicate Carried(call: Call) {
    var (op, env) := call;
    && Streamed(op) && WellTyped(op) && (op.SetOp? ==> NL !in op.val)
    && env.ioOk && env.entryOk
  }

  function Stream(calls: seq<Call>): bytes {
    if calls == [] then [] else Broadcast(calls[0].0) + Stream(calls[1..])
  }

  function MasterRun(db: Db, calls: seq<Call>): Db
    decreases |calls|
  {
    if calls == [] then db else MasterRun(Step(db, calls[0].0, calls[0].1).db, calls[1..])
  }

  /** The replica reads a broadcast record as the command the master ran. */
  lemma RecordReadBack(m: Items, op: Op)
    requires Streamed(op) && WellTyped(op) && ValidArgs(op)
    ensures ApplyCommand(m, Body(RecordOf(op)))
            == if op.SetOp? then SetInternal(m, 0, op.key, op.val, true).items
               else DeleteInternal(m, op.key).items
  {
    hide IndexOf, SetInternal, DeleteInternal;
    var line := Body(RecordOf(op));
    if op.SetOp? {
      var rest := op.key + ([TAB] + op.val);
      assert line[..4] == SET_TAB && line[4..] == rest;
      assert rest[..|op.key|] == op.key && rest[|op.key| + 1..] == op.val;
      IndexOfUnique(rest, TAB, |op.key|);
    } else {
      assert line[..7] == DELETE_TAB && line[7..] == op.key;
      assert line[0] == 68;
      assert SET_TAB[0] == 83 && (|line| >= 4 ==> line[..4][0] == 68);
    }
  }

  lemma OneLine(op: Op, rest: bytes)
    requires Streamed(op) && WellTyped(op) && ValidArgs(op) && (op.SetOp? ==> NL !in op.val)
    ensures var body := Body(RecordOf(op));
            && Lines(Format(RecordOf(op)) + rest) == [body] + Lines(rest)
            && Tail(Format(RecordOf(op)) + rest) == Tail(rest)
  {
    hide IndexOf, Lines, Tail;
    var body := Body(RecordOf(op));
    NoNewlineInBody(op);
    hide Body;
    var s := Format(RecordOf(op)) + rest;
    assert s[..|body|] == body && s[|body|] == NL && s[|body| + 1..] == rest;
    IndexOfUnique(s, NL, |body|);
    FirstLine(s);
  }

  lemma NoNewlineInBody(op: Op)
    requires Streamed(op) && ValidArgs(op) && (op.SetOp? ==> NL !in op.val)
    ensures NL !in Body(RecordOf(op))
  {
    assert forall c | c in op.key :: !IsSpace(c);
  }

  /** Nothing on the master's side stops the command: not the log write, nor the allocation, nor
      the capacity, which the replica does not have. */
  predicate GoesThrough(db: Db, op: Op, env: Env)
    requires Streamed(op)
  {
    env.ioOk && (op.SetOp? ==> env.entryOk && (op.key in db.items || !Full(db.items, db.cap)))
  }

  /** The replica finds nothing to do. */
  predicate Settled(m: Items, op: Op)
    requires Streamed(op)
  {
    if op.SetOp? then op.key in m && (!m[op.key].value.Str? || m[op.key].value == Str(op.val))
    else op.key !in m
  }

  /** One command, whatever happens to it on the master: what the replica makes of the broadcast is
      what the master did if and only if the command got through, or the replica had nothing to do. */
  lemma OneCallAgrees(db: Db, op: Op, env: Env)
    requires Streamed(op) && WellTyped(op) && db.log.Appending?
    ensures var next := Step(db, op, env).db;
            && next.log.Appending? && next.cap == db.cap
            && (Broadcast(op) == [] ==> next.items == db.items)
            && (Broadcast(op) != [] ==>
                  (next.items == ApplyCommand(db.items, Body(RecordOf(op)))
                   <==> GoesThrough(db, op, env) || Settled(db.items, op)))
  {
    if ValidArgs(op) {
      RecordReadBack(db.items, op);
    }
    hide ApplyCommand, Body, ValidateKey, ValidateValue;
    var m := db.items;
    assert op.key in m ==> m[op.key := m[op.key]] == m;
  }

  lemma {:induction false} StreamAgrees(db: Db, calls: seq<Call>)
    requires db.log.Appending? && db.cap == 0 && forall c | c in calls :: Carried(c)
    ensures ApplyLines(db.items, Lines(Stream(calls))) == MasterRun(db, calls).items
    ensures Tail(Stream(calls)) == []
    decreases |calls|
  {
    if calls == [] {
      NoNewline([]);
    } else {
      var op, env := calls[0].0, calls[0].1;
      assert Carried((op, env)) by { assert calls[0] in calls; }
      hide Lines, Tail, ApplyCommand, Step, Body, IndexOf;
      var next, rest := Step(db, op, env).db, Stream(calls[1..]);
      OneCallAgrees(db, op, env);
      StreamAgrees(next, calls[1..]);
      if Broadcast(op) == [] {
        assert [] + rest == rest;
      } else {
        OneLine(op, rest);
        var body := Body(RecordOf(op));
        assert ([body] + Lines(rest))[1..] == Lines(rest);
      }
    }
  }

  /** Convergence: a replica that starts equal to a logging, unbounded master has the master's map
      whenever it has received the records sent so far, plus any unfinished piece of the next one,
      in whatever chunks. */
  lemma ReplicaConverges(db: Db, calls: seq<Call>, chunks: seq<bytes>, partial: bytes)
    requires db.log.Appending? && db.cap == 0 && forall c | c in calls :: Carried(c)
    requires Join(chunks) == Stream(calls) + partial && NL !in partial
    ensures ApplyChunks(db.items, [], chunks) == MasterRun(db, calls).items
  {
    hide Lines, Tail, ApplyChunks, ApplyLines, Stream, MasterRun, Carried;
    var s := Stream(calls);
    ChunkingIrrelevant(db.items, [], chunks);
    assert [] + Join(chunks) == s + partial;
    StreamAgrees(db, calls);
    SplitInTwo(s, partial);
    assert [] + partial == partial;
    NoNewline(partial);
    assert Lines(s) + [] == Lines(s);
  }

  // ----- The receive window -----

  lemma {:induction false} RecordsFit(calls: seq<Call>)
    requires forall c | c in calls :: Carried(c)
    ensures forall l | l in Lines(Stream(calls)) :: |l| + 1 < RECORD_BUF
    ensures Tail(Stream(calls)) == []
    decreases |calls|
  {
    if calls == [] {
      NoNewline([]);
    } else {
      var op := calls[0].0;
      assert Carried(calls[0]);
      hide Lines, Tail, Body, IndexOf;
      var rest := Stream(calls[1..]);
      RecordsFit(calls[1..]);
      if Broadcast(op) == [] {
        assert [] + rest == rest;
      } else {
        OneLine(op, rest);
      }
    }
  }

  /** At every point of the stream the next recv is asked for at least one byte. */
  lemma WindowNeverCloses(calls: seq<Call>, got: bytes, later: bytes)
    requires forall c | c in calls :: Carried(c)
    requires got + later == Stream(calls)
    ensures CMD_BUF_SIZE - |Tail(got)| - 1 >= 1
  {
    hide Lines, Tail, Stream, Carried;
    RecordsFit(calls);
    TailExtends(got, later);
  }

  // ----- Broadcasting before the outcome is known -----

  /** A replica that has been told stays equal to the master if and only if the command got through
      there (log write, allocation and capacity), or had nothing to change on the replica. */
  lemma BroadcastAgreesIff(db: Db, op: Op, env: Env)
    requires Streamed(op) && WellTyped(op) && (op.SetOp? ==> NL !in op.val) && db.log.Appending?
    requires Broadcast(op) != []
    ensures ApplyLines(db.items, Lines(Broadcast(op))) == Step(db, op, env).db.items
            <==> GoesThrough(db, op, env) || Settled(db.items, op)
  {
    hide Step, ApplyCommand, Body, Lines, Tail, GoesThrough, Settled;
    OneCallAgrees(db, op, env);
    OneLine(op, []);
    NoNewline([]);
    assert Broadcast(op) + [] == Broadcast(op);
    assert [Body(RecordOf(op))] + [] == [Body(RecordOf(op))];
  }

  lemma SetIsStreamed(m: Items)
    ensures var op := SetOp([107], [118]);
            ApplyLines(m, Lines(Broadcast(op))) == SetInternal(m, 0, [107], [118], true).items
  {
    hide SetInternal, ApplyCommand, Body, Lines, Tail, IndexOf;
    var op := SetOp([107], [118]);
    assert ValidateKey(op.key) == Ok by { assert forall c | c in op.key :: c == 107; }
    assert |Format(RecordOf(op))| == 8 by { ShortRecord(); }
    RecordReadBack(m, op);
    OneLine(op, []);
    NoNewline([]);
    assert Broadcast(op) + [] == Broadcast(op);
    assert [Body(RecordOf(op))] + [] == [Body(RecordOf(op))];
  }

  lemma ShortRecord()
    ensures |Format(RecordOf(SetOp([107], [118])))| == 8
  {
  }

  /** The SET of `k` to `v` on a fresh master: told to the replica, refused by the master because
      the disk, the allocation or the capacity fails. */
  lemma FailedSetDiverges(env: Env, full: Db)
    requires !env.ioOk || !env.entryOk
    requires full == Db(map[[97] := Item(Str([97]), 0)], 1, Appending([]), None)
    ensures var empty, op := Db(map[], 0, Appending([]), None), SetOp([107], [118]);
            && Step(empty, op, env).db.items == map[]
            && ApplyLines(map[], Lines(Broadcast(op))) == map[[107] := Item(Str([118]), 0)]
            && Step(full, op, ReplayEnv(0)).db.items == full.items
            && ApplyLines(full.items, Lines(Broadcast(op))) != full.items
  {
    hide ApplyLines, Lines, Broadcast;
    SetIsStreamed(map[]);
    SetIsStreamed(full.items);
    assert ValidateKey([107]) == Ok by { assert forall c | c in [107] :: c == 107; }
    assert |full.items| == 1;
  }

  // ----- The loop in place -----

  /** cmdbuf and the store it feeds, as replica_thread_main sets them up. */
  class Receiver {
    const store: KvStore
    const cmdbuf: LineBuffer

    ghost predicate Valid()
      reads this, store, cmdbuf
    {
      && store.Valid() && store.budget == 0 && store.maxCapacity == 0 && store.rewrite.None?
      && cmdbuf.Valid() && cmdbuf.data.Length == CMD_BUF_SIZE && cmdbuf.len < CMD_BUF_SIZE
    }

    constructor (store: KvStore)
      requires store.Valid() && store.budget == 0 && store.maxCapacity == 0 && store.rewrite.None?
      ensures Valid() && this.store == store && fresh(cmdbuf) && fresh(cmdbuf.data) && cmdbuf.Contents() == []
    {
      this.store := store;
      cmdbuf := new LineBuffer(CMD_BUF_SIZE);
    }

    /** The body of the record loop. */
    method ApplyRecord(line: bytes)
      requires Valid() && CString(line) && store.clock + 1 < UINT64_MAX
      modifies store`buckets, store`size, store`allocBytes, store`peakBytes, store`clock, store`rewrite, store`drawn
      ensures Valid() && store.clock <= old(store.clock) + 1
      ensures store.Items() == ApplyCommand(old(store.Items()), line)
    {
      hide KvStore.Valid, KvStore.Items, SetInternal, DeleteInternal, IndexOf, FormatAll;
      if StartsWith(line, SET_TAB) {
        var rest := line[|SET_TAB|..];
        var tab := IndexOf(rest, TAB);
        if tab < |rest| {
          var st, gone := store.SetInternal(rest[..tab], rest[tab + 1..], true);
        }
      } else if StartsWith(line, DELETE_TAB) {
        var st := store.DeleteInternal(line[|DELETE_TAB|..]);
      }
    }

    /** One recv of at most sizeof(cmdbuf) - cmdlen - 1 bytes, and the records it completes. */
    method Receive(chunk: bytes)
      requires Valid() && |chunk| <= CMD_BUF_SIZE - cmdbuf.len - 1
      requires CString(cmdbuf.Contents()) && CString(chunk) && store.clock + CMD_BUF_SIZE < UINT64_MAX
      modifies store`buckets, store`size, store`allocBytes, store`peakBytes, store`clock, store`rewrite, store`drawn
      modifies cmdbuf`len, cmdbuf.data
      ensures Valid() && CString(cmdbuf.Contents())
      ensures store.Items() == ApplyLines(old(store.Items()), Lines(old(cmdbuf.Contents()) + chunk))
      ensures cmdbuf.Contents() == Tail(old(cmdbuf.Contents()) + chunk)
    {
      hide KvStore.Valid, KvStore.Items, IndexOf, Lines, Tail, ApplyCommand;
      cmdbuf.Receive(chunk);
      var p := ApplyRecords();
      cmdbuf.Consume(p);
    }

    /** Applies the complete records in the buffer and reports how far it got. */
    method ApplyRecords() returns (p: nat)
      requires Valid() && CString(cmdbuf.Contents()) && store.clock + cmdbuf.len < UINT64_MAX
      modifies store`buckets, store`size, store`allocBytes, store`peakBytes, store`clock, store`rewrite, store`drawn
      ensures Valid() && p <= cmdbuf.len
      ensures store.Items() == ApplyLines(old(store.Items()), Lines(cmdbuf.Contents()))
      ensures cmdbuf.Contents()[p..] == Tail(cmdbuf.Contents())
    {
      hide KvStore.Valid, KvStore.Items, IndexOf, Lines, Tail, ApplyCommand;
      var s := cmdbuf.data[..cmdbuf.len];
      p := 0;
      assert s[0..] == s;
      while true
        invariant Valid() && p <= |s|
        invariant store.clock <= old(store.clock) + p
        invariant ApplyLines(store.Items(), Lines(s[p..])) == ApplyLines(old(store.Items()), Lines(s))
        invariant Tail(s[p..]) == Tail(s)
        decreases |s| - p
      {
        var nl := cmdbuf.FindNewline(p);
        if nl == |s| {
          LastPiece(s[p..]);
          return;
        }
        FirstLine(s[p..]);
        var line := s[p..nl];
        assert s[p..][..nl - p] == line && s[p..][nl - p + 1..] == s[nl + 1..];
        assert ([line] + Lines(s[nl + 1..]))[1..] == Lines(s[nl + 1..]);
        ApplyRecord(line);
        p := nl + 1;
      }
    }
  }
}
