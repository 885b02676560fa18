/** What a client can rely on: the answers of the reading commands, told from the writing commands
    that went before and from what those answered. */
module Laws {
  import opened Common
  import opened Spec
  import opened LogText
  import opened Durability
  import opened Queues
  import opened Snapshot

  /** Every question a client can ask about one key, with the answers. */
  datatype Seen = Seen(get: Reply, there: Reply, llen: Reply, scard: Reply, smembers: Reply, pttl: Reply)

  function Look(m: Items, cap: nat, key: bytes, env: Env): Seen {
    Seen(Apply(m, cap, GetOp(key), env).reply, Apply(m, cap, ExistsOp(key), env).reply,
         Apply(m, cap, LLenOp(key), env).reply, Apply(m, cap, SCardOp(key), env).reply,
         Apply(m, cap, SMembersOp(key), env).reply, Apply(m, cap, PTtlOp(key), env).reply)
  }

  const ABSENT: Seen := Seen(Nil, Int(0), Int(0), Int(0), Nil, Int(-2))

  /** PTTL of a key with this deadline, when it has not passed. */
  function TimeLeft(deadline: int, env: Env): Reply {
    if deadline == 0 then Int(-1) else if deadline > env.later then Int(deadline - env.later) else Int(0)
  }

  predicate Passed(deadline: int, env: Env) {
    0 < deadline <= env.now
  }

  function Live(m: Items, key: bytes, now: int): Option<Item> {
    if key in m && !Expired(m[key], now) then Some(m[key]) else None
  }

  /** The answers about a live entry, or about none. */
  function Show(it: Option<Item>, at: Env): Seen {
    if it.None? then ABSENT
    else
      var left := TimeLeft(it.value.deadline, at);
      match it.value.value
      case Str(s) => Seen(Bulk(s), Int(1), Code(WrongType), Code(WrongType), Nil, left)
      case List(items) => Seen(Nil, Int(1), Int(|items|), Code(WrongType), Nil, left)
      case Set(s) =>
        Seen(Nil, Int(1), Code(WrongType), Int(|s|), if s == {} || !at.nodeOk then Nil else Members(s), left)
  }

  lemma LookShows(m: Items, cap: nat, key: bytes, at: Env)
    ensures Look(m, cap, key, at) == Show(Live(m, key, at.now), at)
  {
  }

  predicate Reads(op: Op) {
    op.GetOp? || op.ExistsOp? || op.LLenOp? || op.SCardOp? || op.SMembersOp? || op.PTtlOp?
  }

  /** A command changes no answer about another key. */
  lemma OtherKeysUntouched(m: Items, cap: nat, op: Op, env: Env, key: bytes, at: Env)
    requires op.key != key
    ensures Look(Apply(m, cap, op, env).items, cap, key, at) == Look(m, cap, key, at)
  {
    hide Apply, Look, Show;
    OtherKey(m, cap, op, env, key);
    LookShows(m, cap, key, at);
    LookShows(Apply(m, cap, op, env).items, cap, key, at);
  }

  /** A reading command changes no later answer about any key. */
  lemma ReadingChangesNothing(m: Items, cap: nat, op: Op, env: Env, key: bytes, at: Env)
    requires Reads(op) && env.now <= at.now
    ensures Look(Apply(m, cap, op, env).items, cap, key, at) == Look(m, cap, key, at)
  {
    assert Apply(m, cap, op, env).items == Fetch(m, op.key, env.now);
    hide Apply, Look;
    LookFetched(m, cap, op.key, env.now, key, at);
  }

  lemma LookFetched(m: Items, cap: nat, k: bytes, now: int, key: bytes, at: Env)
    requires now <= at.now
    ensures Look(Fetch(m, k, now), cap, key, at) == Look(m, cap, key, at)
  {
    hide Look, Show;
    LookShows(m, cap, key, at);
    LookShows(Fetch(m, k, now), cap, key, at);
  }

  /** SET answers OK exactly if the arguments are valid, the key is new and there is room, or holds a
      string, and the allocation succeeds.  GET then answers the value, and the deadline is the old one,
      also where it has passed. */
  lemma SetThenLook(m: Items, cap: nat, key: bytes, val: bytes, env: Env, at: Env)
    ensures var out := Apply(m, cap, SetOp(key, val), env);
            && (out.reply == Code(Ok)
                <==> && 1 <= |key| <= 256 && (forall c | c in key :: c != 32 && !(9 <= c <= 13)) && |val| <= 4096
                     && env.entryOk && (if key in m then m[key].value.Str? else cap == 0 || |m| < cap))
            && (out.reply == Code(Ok) ==>
                  var deadline := if key in m then m[key].deadline else 0;
                  Look(out.items, cap, key, at)
                  == if Passed(deadline, at) then ABSENT
                     else Seen(Bulk(val), Int(1), Code(WrongType), Code(WrongType), Nil, TimeLeft(deadline, at)))
            && (out.reply != Code(Ok) ==> out.items == m)
  {
    hide Look;
    LookShows(m, cap, key, at);
    LookShows(Apply(m, cap, SetOp(key, val), env).items, cap, key, at);
  }

  /** What SET answers when it fails, in the order of its tests. */
  lemma SetRefusals(m: Items, cap: nat, key: bytes, val: bytes, env: Env)
    ensures var r := Apply(m, cap, SetOp(key, val), env).reply;
            && (r == Code(EmptyKey) <==> key == [])
            && (r == Code(KeyTooLong) <==> |key| > 256)
            && (r == Code(KeyWhitespace) <==> 1 <= |key| <= 256 && exists c :: c in key && (c == 32 || 9 <= c <= 13))
            && (r == Code(ValTooLong) <==> ValidateKey(key) == Ok && |val| > 4096)
            && (r == Code(WrongType) <==> GoodArgs(key, val) && key in m && !m[key].value.Str?)
            && (r == Code(CapacityFull) <==> GoodArgs(key, val) && key !in m && 0 < cap <= |m|)
  {
  }

  /** DELETE answers OK exactly if the key is there, live or not, and leaves nothing of it. */
  lemma DeleteThenLook(m: Items, cap: nat, key: bytes, env: Env, at: Env)
    ensures var out := Apply(m, cap, DeleteOp(key), env);
            && (out.reply == Code(Ok) <==> ValidateKey(key) == Ok && key in m)
            && (out.reply == Code(Ok) ==> Look(out.items, cap, key, at) == ABSENT)
            && (out.reply != Code(Ok) ==> out.items == m)
  {
    hide Look;
    LookShows(m, cap, key, at);
    LookShows(Apply(m, cap, DeleteOp(key), env).items, cap, key, at);
  }

  /** The deadline LPUSH, SADD, RPOP and SREM leave a key with. */
  function Deadline(m: Items, key: bytes, now: int): int {
    if key in m && !Expired(m[key], now) then m[key].deadline else 0
  }

  /** LPUSH answers the length LLEN then answers, one more than before, and nothing else changes. */
  lemma LPushThenLook(m: Items, cap: nat, key: bytes, val: bytes, env: Env, at: Env)
    ensures var out, d := Apply(m, cap, LPushOp(key, val), env), Deadline(m, key, env.now);
            out.reply.Int? ==>
              && Apply(m, cap, LLenOp(key), env).reply == Int(out.reply.n - 1)
              && Look(out.items, cap, key, at)
                 == if Passed(d, at) then ABSENT
                    else Seen(Nil, Int(1), out.reply, Code(WrongType), Nil, TimeLeft(d, at))
  {
    hide Look, ValidateKey, ValidateValue, Full;
    LookShows(m, cap, key, at);
    LookShows(Apply(m, cap, LPushOp(key, val), env).items, cap, key, at);
  }

  /** What LPUSH and SADD answer when they fail. */
  lemma PushRefusals(m: Items, cap: nat, key: bytes, val: bytes, env: Env)
    requires GoodArgs(key, val)
    ensures var it, f := Live(m, key, env.now), Fetch(m, key, env.now);
            var r, r' := Apply(m, cap, LPushOp(key, val), env).reply, Apply(m, cap, SAddOp(key, val), env).reply;
            && (r == Code(WrongType) <==> it.Some? && !it.value.value.List?)
            && (r' == Code(WrongType) <==> it.Some? && !it.value.value.Set?)
            && (r == Code(CapacityFull) <==> it.None? && 0 < cap <= |f|)
            && (r' == Code(CapacityFull) <==> it.None? && 0 < cap <= |f|)
            && (it.None? && !(0 < cap <= |f|) ==>
                  && r == (if env.entryOk && env.nodeOk then Int(1) else Code(Internal))
                  && r' == (if env.entryOk && env.nodeOk then Int(1) else Code(Internal)))
            && (it.Some? && it.value.value.List? ==> (r.Int? <==> env.nodeOk) && (r == Code(Internal) <==> !env.nodeOk))
  {
    hide ValidateKey, ValidateValue;
  }

  /** RPOP takes one from LLEN; the key goes with the last element. */
  lemma RPopThenLook(m: Items, cap: nat, key: bytes, env: Env, at: Env)
    ensures var out, d := Apply(m, cap, RPopOp(key), env), Deadline(m, key, env.now);
            var before := Apply(m, cap, LLenOp(key), env).reply;
            && (out.reply.Bulk? ==>
                  && before.Int? && before.n >= 1
                  && Look(out.items, cap, key, at)
                     == if before.n == 1 || Passed(d, at) then ABSENT
                        else Seen(Nil, Int(1), Int(before.n - 1), Code(WrongType), Nil, TimeLeft(d, at)))
            && (!out.reply.Bulk? && env.now <= at.now ==> Look(out.items, cap, key, at) == Look(m, cap, key, at))
  {
    hide Look;
    LookShows(m, cap, key, at);
    LookShows(Apply(m, cap, RPopOp(key), env).items, cap, key, at);
  }

  /** The set SMEMBERS would answer if its allocation succeeds. */
  function MembersOf(m: Items, key: bytes, now: int): set<bytes> {
    if key in m && !Expired(m[key], now) && m[key].value.Set? then m[key].value.members else {}
  }

  /** SMEMBERS and SCARD tell the same set. */
  lemma MembersCounted(m: Items, cap: nat, key: bytes, env: Env)
    ensures var s := MembersOf(m, key, env.now);
            && (Apply(m, cap, SMembersOp(key), env).reply == if s == {} || !env.nodeOk then Nil else Members(s))
            && (Apply(m, cap, SCardOp(key), env).reply.Int? ==> Apply(m, cap, SCardOp(key), env).reply == Int(|s|))
  {
  }

  /** SADD answers 1 and adds the value, or 0 if it is a member already. */
  lemma SAddThenLook(m: Items, cap: nat, key: bytes, val: bytes, env: Env, at: Env)
    ensures var out, d := Apply(m, cap, SAddOp(key, val), env), Deadline(m, key, env.now);
            var s := MembersOf(m, key, env.now);
            && (out.reply.Int? ==>
                  && out.reply == Int(if val in s then 0 else 1)
                  && Look(out.items, cap, key, at)
                     == if Passed(d, at) then ABSENT
                        else Seen(Nil, Int(1), Code(WrongType), Int(|s + {val}|),
                                  if at.nodeOk then Members(s + {val}) else Nil, TimeLeft(d, at)))
  {
    hide Look, ValidateKey, ValidateValue, Full;
    LookShows(m, cap, key, at);
    LookShows(Apply(m, cap, SAddOp(key, val), env).items, cap, key, at);
    var s := MembersOf(m, key, env.now);
    assert val in s ==> s + {val} == s;
  }

  /** SREM answers 1 and takes the value out, the key going with the last member, or 0. */
  lemma SRemThenLook(m: Items, cap: nat, key: bytes, val: bytes, env: Env, at: Env)
    ensures var out, d := Apply(m, cap, SRemOp(key, val), env), Deadline(m, key, env.now);
            var s := MembersOf(m, key, env.now);
            && (out.reply == Int(1) <==> val in s)
            && (out.reply == Int(1) ==>
                  Look(out.items, cap, key, at)
                  == if s - {val} == {} || Passed(d, at) then ABSENT
                     else Seen(Nil, Int(1), Code(WrongType), Int(|s - {val}|),
                               if at.nodeOk then Members(s - {val}) else Nil, TimeLeft(d, at)))
            && (out.reply != Int(1) && env.now <= at.now ==> Look(out.items, cap, key, at) == Look(m, cap, key, at))
  {
    hide Look;
    LookShows(m, cap, key, at);
    LookShows(Apply(m, cap, SRemOp(key, val), env).items, cap, key, at);
    var s := MembersOf(m, key, env.now);
    assert val in s ==> (s == {val} <==> s - {val} == {});
  }

  /** PEXPIREAT answers whether the key is live, and then PTTL counts down to the deadline it set, the
      other answers staying until then. */
  lemma PExpireAtThenLook(m: Items, cap: nat, key: bytes, deadline: int, env: Env, at: Env)
    requires env.now <= at.now
    ensures var out := Apply(m, cap, PExpireAtOp(key, deadline), env);
            && out.reply == Apply(m, cap, ExistsOp(key), env).reply
            && (out.reply == Int(1) ==>
                  if Passed(deadline, at) then Look(out.items, cap, key, at) == ABSENT
                  else Look(out.items, cap, key, at)
                       == Look(m, cap, key, at.(now := env.now)).(pttl := TimeLeft(deadline, at)))
            && (out.reply == Int(0) ==> Look(out.items, cap, key, at) == ABSENT)
  {
    hide Look;
    LookShows(m, cap, key, at);
    LookShows(Apply(m, cap, PExpireAtOp(key, deadline), env).items, cap, key, at);
    LookShows(m, cap, key, at.(now := env.now));
  }

  /** PERSIST answers 1 exactly if there was a deadline to clear. */
  lemma PersistThenLook(m: Items, cap: nat, key: bytes, env: Env, at: Env)
    requires env.now <= at.now
    ensures var out := Apply(m, cap, PersistOp(key), env);
            && (out.reply == Int(1) <==> key in m && !Passed(m[key].deadline, env) && m[key].deadline != 0)
            && (out.reply == Int(1) ==>
                  Look(out.items, cap, key, at) == Look(m, cap, key, at.(now := env.now)).(pttl := Int(-1)))
            && (out.reply != Int(1) ==> Look(out.items, cap, key, at) == Look(m, cap, key, at))
  {
    hide Look;
    LookShows(m, cap, key, at);
    LookShows(Apply(m, cap, PersistOp(key), env).items, cap, key, at);
    LookShows(m, cap, key, at.(now := env.now));
  }

  // ----- Whole runs -----

  /** The call wrote or removed the string under `key`. */
  predicate Overwrites(op: Op, reply: Reply, key: bytes) {
    op.key == key && (op.SetOp? || op.DeleteOp?) && reply == Code(Ok)
  }

  ghost predicate NoOverwrite(m: Items, cap: nat, calls: seq<Call>, key: bytes)
    decreases |calls|
  {
    calls == [] || (var out := Apply(m, cap, calls[0].0, calls[0].1);
                    !Overwrites(calls[0].0, out.reply, key) && NoOverwrite(out.items, cap, calls[1..], key))
  }

  predicate Before(calls: seq<Call>, T: int) {
    forall c | c in calls :: c.1.now <= T && Timely(c.0, T)
  }

  /** Over any run of any commands, failing or not: a string is what the last SET that answered OK
      wrote, until a DELETE answers OK or its deadline passes. */
  lemma {:induction false} LastSetWins(m: Items, cap: nat, calls: seq<Call>, key: bytes, val: bytes, at: Env)
    requires key in m && m[key].value == Str(val) && !Passed(m[key].deadline, at)
    requires NoOverwrite(m, cap, calls, key) && Before(calls, at.now)
    ensures Apply(Run(m, cap, calls), cap, GetOp(key), at).reply == Bulk(val)
    decreases |calls|
  {
    if calls != [] {
      assert calls[0] in calls;
      var op, env := calls[0].0, calls[0].1;
      StringStays(m, cap, op, env, key, val, at);
      hide Apply;
      LastSetWins(Apply(m, cap, op, env).items, cap, calls[1..], key, val, at);
    }
  }

  lemma StringStays(m: Items, cap: nat, op: Op, env: Env, key: bytes, val: bytes, at: Env)
    requires key in m && m[key].value == Str(val) && !Passed(m[key].deadline, at)
    requires env.now <= at.now && Timely(op, at.now) && !Overwrites(op, Apply(m, cap, op, env).reply, key)
    ensures var m' := Apply(m, cap, op, env).items;
            key in m' && m'[key].value == Str(val) && !Passed(m'[key].deadline, at)
  {
    hide ValidateKey, ValidateValue, Full;
    if op.key != key {
      OtherKey(m, cap, op, env, key);
    }
  }

  /** LLEN is what it was, plus the pushes that answered, minus the pops that answered. */
  lemma LengthIsPushesMinusPops(m: Items, cap: nat, calls: seq<Call>, key: bytes, env: Env)
    requires IsQueue(m, key) && forall c | c in calls :: QueueOp(c.0, key)
    ensures Apply(Run(m, cap, calls), cap, LLenOp(key), env).reply
            == Int(|Contents(m, key)| + |AllPushed(m, cap, calls, key)| - |AllPopped(m, cap, calls, key)|)
  {
    FirstInFirstOut(m, cap, calls, key);
    hide Run, AllPushed, AllPopped, Reverse;
    ReverseLength(Contents(m, key));
    ReverseLength(Contents(Run(m, cap, calls), key));
  }

  lemma {:induction false} ReverseLength(vs: seq<bytes>)
    ensures |Reverse(vs)| == |vs|
  {
    if vs != [] {
      ReverseLength(vs[1..]);
    }
  }

  predicate IsSet(m: Items, key: bytes) {
    key in m ==> m[key].value.Set? && m[key].deadline == 0
  }

  /** The command adds to or removes from the set, reads it, or is about another key. */
  predicate SetCommand(op: Op, key: bytes) {
    op.key == key ==> op.SAddOp? || op.SRemOp? || Reads(op)
  }

  /** Whether `val` is a member in the end, told from the answers: by the last SADD or SREM of it that
      answered anything else than an error, and as before if there was none. */
  ghost predicate MemberByHistory(m: Items, cap: nat, calls: seq<Call>, key: bytes, val: bytes, first: bool)
    decreases |calls|
  {
    if calls == [] then first
    else
      var op, out := calls[0].0, Apply(m, cap, calls[0].0, calls[0].1);
      var now := if (op.SAddOp? || op.SRemOp?) && op.key == key && op.val == val && out.reply.Int?
                 then op.SAddOp? else first;
      MemberByHistory(out.items, cap, calls[1..], key, val, now)
  }

  lemma {:induction false} MembersByHistory(m: Items, cap: nat, calls: seq<Call>, key: bytes, val: bytes, env: Env)
    requires IsSet(m, key) && forall c | c in calls :: SetCommand(c.0, key)
    ensures val in MembersOf(Run(m, cap, calls), key, env.now)
            <==> MemberByHistory(m, cap, calls, key, val, val in MembersOf(m, key, env.now))
    decreases |calls|
  {
    if calls != [] {
      assert calls[0] in calls;
      var op, e := calls[0].0, calls[0].1;
      SetStays(m, cap, op, e, key, val);
      assert IsSet(m, key) ==> forall t :: MembersOf(m, key, t) == MembersOf(m, key, 0);
      assert forall t :: MembersOf(Apply(m, cap, op, e).items, key, t) == MembersOf(Apply(m, cap, op, e).items, key, 0);
      hide Apply, MembersOf, IsSet;
      MembersByHistory(Apply(m, cap, op, e).items, cap, calls[1..], key, val, env);
    }
  }

  lemma SetStays(m: Items, cap: nat, op: Op, env: Env, key: bytes, val: bytes)
    requires IsSet(m, key) && SetCommand(op, key)
    ensures var out := Apply(m, cap, op, env);
            && IsSet(out.items, key)
            && (val in MembersOf(out.items, key, 0)
                <==> if (op.SAddOp? || op.SRemOp?) && op.key == key && op.val == val && out.reply.Int?
                     then op.SAddOp? else val in MembersOf(m, key, 0))
  {
    hide ValidateKey, ValidateValue, Full;
    if op.key != key {
      OtherKey(m, cap, op, env, key);
    }
  }

  // ----- The log file -----

  /** The text of every record. */
  lemma RecordText(key: bytes, arg: bytes)
    ensures Format(Rec(SET, key, arg)) == [83, 69, 84, 9] + key + [9] + arg + [10]
    ensures Format(Rec(DELETE, key, arg)) == [68, 69, 76, 69, 84, 69, 9] + key + [10]
    ensures Format(Rec(LPUSH, key, arg)) == [76, 80, 85, 83, 72, 9] + key + [9] + arg + [10]
    ensures Format(Rec(RPOP, key, arg)) == [82, 80, 79, 80, 9] + key + [10]
    ensures Format(Rec(SADD, key, arg)) == [83, 65, 68, 68, 9] + key + [9] + arg + [10]
    ensures Format(Rec(SREM, key, arg)) == [83, 82, 69, 77, 9] + key + [9] + arg + [10]
    ensures Format(Rec(PEXPIREAT, key, arg)) == [80, 69, 88, 80, 73, 82, 69, 65, 84, 9] + key + [9] + arg + [10]
  {
  }

  /** A logged SET or DELETE with valid arguments is refused exactly if the disk fails or its record
      does not fit the 4096-byte buffer. */
  lemma RefusedExactly(db: Db, key: bytes, val: bytes, env: Env)
    requires db.log.Appending? && GoodArgs(key, val)
    ensures Step(db, SetOp(key, val), env).reply == Code(Io) <==> !env.ioOk || |key| + |val| + 6 >= 4096
    ensures Step(db, DeleteOp(key), env).reply == Code(Io) <==> !env.ioOk
    ensures Writable(Rec(SET, key, val), env) <==> env.ioOk && |key| + |val| + 6 < 4096
  {
    RecordText(key, val);
    RecordText(key, []);
    hide Format;
  }
}
