/** The store as its users see it: a map from keys to typed values with
    deadlines, and one function per command (src/kv.c, src/list.c, src/set.c,
    src/eviction.c).  Nothing here knows about buckets, chains or bytes on disk. */
module Spec {
  import opened Common

  datatype Value =
    | Str(s: bytes)
    | List(items: seq<bytes>)       // head first
    | Set(members: set<bytes>)

  /** `deadline` is expire_at_ms: 0 means persistent, and a negative number never expires either. */
  datatype Item = Item(value: Value, deadline: int)

  type Items = map<bytes, Item>

  /** What the environment decides during one call: the clock (`later` is a second
      reading), whether the log can be written, and which allocations succeed (the
      bucket array; the entry with its key and container; the value node). */
  datatype Env = Env(now: int, later: int, ioOk: bool, tableOk: bool, entryOk: bool, nodeOk: bool)

  datatype Reply =
    | Code(status: Status)
    | Int(n: int)
    | Bulk(v: bytes)
    | Nil
    | Members(ms: set<bytes>)

  datatype Out = Out(items: Items, reply: Reply)

  datatype Op =
    | SetOp(key: bytes, val: bytes)
    | DeleteOp(key: bytes)
    | LPushOp(key: bytes, val: bytes)
    | RPopOp(key: bytes)
    | SAddOp(key: bytes, val: bytes)
    | SRemOp(key: bytes, val: bytes)
    | PExpireAtOp(key: bytes, deadline: int)
    | PersistOp(key: bytes)
    | GetOp(key: bytes)
    | ExistsOp(key: bytes)
    | LLenOp(key: bytes)
    | SCardOp(key: bytes)
    | SMembersOp(key: bytes)
    | PTtlOp(key: bytes)

  /** The arguments are C strings and the deadline fits an int64_t. */
  predicate WellTyped(op: Op) {
    && CString(op.key)
    && (op.SetOp? || op.LPushOp? || op.SAddOp? || op.SRemOp? ==> CString(op.val))
    && (op.PExpireAtOp? ==> Int64(op.deadline))
  }

  predicate Expired(it: Item, now: int) {
    0 < it.deadline <= now
  }

  /** find_entry_unlocked drops the entry it was asked for when its deadline has passed. */
  function Fetch(m: Items, key: bytes, now: int): Items {
    if key in m && Expired(m[key], now) then m - {key} else m
  }

  predicate Full(m: Items, cap: nat) {
    cap > 0 && |m| >= cap
  }

  /** kv_set_internal: no expiry check, and an overwritten string keeps its deadline. */
  function SetInternal(m: Items, cap: nat, key: bytes, val: bytes, entryOk: bool): Out {
    if ValidateKey(key) != Ok then Out(m, Code(ValidateKey(key)))
    else if ValidateValue(val) != Ok then Out(m, Code(ValidateValue(val)))
    else if key in m then
      if !m[key].value.Str? then Out(m, Code(WrongType))
      else if !entryOk then Out(m, Code(Internal))
      else Out(m[key := Item(Str(val), m[key].deadline)], Code(Ok))
    else if Full(m, cap) then Out(m, Code(CapacityFull))
    else if !entryOk then Out(m, Code(Internal))
    else Out(m[key := Item(Str(val), 0)], Code(Ok))
  }

  /** kv_delete_internal: no expiry check. */
  function DeleteInternal(m: Items, key: bytes): Out {
    if ValidateKey(key) != Ok then Out(m, Code(InvalidParam))
    else if key !in m then Out(m, Code(NotFound))
    else Out(m - {key}, Code(Ok))
  }

  function LPush(m: Items, cap: nat, key: bytes, val: bytes, env: Env): Out {
    if ValidateKey(key) != Ok then Out(m, Code(ValidateKey(key)))
    else if ValidateValue(val) != Ok then Out(m, Code(ValidateValue(val)))
    else
      var m := Fetch(m, key, env.now);
      if key in m && !m[key].value.List? then Out(m, Code(WrongType))
      else if key !in m && Full(m, cap) then Out(m, Code(CapacityFull))
      else if key !in m && !env.entryOk then Out(m, Code(Internal))
      else
        var was := if key in m then m[key] else Item(List([]), 0);
        var items := was.value.items;
        // When the node cannot be allocated a fresh key stays behind with an empty list.
        if !env.nodeOk then Out(m[key := was], Code(Internal))
        else Out(m[key := Item(List([val] + items), was.deadline)], Int(|items| + 1))
  }

  function RPop(m: Items, key: bytes, env: Env): Out {
    var m := Fetch(m, key, env.now);
    if key !in m then Out(m, Code(NotFound))
    else if !m[key].value.List? then Out(m, Code(WrongType))
    else
      var items := m[key].value.items;
      if items == [] then Out(m, Code(NotFound))
      else if !env.nodeOk then Out(m, Code(Internal))
      else
        var rest := items[..|items| - 1];
        var last := Bulk(items[|items| - 1]);
        if rest == [] then Out(m - {key}, last)
        else Out(m[key := Item(List(rest), m[key].deadline)], last)
  }

  function SAdd(m: Items, cap: nat, key: bytes, val: bytes, env: Env): Out {
    if ValidateKey(key) != Ok then Out(m, Code(ValidateKey(key)))
    else if ValidateValue(val) != Ok then Out(m, Code(ValidateValue(val)))
    else
      var m := Fetch(m, key, env.now);
      if key in m && !m[key].value.Set? then Out(m, Code(WrongType))
      else if key !in m && Full(m, cap) then Out(m, Code(CapacityFull))
      else if key !in m && !env.entryOk then Out(m, Code(Internal))
      else
        var was := if key in m then m[key] else Item(Set({}), 0);
        var members := was.value.members;
        if val in members then Out(m, Int(0))
        else if !env.nodeOk then Out(m[key := was], Code(Internal))
        else Out(m[key := Item(Set(members + {val}), was.deadline)], Int(1))
  }

  function SRem(m: Items, key: bytes, val: bytes, env: Env): Out {
    var m := Fetch(m, key, env.now);
    if key !in m then Out(m, Int(0))
    else if !m[key].value.Set? then Out(m, Code(WrongType))
    else
      var members := m[key].value.members;
      if val !in members then Out(m, Int(0))
      else if members == {val} then Out(m - {key}, Int(1))
      else Out(m[key := Item(Set(members - {val}), m[key].deadline)], Int(1))
  }

  function PExpireAt(m: Items, key: bytes, deadline: int, env: Env): Out {
    var m := Fetch(m, key, env.now);
    if key !in m then Out(m, Int(0))
    else Out(m[key := m[key].(deadline := deadline)], Int(1))
  }

  function Persist(m: Items, key: bytes, env: Env): Out {
    var m := Fetch(m, key, env.now);
    if key !in m || m[key].deadline == 0 then Out(m, Int(0))
    else Out(m[key := m[key].(deadline := 0)], Int(1))
  }

  function Get(m: Items, key: bytes, env: Env): Out {
    var m := Fetch(m, key, env.now);
    Out(m, if key in m && m[key].value.Str? then Bulk(m[key].value.s) else Nil)
  }

  function Exists(m: Items, key: bytes, env: Env): Out {
    var m := Fetch(m, key, env.now);
    Out(m, Int(if key in m then 1 else 0))
  }

  function LLen(m: Items, key: bytes, env: Env): Out {
    var m := Fetch(m, key, env.now);
    if key !in m then Out(m, Int(0))
    else if !m[key].value.List? then Out(m, Code(WrongType))
    else Out(m, Int(|m[key].value.items|))
  }

  function SCard(m: Items, key: bytes, env: Env): Out {
    var m := Fetch(m, key, env.now);
    if key !in m then Out(m, Int(0))
    else if !m[key].value.Set? then Out(m, Code(WrongType))
    else Out(m, Int(|m[key].value.members|))
  }

  function SMembers(m: Items, key: bytes, env: Env): Out {
    var m := Fetch(m, key, env.now);
    if key !in m || !m[key].value.Set? || m[key].value.members == {} || !env.nodeOk
    then Out(m, Nil)
    else Out(m, Members(m[key].value.members))
  }

  /** kv_pttl reads the clock twice: for the lookup, and for the time left. */
  function PTtl(m: Items, key: bytes, env: Env): Out {
    var m := Fetch(m, key, env.now);
    if key !in m then Out(m, Int(-2))
    else if m[key].deadline == 0 then Out(m, Int(-1))
    else
      var rem := m[key].deadline - env.later;
      Out(m, Int(if rem < 0 then 0 else rem))
  }

  /** One command on a store without a memory budget. */
  function Apply(m: Items, cap: nat, op: Op, env: Env): Out {
    match op
    case SetOp(k, v) => SetInternal(m, cap, k, v, env.entryOk)
    case DeleteOp(k) => DeleteInternal(m, k)
    case LPushOp(k, v) => LPush(m, cap, k, v, env)
    case RPopOp(k) => RPop(m, k, env)
    case SAddOp(k, v) => SAdd(m, cap, k, v, env)
    case SRemOp(k, v) => SRem(m, k, v, env)
    case PExpireAtOp(k, d) => PExpireAt(m, k, d, env)
    case PersistOp(k) => Persist(m, k, env)
    case GetOp(k) => Get(m, k, env)
    case ExistsOp(k) => Exists(m, k, env)
    case LLenOp(k) => LLen(m, k, env)
    case SCardOp(k) => SCard(m, k, env)
    case SMembersOp(k) => SMembers(m, k, env)
    case PTtlOp(k) => PTtl(m, k, env)
  }

  /** A stored item: values within their limits, deadline an int64_t. */
  predicate Storable(key: bytes, it: Item) {
    && ValidKey(key)
    && Int64(it.deadline)
    && match it.value
       case Str(s) => ValidValue(s)
       case List(items) => forall v | v in items :: ValidValue(v)
       case Set(members) => forall v | v in members :: ValidValue(v)
  }

  predicate AllStorable(m: Items) {
    forall k | k in m :: Storable(k, m[k])
  }
}
