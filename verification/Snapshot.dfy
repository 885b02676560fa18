/** The binary snapshot (src/snapshot.c): what kv_save_internal_unlocked writes,
    what kv_load_snapshot makes of a file, and how the two fit together. */
module Snapshot {
  import opened Common
  import opened Spec
  import opened Table
  import opened LogText
  import opened Adler
  import opened Compaction

  const MAGIC: bytes := [77, 73, 78, 73, 75, 86, 48, 49]   // "MINIKV01"
  const MARKER: nat := UINT64_MAX                           // (uint64_t)-1
  const TWO64: nat := 0x1_0000_0000_0000_0000

  // ----- Saving -----

  /** The save filter: persistent, or not yet due. */
  predicate Saved(e: Entry, now: int) {
    e.deadline == 0 || e.deadline > now
  }

  function TypeByte(p: Payload): byte {
    match p
    case PStr(_) => 0
    case PList(_) => 1
    case PSet(_) => 2
  }

  function EncodeString(s: bytes): bytes {
    LittleEndian(|s|, 4) + s
  }

  function EncodeAll(vs: seq<bytes>): bytes {
    if vs == [] then [] else EncodeString(vs[0]) + EncodeAll(vs[1..])
  }

  function Reverse(vs: seq<bytes>): (r: seq<bytes>)
    ensures |r| == |vs| && forall v | v in r :: v in vs
  {
    if vs == [] then [] else Reverse(vs[1..]) + [vs[0]]
  }

  /** The elements in the order they are written: a list tail first, a set bucket by bucket. */
  function Elements(p: Payload): seq<bytes> {
    match p
    case PStr(s) => [s]
    case PList(items) => Reverse(items)
    case PSet(nodes) => Concat(nodes)
  }

  function EncodePayload(p: Payload): bytes {
    if p.PStr? then EncodeAll(Elements(p))
    else LittleEndian(|Elements(p)|, 4) + EncodeAll(Elements(p))
  }

  function EncodeEntry(e: Entry): bytes {
    LittleEndian(e.deadline % TWO64, 8)
    + (EncodeString(e.key) + ([TypeByte(e.payload)] + EncodePayload(e.payload)))
  }

  function EncodeEntries(es: seq<Entry>, now: int): bytes {
    if es == [] then []
    else (if Saved(es[0], now) then EncodeEntry(es[0]) else []) + EncodeEntries(es[1..], now)
  }

  function SaveBody(es: seq<Entry>, now: int): bytes {
    MAGIC + EncodeEntries(es, now) + LittleEndian(MARKER, 8)
  }

  /** The file left by kv_save_internal_unlocked. */
  function Save(es: seq<Entry>, now: int): bytes {
    SaveBody(es, now) + LittleEndian(Adler32(1, SaveBody(es, now)), 4)
  }

  lemma {:induction false} EncodeAllSnoc(vs: seq<bytes>, v: bytes)
    ensures EncodeAll(vs + [v]) == EncodeAll(vs) + EncodeString(v)
  {
    hide EncodeString;
    if vs == [] {
      assert (vs + [v])[1..] == [];
    } else {
      assert (vs + [v])[1..] == vs[1..] + [v];
      EncodeAllSnoc(vs[1..], v);
    }
  }

  lemma EncodeNoEntries(now: int)
    ensures EncodeEntries([], now) == []
  {
  }

  lemma {:induction false} EncodeOneMore(es: seq<Entry>, e: Entry, now: int)
    ensures EncodeEntries(es + [e], now)
            == if Saved(e, now) then EncodeEntries(es, now) + EncodeEntry(e) else EncodeEntries(es, now)
  {
    hide EncodeEntry, Saved;
    if es == [] {
      assert (es + [e])[1..] == [];
    } else {
      assert (es + [e])[1..] == es[1..] + [e];
      EncodeOneMore(es[1..], e, now);
    }
  }

  lemma AdlerOfNothing()
    ensures Adler32(1, []) == 1
  {
    EmptyBlock(1);
  }

  // ----- Loading -----

  /** The unread part of the file and the checksum of what was read. */
  datatype Cursor = Cursor(rest: bytes, sum: nat)

  function Skip(c: Cursor, n: nat): Cursor
    requires n <= |c.rest|
  {
    Cursor(c.rest[n..], Adler32(c.sum, c.rest[..n]))
  }

  function Number(c: Cursor, n: nat): nat
    requires n <= |c.rest|
  {
    FromLittleEndian(c.rest[..n])
  }

  /** Where a read stopped: `next` is None after a short read or an oversized length. */
  datatype Loaded = Loaded(items: Items, next: Option<Cursor>)

  predicate Live(expire: nat, now: int) {
    expire == 0 || ToInt64(expire) > now
  }

  /** The cast (int64_t)expire_at_ms. */
  function ToInt64(v: nat): int {
    if v <= INT64_MAX then v else v - TWO64
  }

  function SetDeadline(m: Items, key: bytes, expire: nat): Items {
    if expire != 0 && key in m then m[key := m[key].(deadline := ToInt64(expire))] else m
  }

  /** The effect of one element read: kv_set, kv_lpush or kv_sadd on a live record. */
  function Put(m: Items, cap: nat, kind: byte, key: bytes, val: bytes, now: int): Items {
    if kind == 0 then SetInternal(m, cap, key, val, true).items
    else if kind == 1 then LPush(m, cap, key, val, ReplayEnv(now)).items
    else SAdd(m, cap, key, val, ReplayEnv(now)).items
  }

  function LoadElements(m: Items, cap: nat, c: Cursor, count: nat, kind: byte, key: bytes,
                        live: bool, now: int): (l: Loaded)
    ensures l.next.Some? ==> |l.next.value.rest| <= |c.rest|
    decreases count
  {
    if count == 0 then Loaded(m, Some(c))
    else if |c.rest| < 4 then Loaded(m, None)
    else
      var n, c1 := Number(c, 4), Skip(c, 4);
      if n > MAX_VALUE_LEN || |c1.rest| < n then Loaded(m, None)
      else
        var val := CStr(c1.rest[..n]);
        LoadElements(if live then Put(m, cap, kind, key, val, now) else m,
                     cap, Skip(c1, n), count - 1, kind, key, live, now)
  }

  /** The payload of a record; an unknown type byte has none. */
  function LoadPayload(m: Items, cap: nat, c: Cursor, kind: byte, key: bytes, expire: nat, now: int): (l: Loaded)
    ensures l.next.Some? ==> |l.next.value.rest| <= |c.rest|
  {
    var live := Live(expire, now);
    if kind == 0 then
      var l := LoadElements(m, cap, c, 1, 0, key, live, now);
      // The deadline is set only after kv_set succeeded.
      if l.next.Some? && live && SetSucceeded(m, cap, c, key)
      then Loaded(SetDeadline(l.items, key, expire), l.next) else l
    else if kind == 1 || kind == 2 then
      if |c.rest| < 4 then Loaded(m, None)
      else
        var count := Number(c, 4);
        var l := LoadElements(m, cap, Skip(c, 4), count, kind, key, live, now);
        if l.next.Some? && live && count > 0
        then Loaded(SetDeadline(l.items, key, expire), l.next) else l
    else Loaded(m, Some(c))
  }

  /** One record after its deadline. */
  function LoadEntry(m: Items, cap: nat, c: Cursor, expire: nat, now: int): (l: Loaded)
    ensures l.next.Some? ==> |l.next.value.rest| <= |c.rest|
  {
    if |c.rest| < 4 then Loaded(m, None)
    else
      var klen, c1 := Number(c, 4), Skip(c, 4);
      if klen > MAX_KEY_LEN || |c1.rest| < klen + 1 then Loaded(m, None)
      else
        var key, c2 := CStr(c1.rest[..klen]), Skip(c1, klen);
        LoadPayload(m, cap, Skip(c2, 1), c2.rest[0], key, expire, now)
  }

  /** kv_set of the string that follows in the file returned KV_OK. */
  predicate SetSucceeded(m: Items, cap: nat, c: Cursor, key: bytes) {
    |c.rest| >= 4 && |Skip(c, 4).rest| >= Number(c, 4) &&
    SetInternal(m, cap, key, CStr(Skip(c, 4).rest[..Number(c, 4)]), true).reply == Code(Ok)
  }

  datatype LoadResult = LoadResult(items: Items, status: Status)

  function LoadEntries(m: Items, cap: nat, c: Cursor, now: int): LoadResult
    decreases |c.rest|
  {
    if |c.rest| < 8 then LoadResult(m, Io)
    else
      var expire, c1 := Number(c, 8), Skip(c, 8);
      if expire == MARKER then
        LoadResult(m, if |c1.rest| >= 4 && Number(c1, 4) == c1.sum then Ok else Io)
      else
        var l := LoadEntry(m, cap, c1, expire, now);
        if l.next.None? then LoadResult(l.items, Io)
        else LoadEntries(l.items, cap, l.next.value, now)
  }

  /** kv_load_snapshot into a store holding `m`. */
  function Load(m: Items, cap: nat, file: bytes, now: int): LoadResult {
    if |file| < |MAGIC| || file[..|MAGIC|] != MAGIC then LoadResult(m, Io)
    else LoadEntries(m, cap, Skip(Cursor(file, 1), |MAGIC|), now)
  }

  lemma NumberBound(c: Cursor)
    requires |c.rest| >= 8
    ensures Number(c, 8) < TWO64
  {
    Sizes();
    hide FromLittleEndian;
  }

  /** The string branch spelled out: kv_set first, the deadline only if that succeeded. */
  lemma StringCase(m: Items, cap: nat, c: Cursor, key: bytes, expire: nat, now: int)
    ensures var l := LoadPayload(m, cap, c, 0, key, expire, now);
            if |c.rest| >= 4 && Number(c, 4) <= MAX_VALUE_LEN && 4 + Number(c, 4) <= |c.rest| then
              var n := Number(c, 4);
              var out := SetInternal(m, cap, key, CStr(Skip(c, 4).rest[..n]), true);
              && l.next == Some(Skip(Skip(c, 4), n))
              && l.items == (if !Live(expire, now) then m
                             else if out.reply == Code(Ok) then SetDeadline(out.items, key, expire) else out.items)
            else l == Loaded(m, None)
  {
    hide Adler32, FromLittleEndian, SetInternal, CStr;
    if |c.rest| >= 4 && Number(c, 4) <= MAX_VALUE_LEN && 4 + Number(c, 4) <= |c.rest| {
      var n := Number(c, 4);
      var val := CStr(Skip(c, 4).rest[..n]);
      var m' := if Live(expire, now) then Put(m, cap, 0, key, val, now) else m;
      assert LoadElements(m', cap, Skip(Skip(c, 4), n), 0, 0, key, Live(expire, now), now)
          == Loaded(m', Some(Skip(Skip(c, 4), n)));
    }
  }

  // ----- Round trip -----

  /** What fits the format: storable, and no more elements than a 32-bit count can hold. */
  predicate Encodable(e: Entry) {
    StorableEntry(e) && |Elements(e.payload)| < WORD
  }

  lemma Sizes()
    ensures Pow256(4) == WORD && Pow256(8) == TWO64
  {
    assert Pow256(4) == 256 * 256 * 256 * 256;
    assert Pow256(8) == 256 * 256 * 256 * 256 * Pow256(4);
  }

  lemma SkipOver(a: bytes, b: bytes, sum: nat)
    ensures Skip(Cursor(a + b, sum), |a|) == Cursor(b, Adler32(sum, a))
    ensures (a + b)[..|a|] == a
  {
    hide Adler32;
    assert (a + b)[|a|..] == b;
  }

  lemma NumberBack(v: nat, n: nat, rest: bytes, sum: nat)
    requires v < Pow256(n)
    ensures Number(Cursor(LittleEndian(v, n) + rest, sum), n) == v
    ensures Skip(Cursor(LittleEndian(v, n) + rest, sum), n) == Cursor(rest, Adler32(sum, LittleEndian(v, n)))
  {
    hide Adler32, LittleEndian;
    SkipOver(LittleEndian(v, n), rest, sum);
    LittleEndianRoundTrip(v, n);
  }

  function PutAll(m: Items, cap: nat, kind: byte, key: bytes, vs: seq<bytes>, now: int): Items
    decreases |vs|
  {
    if vs == [] then m else PutAll(Put(m, cap, kind, key, vs[0], now), cap, kind, key, vs[1..], now)
  }

  /** Reading one length-prefixed string back. */
  lemma ReadString(s: bytes, rest: bytes, sum: nat)
    requires ValidValue(s)
    ensures var c := Cursor(EncodeString(s) + rest, sum);
            && |c.rest| >= 4 && Number(c, 4) == |s|
            && |Skip(c, 4).rest| >= |s|
            && CStr(Skip(c, 4).rest[..|s|]) == s
            && Skip(Skip(c, 4), |s|) == Cursor(rest, Adler32(sum, EncodeString(s)))
  {
    hide Adler32, LittleEndian;
    Sizes();
    var n := LittleEndian(|s|, 4);
    assert EncodeString(s) + rest == n + (s + rest);
    NumberBack(|s|, 4, s + rest, sum);
    SkipOver(s, rest, Adler32(sum, n));
    BlockByBlock(sum, n, s);
  }

  lemma {:induction false} ReadElements(m: Items, cap: nat, vs: seq<bytes>, rest: bytes, sum: nat,
                                        kind: byte, key: bytes, live: bool, now: int)
    requires sum < WORD && forall v | v in vs :: ValidValue(v)
    ensures LoadElements(m, cap, Cursor(EncodeAll(vs) + rest, sum), |vs|, kind, key, live, now)
            == Loaded(if live then PutAll(m, cap, kind, key, vs, now) else m,
                      Some(Cursor(rest, Adler32(sum, EncodeAll(vs)))))
    decreases |vs|
  {
    hide Adler32, EncodeString, Put, Skip, Number, CStr;
    if vs == [] {
      assert EncodeAll(vs) + rest == rest;
      EmptyBlock(sum);
    } else {
      var v := vs[0];
      var tail := EncodeAll(vs[1..]) + rest;
      assert EncodeAll(vs) + rest == EncodeString(v) + tail;
      ReadString(v, tail, sum);
      ReadElements(if live then Put(m, cap, kind, key, v, now) else m, cap, vs[1..], rest,
                   Adler32(sum, EncodeString(v)), kind, key, live, now);
      BlockByBlock(sum, EncodeString(v), EncodeAll(vs[1..]));
    }
  }

  lemma {:induction false} PutAllAppend(m: Items, cap: nat, kind: byte, key: bytes, vs: seq<bytes>, v: bytes, now: int)
    ensures PutAll(m, cap, kind, key, vs + [v], now) == Put(PutAll(m, cap, kind, key, vs, now), cap, kind, key, v, now)
    decreases |vs|
  {
    hide Put;
    if vs == [] {
      assert (vs + [v])[1..] == [];
    } else {
      assert (vs + [v])[1..] == vs[1..] + [v];
      PutAllAppend(Put(m, cap, kind, key, vs[0], now), cap, kind, key, vs[1..], v, now);
    }
  }

  lemma PutPush(m: Items, cap: nat, key: bytes, v: bytes, now: int)
    requires ValidKey(key) && ValidValue(v)
    requires if key in m then m[key].value.List? && m[key].deadline == 0 else !Full(m, cap)
    ensures Put(m, cap, 1, key, v, now)
            == m[key := Item(List([v] + if key in m then m[key].value.items else []), 0)]
  {
  }

  lemma PutAdd(m: Items, cap: nat, key: bytes, v: bytes, now: int)
    requires ValidKey(key) && ValidValue(v)
    requires if key in m then m[key].value.Set? && m[key].deadline == 0 else !Full(m, cap)
    ensures Put(m, cap, 2, key, v, now)
            == m[key := Item(Set((if key in m then m[key].value.members else {}) + {v}), 0)]
  {
    var was := if key in m then m[key].value.members else {};
    assert v in was ==> was + {v} == was;
  }

  /** Pushing the reversed list restores the list. */
  lemma {:induction false} PutReversed(m: Items, cap: nat, key: bytes, items: seq<bytes>, now: int)
    requires ValidKey(key) && key !in m && !Full(m, cap) && forall v | v in items :: ValidValue(v)
    ensures PutAll(m, cap, 1, key, Reverse(items), now)
            == if items == [] then m else m[key := Item(List(items), 0)]
    decreases |items|
  {
    hide Put;
    if items != [] {
      PutReversed(m, cap, key, items[1..], now);
      PutAllAppend(m, cap, 1, key, Reverse(items[1..]), items[0], now);
      var m' := if items[1..] == [] then m else m[key := Item(List(items[1..]), 0)];
      PutPush(m', cap, key, items[0], now);
      assert [items[0]] + items[1..] == items;
    }
  }

  lemma {:induction false} PutMembers(m: Items, cap: nat, key: bytes, vs: seq<bytes>, now: int)
    requires ValidKey(key) && forall v | v in vs :: ValidValue(v)
    requires if key in m then m[key].value.Set? && m[key].deadline == 0 else !Full(m, cap)
    ensures PutAll(m, cap, 2, key, vs, now)
            == if vs == [] then m
               else m[key := Item(Set((if key in m then m[key].value.members else {}) + SetOf(vs)), 0)]
    decreases |vs|
  {
    hide Put;
    if vs != [] {
      var was := if key in m then m[key].value.members else {};
      PutAdd(m, cap, key, vs[0], now);
      var m' := m[key := Item(Set(was + {vs[0]}), 0)];
      PutMembers(m', cap, key, vs[1..], now);
      assert was + {vs[0]} + SetOf(vs[1..]) == was + SetOf(vs);
      assert vs[1..] == [] ==> SetOf(vs) == {vs[0]};
    }
  }

  /** All elements of a payload put into a store without the key give the payload's value. */
  lemma PutPayload(m: Items, cap: nat, e: Entry, now: int)
    requires StorableEntry(e) && e.key !in m && !Full(m, cap)
    ensures PutAll(m, cap, TypeByte(e.payload), e.key, Elements(e.payload), now)
            == if HasContent(e) then m[e.key := Item(ValueOf(e.payload), 0)] else m
  {
    match e.payload {
      case PStr(s) => assert [s][1..] == [];
      case PList(items) => PutReversed(m, cap, e.key, items, now);
      case PSet(nodes) =>
        assert forall v | v in Concat(nodes) :: v in SetOf(Concat(nodes));
        PutMembers(m, cap, e.key, Concat(nodes), now);
        assert {} + SetOf(Concat(nodes)) == SetOf(Concat(nodes));
    }
  }

  lemma ElementsValid(e: Entry)
    requires StorableEntry(e)
    ensures forall v | v in Elements(e.payload) :: ValidValue(v)
  {
    if e.payload.PSet? {
      assert forall v | v in Concat(e.payload.nodes) :: v in SetOf(Concat(e.payload.nodes));
    }
  }

  /** What a live record restores: a record of an empty container restores nothing. */
  function RestoredEntry(m: Items, e: Entry, now: int): Items {
    if (e.deadline == 0 || e.deadline > now) && HasContent(e) then m[e.key := ItemOf(e)] else m
  }

  lemma StringPayload(s: bytes)
    ensures EncodePayload(PStr(s)) == EncodeString(s) && EncodeAll([s]) == EncodeString(s)
  {
    hide EncodeString;
    assert EncodeAll([s]) == EncodeString(s) + EncodeAll([s][1..]);
  }

  lemma ReadStringPayload(m: Items, cap: nat, e: Entry, rest: bytes, sum: nat, now: int)
    requires Encodable(e) && e.deadline >= 0 && e.key !in m && !Full(m, cap) && sum < WORD
    requires e.payload.PStr?
    ensures LoadPayload(m, cap, Cursor(EncodePayload(e.payload) + rest, sum), 0, e.key, e.deadline, now)
            == Loaded(RestoredEntry(m, e, now), Some(Cursor(rest, Adler32(sum, EncodePayload(e.payload)))))
  {
    hide Adler32, EncodeAll, EncodeString, EncodePayload, Skip, Number, LoadElements, PutAll, CStr;
    var v := e.payload.s;
    StringPayload(v);
    PutPayload(m, cap, e, now);
    ReadElements(m, cap, [v], rest, sum, 0, e.key, Live(e.deadline, now), now);
    ReadString(v, rest, sum);
  }

  lemma ReadContainerPayload(m: Items, cap: nat, e: Entry, rest: bytes, sum: nat, now: int)
    requires Encodable(e) && e.deadline >= 0 && e.key !in m && !Full(m, cap) && sum < WORD
    requires !e.payload.PStr?
    ensures LoadPayload(m, cap, Cursor(EncodePayload(e.payload) + rest, sum), TypeByte(e.payload),
                        e.key, e.deadline, now)
            == Loaded(RestoredEntry(m, e, now), Some(Cursor(rest, Adler32(sum, EncodePayload(e.payload)))))
  {
    hide Adler32, EncodeAll, EncodeString, Skip, Number, Elements, LoadElements, PutAll, LittleEndian, ValueOf,
         HasContent;
    var vs := Elements(e.payload);
    var n := LittleEndian(|vs|, 4);
    ElementsValid(e);
    PutPayload(m, cap, e, now);
    Sizes();
    assert EncodePayload(e.payload) + rest == n + (EncodeAll(vs) + rest);
    NumberBack(|vs|, 4, EncodeAll(vs) + rest, sum);
    ReadElements(m, cap, vs, rest, Adler32(sum, n), TypeByte(e.payload), e.key, Live(e.deadline, now), now);
    BlockByBlock(sum, n, EncodeAll(vs));
    ElementCount(e);
  }

  lemma ReadPayload(m: Items, cap: nat, e: Entry, rest: bytes, sum: nat, now: int)
    requires Encodable(e) && e.deadline >= 0 && e.key !in m && !Full(m, cap) && sum < WORD
    ensures LoadPayload(m, cap, Cursor(EncodePayload(e.payload) + rest, sum), TypeByte(e.payload),
                        e.key, e.deadline, now)
            == Loaded(RestoredEntry(m, e, now), Some(Cursor(rest, Adler32(sum, EncodePayload(e.payload)))))
  {
    hide LoadPayload, EncodePayload, RestoredEntry, Adler32, Encodable;
    if e.payload.PStr? {
      ReadStringPayload(m, cap, e, rest, sum, now);
    } else {
      ReadContainerPayload(m, cap, e, rest, sum, now);
    }
  }

  lemma ElementCount(e: Entry)
    requires !e.payload.PStr?
    ensures HasContent(e) <==> |Elements(e.payload)| > 0
  {
  }

  lemma ReadEntry(m: Items, cap: nat, e: Entry, rest: bytes, sum: nat, now: int)
    requires Encodable(e) && e.deadline >= 0 && e.key !in m && !Full(m, cap) && sum < WORD
    ensures var text := EncodeString(e.key) + ([TypeByte(e.payload)] + EncodePayload(e.payload));
            LoadEntry(m, cap, Cursor(text + rest, sum), e.deadline, now)
            == Loaded(RestoredEntry(m, e, now), Some(Cursor(rest, Adler32(sum, text))))
  {
    hide Adler32, EncodeString, EncodePayload, Skip, Number, LoadPayload, RestoredEntry, CStr;
    var key, kind, p := EncodeString(e.key), [TypeByte(e.payload)], EncodePayload(e.payload);
    assert key + (kind + p) + rest == key + (kind + (p + rest));
    ReadString(e.key, kind + (p + rest), sum);
    var sum1 := Adler32(sum, key);
    SkipOver(kind, p + rest, sum1);
    ReadPayload(m, cap, e, rest, Adler32(sum1, kind), now);
    BlockByBlock(sum1, kind, p);
    BlockByBlock(sum, key, kind + p);
    assert |Skip(Cursor(key + (kind + (p + rest)), sum), 4).rest| >= |e.key| + 1 by {
      SkipLength(Cursor(key + (kind + (p + rest)), sum), |e.key|);
    }
  }

  lemma SkipLength(c: Cursor, n: nat)
    requires 4 <= |c.rest| && n <= |Skip(c, 4).rest| && |Skip(Skip(c, 4), n).rest| > 0
    ensures |Skip(c, 4).rest| >= n + 1
  {
  }

  /** Loading one saved entry, from its deadline on. */
  lemma ReadWholeEntry(m: Items, cap: nat, e: Entry, rest: bytes, sum: nat, now: int)
    requires Encodable(e) && e.deadline >= 0 && e.key !in m && !Full(m, cap) && sum < WORD
    ensures LoadEntries(m, cap, Cursor(EncodeEntry(e) + rest, sum), now)
            == LoadEntries(RestoredEntry(m, e, now), cap, Cursor(rest, Adler32(sum, EncodeEntry(e))), now)
  {
    hide Adler32, EncodeString, EncodePayload, Skip, Number, LoadEntry, RestoredEntry, LittleEndian;
    Sizes();
    var d := LittleEndian(e.deadline % TWO64, 8);
    var text := EncodeString(e.key) + ([TypeByte(e.payload)] + EncodePayload(e.payload));
    assert e.deadline % TWO64 == e.deadline;
    assert EncodeEntry(e) + rest == d + (text + rest);
    NumberBack(e.deadline, 8, text + rest, sum);
    ReadEntry(m, cap, e, rest, Adler32(sum, d), now);
    BlockByBlock(sum, d, text);
  }

  /** The map a snapshot restores: entries saved at `now0` and still live at `now`. */
  function Restored(m: Items, es: seq<Entry>, now0: int, now: int): Items
    decreases |es|
  {
    if es == [] then m
    else Restored(if Saved(es[0], now0) then RestoredEntry(m, es[0], now) else m, es[1..], now0, now)
  }

  lemma {:induction false} ReadEntries(m: Items, es: seq<Entry>, rest: bytes, sum: nat, now0: int, now: int)
    requires 0 <= now0 && sum < WORD && Unique(es)
    requires forall e | e in es :: Encodable(e) && e.key !in m
    ensures LoadEntries(m, 0, Cursor(EncodeEntries(es, now0) + rest, sum), now)
            == LoadEntries(Restored(m, es, now0, now), 0, Cursor(rest, Adler32(sum, EncodeEntries(es, now0))), now)
    decreases |es|
  {
    hide Adler32, EncodeEntry, LoadEntries, Encodable, RestoredEntry;
    if es == [] {
      assert EncodeEntries(es, now0) + rest == rest;
      EmptyBlock(sum);
    } else {
      var e := es[0];
      var tail := EncodeEntries(es[1..], now0);
      assert forall f | f in es[1..] :: f in es && f.key != e.key;
      if Saved(e, now0) {
        assert EncodeEntries(es, now0) + rest == EncodeEntry(e) + (tail + rest);
        ReadWholeEntry(m, 0, e, tail + rest, sum, now);
        RestoredKeys(m, e, now);
        ReadEntries(RestoredEntry(m, e, now), es[1..], rest, Adler32(sum, EncodeEntry(e)), now0, now);
        BlockByBlock(sum, EncodeEntry(e), tail);
      } else {
        assert EncodeEntries(es, now0) == tail;
        ReadEntries(m, es[1..], rest, sum, now0, now);
      }
    }
  }

  lemma RestoredKeys(m: Items, e: Entry, now: int)
    ensures forall k | k in RestoredEntry(m, e, now) :: k in m || k == e.key
  {
  }

  lemma ReadMarker(m: Items, cap: nat, sum: nat, now: int)
    requires sum < WORD
    ensures var marker := LittleEndian(MARKER, 8);
            LoadEntries(m, cap, Cursor(marker + LittleEndian(Adler32(sum, marker), 4), sum), now) == LoadResult(m, Ok)
  {
    hide Adler32, Skip, Number, LittleEndian;
    Sizes();
    var marker := LittleEndian(MARKER, 8);
    var csum := Adler32(sum, marker);
    NumberBack(MARKER, 8, LittleEndian(csum, 4), sum);
    assert LittleEndian(csum, 4) + [] == LittleEndian(csum, 4);
    NumberBack(csum, 4, [], csum);
  }

  /** Saving and loading gives exactly the entries live at both moments, with their list order,
      set contents and deadlines; the end marker is never mistaken for an entry. */
  lemma RoundTrip(es: seq<Entry>, now0: int, now: int)
    requires 0 <= now0 && Unique(es) && forall e | e in es :: Encodable(e)
    ensures Load(map[], 0, Save(es, now0), now) == LoadResult(Restored(map[], es, now0, now), Ok)
  {
    hide Adler32, LittleEndian, LoadEntries, EncodeEntries, Encodable, Restored;
    var body, marker := EncodeEntries(es, now0), LittleEndian(MARKER, 8);
    var sum := Adler32(1, MAGIC);
    BlockByBlock(1, MAGIC, body);
    BlockByBlock(1, MAGIC + body, marker);
    var tail := marker + LittleEndian(Adler32(Adler32(sum, body), marker), 4);
    assert Save(es, now0) == MAGIC + (body + tail);
    SkipOver(MAGIC, body + tail, 1);
    ReadEntries(map[], es, tail, sum, now0, now);
    ReadMarker(Restored(map[], es, now0, now), 0, Adler32(sum, body), now);
  }

  /** Live at both moments, not an empty container, and without a negative deadline: such an entry
      never expires, but the save filter drops it. */
  predicate Survives(e: Entry, now0: int, now: int) {
    !Expired(ItemOf(e), now0) && !Expired(ItemOf(e), now) && e.deadline >= 0 && HasContent(e)
  }

  lemma {:induction false} RestoredSpec(m: Items, es: seq<Entry>, now0: int, now: int)
    requires 0 <= now0 && Unique(es) && forall e | e in es :: e.key !in m
    ensures var r := Restored(m, es, now0, now);
            && (forall k | k in m :: k in r && r[k] == m[k])
            && (forall k | k in r :: k in m || k in Keys(es))
            && (forall e | e in es :: if Survives(e, now0, now) then e.key in r && r[e.key] == ItemOf(e)
                                      else e.key !in r)
    decreases |es|
  {
    hide HasContent;
    if es != [] {
      var e := es[0];
      var m' := if Saved(e, now0) then RestoredEntry(m, e, now) else m;
      assert forall f | f in es[1..] :: f in es && f.key != e.key;
      RestoredSpec(m', es[1..], now0, now);
      assert forall f | f in es :: f == e || f in es[1..];
    }
  }

  /** A loaded snapshot equals the saved table if and only if every entry survives: persistent or
      due later than both clocks, and not an empty container. */
  lemma RoundTripExact(es: seq<Entry>, now0: int, now: int)
    requires 0 <= now0 && Unique(es) && forall e | e in es :: Encodable(e)
    ensures Load(map[], 0, Save(es, now0), now) == LoadResult(MapOf(es), Ok)
            <==> forall e | e in es :: Survives(e, now0, now)
  {
    hide Load, Save, Encodable, ItemOf, Survives, Restored, Unique;
    RoundTrip(es, now0, now);
    RestoredSpec(map[], es, now0, now);
    MapOfSpec(es);
    var r := Restored(map[], es, now0, now);
    if forall e | e in es :: Survives(e, now0, now) {
      assert r.Keys == MapOf(es).Keys;
      forall k | k in r
        ensures r[k] == MapOf(es)[k]
      {
        var e :| e in es && e.key == k;
        assert Survives(e, now0, now);
      }
    }
    if r == MapOf(es) {
      forall e | e in es
        ensures Survives(e, now0, now)
      {
        assert e.key in r;
      }
    }
  }

  /** A deadline below zero never passes, yet the entry is not in the snapshot. */
  lemma NegativeDeadlineNotSaved(now: int)
    requires 0 <= now
    ensures var e := Entry([97], PStr([98]), -5, 1);
            && Encodable(e) && !Expired(ItemOf(e), now)
            && Load(map[], 0, Save([e], now), now) == LoadResult(map[], Ok)
  {
    var e := Entry([97], PStr([98]), -5, 1);
    assert Unique([e]);
    assert Encodable(e) by { assert forall c: byte | c in [97] :: c == 97; }
    hide Load, Save, Encodable, HasContent;
    RoundTrip([e], now, now);
    RestoredSpec(map[], [e], now, now);
    assert e in [e] && !Survives(e, now, now);
  }

  // ----- Which files load -----

  /** Bytes taken by `count` length-prefixed elements, if they are all there. */
  function ElementsSpan(f: bytes, count: nat): (n: Option<nat>)
    ensures n.Some? ==> n.value <= |f|
    decreases count
  {
    if count == 0 then Some(0)
    else if |f| < 4 then None
    else
      var n := FromLittleEndian(f[..4]);
      if n > MAX_VALUE_LEN || |f| - 4 < n then None
      else
        var more := ElementsSpan(f[4 + n..], count - 1);
        if more.None? then None else Some(4 + n + more.value)
  }

  function PayloadSpan(f: bytes, kind: byte): (n: Option<nat>)
    ensures n.Some? ==> n.value <= |f|
  {
    if kind == 0 then ElementsSpan(f, 1)
    else if kind == 1 || kind == 2 then
      if |f| < 4 then None
      else
        var n := ElementsSpan(f[4..], FromLittleEndian(f[..4]));
        if n.None? then None else Some(4 + n.value)
    else Some(0)
  }

  /** Bytes taken by a record after its deadline. */
  function EntrySpan(f: bytes): (n: Option<nat>)
    ensures n.Some? ==> n.value <= |f|
  {
    if |f| < 4 then None
    else
      var klen := FromLittleEndian(f[..4]);
      if klen > MAX_KEY_LEN || |f| - 4 < klen + 1 then None
      else
        var n := PayloadSpan(f[4 + klen + 1..], f[4 + klen]);
        if n.None? then None else Some(4 + klen + 1 + n.value)
  }

  /** Bytes up to and including the end marker, if the records are well formed. */
  function FileSpan(f: bytes): (n: Option<nat>)
    ensures n.Some? ==> n.value <= |f|
    decreases |f|
  {
    if |f| < 8 then None
    else if FromLittleEndian(f[..8]) == MARKER then Some(8)
    else
      var n := EntrySpan(f[8..]);
      if n.None? then None
      else
        var more := FileSpan(f[8 + n.value..]);
        if more.None? then None else Some(8 + n.value + more.value)
  }

  function Advance(c: Cursor, span: Option<nat>): Option<Cursor>
    requires span.Some? ==> span.value <= |c.rest|
  {
    if span.None? then None else Some(Skip(c, span.value))
  }

  lemma SkipTwice(c: Cursor, a: nat, b: nat)
    requires a + b <= |c.rest|
    ensures Skip(Skip(c, a), b) == Skip(c, a + b)
    ensures c.rest[a..][b..] == c.rest[a + b..]
  {
    hide Adler32;
    assert c.rest[..a] + c.rest[a..][..b] == c.rest[..a + b];
    BlockByBlock(c.sum, c.rest[..a], c.rest[a..][..b]);
  }

  function Plus(n: nat, span: Option<nat>): Option<nat> {
    if span.None? then None else Some(n + span.value)
  }

  lemma AdvanceAfter(c: Cursor, n: nat, span: Option<nat>)
    requires n <= |c.rest| && (span.Some? ==> n + span.value <= |c.rest|)
    ensures Advance(Skip(c, n), span) == Advance(c, Plus(n, span))
  {
    if span.Some? {
      SkipTwice(c, n, span.value);
    }
    hide Adler32;
  }

  lemma ElementsFirst(m: Items, cap: nat, c: Cursor, count: nat, kind: byte, key: bytes, live: bool, now: int)
    requires count > 0 && 4 <= |c.rest| && Number(c, 4) <= MAX_VALUE_LEN && 4 + Number(c, 4) <= |c.rest|
    ensures var n := Number(c, 4);
            var val := CStr(c.rest[4..][..n]);
            && LoadElements(m, cap, c, count, kind, key, live, now)
               == LoadElements(if live then Put(m, cap, kind, key, val, now) else m,
                               cap, Skip(c, 4 + n), count - 1, kind, key, live, now)
            && ElementsSpan(c.rest, count) == Plus(4 + n, ElementsSpan(c.rest[4 + n..], count - 1))
  {
    hide Put, Adler32, FromLittleEndian, CStr;
    SkipTwice(c, 4, Number(c, 4));
  }

  lemma ElementsStop(m: Items, cap: nat, c: Cursor, count: nat, kind: byte, key: bytes, live: bool, now: int)
    requires c.sum < WORD
    requires count == 0 || |c.rest| < 4 || Number(c, 4) > MAX_VALUE_LEN || 4 + Number(c, 4) > |c.rest|
    ensures LoadElements(m, cap, c, count, kind, key, live, now).next == Advance(c, ElementsSpan(c.rest, count))
  {
    hide Put, Adler32, FromLittleEndian, CStr;
    if count == 0 {
      EmptyBlock(c.sum);
      assert c.rest[0..] == c.rest && c.rest[..0] == [];
    }
  }

  lemma {:induction false} ElementsEnd(m: Items, cap: nat, c: Cursor, count: nat, kind: byte, key: bytes,
                                       live: bool, now: int)
    requires c.sum < WORD
    ensures LoadElements(m, cap, c, count, kind, key, live, now).next == Advance(c, ElementsSpan(c.rest, count))
    decreases count
  {
    hide Put, Adler32, FromLittleEndian, CStr, ElementsSpan, LoadElements, Advance;
    if count == 0 || |c.rest| < 4 || Number(c, 4) > MAX_VALUE_LEN || 4 + Number(c, 4) > |c.rest| {
      ElementsStop(m, cap, c, count, kind, key, live, now);
    } else {
      var n := Number(c, 4);
      ElementsFirst(m, cap, c, count, kind, key, live, now);
      ElementsEnd(if live then Put(m, cap, kind, key, CStr(c.rest[4..][..n]), now) else m,
                  cap, Skip(c, 4 + n), count - 1, kind, key, live, now);
      AdvanceAfter(c, 4 + n, ElementsSpan(c.rest[4 + n..], count - 1));
    }
  }

  lemma PayloadEnd(m: Items, cap: nat, c: Cursor, kind: byte, key: bytes, expire: nat, now: int)
    requires c.sum < WORD
    ensures LoadPayload(m, cap, c, kind, key, expire, now).next == Advance(c, PayloadSpan(c.rest, kind))
  {
    hide Adler32, FromLittleEndian, LoadElements, ElementsSpan, SetSucceeded;
    var live := Live(expire, now);
    if kind == 0 {
      ElementsEnd(m, cap, c, 1, 0, key, live, now);
    } else if kind == 1 || kind == 2 {
      if |c.rest| >= 4 {
        var count := Number(c, 4);
        ElementsEnd(m, cap, Skip(c, 4), count, kind, key, live, now);
        var n := ElementsSpan(c.rest[4..], count);
        if n.Some? {
          SkipTwice(c, 4, n.value);
        }
      }
    } else {
      EmptyBlock(c.sum);
      assert c.rest[0..] == c.rest && c.rest[..0] == [];
    }
  }

  /** A record with a readable key and type, in terms of the payload behind them. */
  lemma EntryFirst(m: Items, cap: nat, c: Cursor, expire: nat, now: int)
    requires |c.rest| >= 4 && Number(c, 4) <= MAX_KEY_LEN && Number(c, 4) + 1 <= |c.rest| - 4
    ensures var n := 4 + Number(c, 4);
            && LoadEntry(m, cap, c, expire, now).next
               == LoadPayload(m, cap, Skip(c, n + 1), c.rest[n], CStr(c.rest[4..][..n - 4]), expire, now).next
            && EntrySpan(c.rest) == Plus(n + 1, PayloadSpan(c.rest[n + 1..], c.rest[n]))
  {
    hide Adler32, FromLittleEndian, LoadPayload, PayloadSpan, CStr;
    SkipTwice(c, 4, Number(c, 4));
    SkipTwice(c, 4 + Number(c, 4), 1);
  }

  lemma EntryEnd(m: Items, cap: nat, c: Cursor, expire: nat, now: int)
    requires c.sum < WORD
    ensures LoadEntry(m, cap, c, expire, now).next == Advance(c, EntrySpan(c.rest))
  {
    hide Adler32, FromLittleEndian, LoadPayload, PayloadSpan, CStr;
    if |c.rest| >= 4 && Number(c, 4) <= MAX_KEY_LEN && Number(c, 4) + 1 <= |c.rest| - 4 {
      EntryFirst(m, cap, c, expire, now);
      hide LoadEntry, EntrySpan, Advance;
      var n := 4 + Number(c, 4);
      PayloadEnd(m, cap, Skip(c, n + 1), c.rest[n], CStr(c.rest[4..][..n - 4]), expire, now);
      AdvanceAfter(c, n + 1, PayloadSpan(c.rest[n + 1..], c.rest[n]));
    }
  }

  /** The four bytes after `span` bytes are the checksum of everything read until then. */
  predicate Checks(c: Cursor, span: Option<nat>) {
    && span.Some? && span.value + 4 <= |c.rest|
    && FromLittleEndian(c.rest[span.value..span.value + 4]) == Adler32(c.sum, c.rest[..span.value])
  }

  lemma ChecksAfter(c: Cursor, n: nat, span: Option<nat>)
    requires n <= |c.rest|
    ensures Checks(Skip(c, n), span) == Checks(c, Plus(n, span))
  {
    hide Adler32, FromLittleEndian;
    if span.Some? && n + span.value + 4 <= |c.rest| {
      var k := span.value;
      SkipTwice(c, n, k);
      assert c.rest[n..][k..k + 4] == c.rest[n + k..n + k + 4];
    }
  }

  lemma EntriesStop(m: Items, cap: nat, c: Cursor, now: int)
    requires c.sum < WORD
    requires |c.rest| < 8 || Number(c, 8) == MARKER || EntrySpan(c.rest[8..]).None?
    ensures LoadEntries(m, cap, c, now).status == if Checks(c, FileSpan(c.rest)) then Ok else Io
  {
    hide Adler32, FromLittleEndian, LoadEntry, EntrySpan;
    if |c.rest| >= 8 && Number(c, 8) != MARKER {
      EntryEnd(m, cap, Skip(c, 8), Number(c, 8), now);
    }
    assert |c.rest| >= 12 ==> c.rest[8..][..4] == c.rest[8..12];
  }

  lemma EntriesStep(m: Items, cap: nat, c: Cursor, now: int)
    requires c.sum < WORD && |c.rest| >= 8 && Number(c, 8) != MARKER && EntrySpan(c.rest[8..]).Some?
    ensures var n := 8 + EntrySpan(c.rest[8..]).value;
            && n <= |c.rest|
            && LoadEntries(m, cap, c, now)
               == LoadEntries(LoadEntry(m, cap, Skip(c, 8), Number(c, 8), now).items, cap, Skip(c, n), now)
            && FileSpan(c.rest) == Plus(n, FileSpan(c.rest[n..]))
  {
    hide Adler32, FromLittleEndian, LoadEntry, EntrySpan;
    EntryEnd(m, cap, Skip(c, 8), Number(c, 8), now);
    SkipTwice(c, 8, EntrySpan(c.rest[8..]).value);
  }

  /** The records from `c` on load if and only if they are well formed up to the end marker and
      the four bytes after it are the checksum of everything before them. */
  lemma {:induction false} EntriesStatus(m: Items, cap: nat, c: Cursor, now: int)
    requires c.sum < WORD
    ensures LoadEntries(m, cap, c, now).status == if Checks(c, FileSpan(c.rest)) then Ok else Io
    decreases |c.rest|
  {
    hide Adler32, FromLittleEndian, LoadEntry, EntrySpan, FileSpan, LoadEntries, Checks;
    if |c.rest| < 8 || Number(c, 8) == MARKER || EntrySpan(c.rest[8..]).None? {
      EntriesStop(m, cap, c, now);
    } else {
      EntriesStep(m, cap, c, now);
      var n := 8 + EntrySpan(c.rest[8..]).value;
      EntriesStatus(LoadEntry(m, cap, Skip(c, 8), Number(c, 8), now).items, cap, Skip(c, n), now);
      ChecksAfter(c, n, FileSpan(c.rest[n..]));
    }
  }

  /** The same for whole files, whatever the store and the clock. */
  lemma LoadStatus(m: Items, cap: nat, file: bytes, now: int)
    ensures Load(m, cap, file, now).status
            == if |file| >= |MAGIC| && file[..|MAGIC|] == MAGIC
                  && Checks(Cursor(file, 1), Plus(|MAGIC|, FileSpan(file[|MAGIC|..])))
               then Ok else Io
  {
    hide Adler32, LoadEntries, FileSpan, Checks;
    if |file| >= |MAGIC| && file[..|MAGIC|] == MAGIC {
      var c := Skip(Cursor(file, 1), |MAGIC|);
      EntriesStatus(m, cap, c, now);
      ChecksAfter(Cursor(file, 1), |MAGIC|, FileSpan(c.rest));
    }
  }

  // ----- Altered bytes -----

  /** Position `p` is inside the text of one of `count` elements. */
  predicate InElements(f: bytes, count: nat, p: nat): (r: bool)
    requires ElementsSpan(f, count).Some?
    ensures r ==> 4 <= p < ElementsSpan(f, count).value
    decreases count
  {
    count > 0 &&
    var n := FromLittleEndian(f[..4]);
    if p < 4 + n then p >= 4 else InElements(f[4 + n..], count - 1, p - 4 - n)
  }

  predicate InPayload(f: bytes, kind: byte, p: nat): (r: bool)
    requires PayloadSpan(f, kind).Some?
    ensures r ==> 4 <= p < PayloadSpan(f, kind).value
  {
    if kind == 0 then InElements(f, 1, p)
    else if kind == 1 || kind == 2 then p >= 4 && InElements(f[4..], FromLittleEndian(f[..4]), p - 4)
    else false
  }

  predicate InEntry(f: bytes, p: nat): (r: bool)
    requires EntrySpan(f).Some?
    ensures r ==> 4 <= p < EntrySpan(f).value
  {
    var klen := FromLittleEndian(f[..4]);
    4 <= p < 4 + klen || (p >= 4 + klen + 1 && InPayload(f[4 + klen + 1..], f[4 + klen], p - 4 - klen - 1))
  }

  /** Position `p` is inside the text of a key or a value of a well-formed file. */
  predicate InBody(f: bytes, p: nat): (r: bool)
    requires FileSpan(f).Some?
    ensures r ==> 8 <= p < FileSpan(f).value
    decreases |f|
  {
    FromLittleEndian(f[..8]) != MARKER && p >= 8 &&
    var n := EntrySpan(f[8..]).value;
    if p < 8 + n then InEntry(f[8..], p - 8) else InBody(f[8 + n..], p - 8 - n)
  }

  lemma {:induction false} ElementsKeepShape(f: bytes, count: nat, p: nat, x: byte)
    requires ElementsSpan(f, count).Some? && InElements(f, count, p)
    ensures ElementsSpan(f[p := x], count) == ElementsSpan(f, count)
    decreases count
  {
    hide FromLittleEndian;
    var n := FromLittleEndian(f[..4]);
    assert p >= 4 && f[p := x][..4] == f[..4];
    if p < 4 + n {
      assert f[p := x][4 + n..] == f[4 + n..];
    } else {
      assert f[p := x][4 + n..] == f[4 + n..][p - 4 - n := x];
      ElementsKeepShape(f[4 + n..], count - 1, p - 4 - n, x);
    }
  }

  lemma PayloadKeepsShape(f: bytes, kind: byte, p: nat, x: byte)
    requires PayloadSpan(f, kind).Some? && InPayload(f, kind, p)
    ensures PayloadSpan(f[p := x], kind) == PayloadSpan(f, kind)
  {
    hide FromLittleEndian, ElementsSpan, InElements;
    if kind == 0 {
      ElementsKeepShape(f, 1, p, x);
    } else {
      var count := FromLittleEndian(f[..4]);
      ElementsKeepShape(f[4..], count, p - 4, x);
      assert f[p := x][..4] == f[..4] && f[p := x][4..] == f[4..][p - 4 := x];
    }
  }

  lemma EntryKeepsShape(f: bytes, p: nat, x: byte)
    requires EntrySpan(f).Some? && InEntry(f, p)
    ensures EntrySpan(f[p := x]) == EntrySpan(f)
  {
    hide FromLittleEndian, PayloadSpan, InPayload;
    var klen := FromLittleEndian(f[..4]);
    var k := 4 + klen + 1;
    assert f[p := x][..4] == f[..4] && f[p := x][k - 1] == f[k - 1];
    if p < k {
      assert f[p := x][k..] == f[k..];
    } else {
      PayloadKeepsShape(f[k..], f[k - 1], p - k, x);
      assert f[p := x][k..] == f[k..][p - k := x];
    }
  }

  lemma SamePrefix(f: bytes, g: bytes, all: nat, k: nat)
    requires |f| == |g| && k <= all <= |f| && f[..all] == g[..all]
    ensures f[..k] == g[..k] && f[k..][..all - k] == g[k..][..all - k]
    ensures k < all ==> f[k] == g[k]
  {
    assert f[..k] == f[..all][..k] && g[..k] == g[..all][..k];
    assert f[k..][..all - k] == f[..all][k..] && g[k..][..all - k] == g[..all][k..];
    assert k < all ==> f[k] == f[..all][k] && g[k] == g[..all][k];
  }

  lemma {:induction false} ElementsPrefix(f: bytes, g: bytes, count: nat)
    requires ElementsSpan(f, count).Some? && |g| == |f|
    requires var n := ElementsSpan(f, count).value; f[..n] == g[..n]
    ensures ElementsSpan(g, count) == ElementsSpan(f, count)
    decreases count
  {
    hide FromLittleEndian;
    if count > 0 {
      var n, all := FromLittleEndian(f[..4]), ElementsSpan(f, count).value;
      SamePrefix(f, g, all, 4);
      SamePrefix(f, g, all, 4 + n);
      ElementsPrefix(f[4 + n..], g[4 + n..], count - 1);
    }
  }

  lemma PayloadPrefix(f: bytes, g: bytes, kind: byte)
    requires PayloadSpan(f, kind).Some? && |g| == |f|
    requires var n := PayloadSpan(f, kind).value; f[..n] == g[..n]
    ensures PayloadSpan(g, kind) == PayloadSpan(f, kind)
  {
    hide FromLittleEndian, ElementsSpan;
    if kind == 0 {
      ElementsPrefix(f, g, 1);
    } else if kind == 1 || kind == 2 {
      SamePrefix(f, g, PayloadSpan(f, kind).value, 4);
      ElementsPrefix(f[4..], g[4..], FromLittleEndian(f[..4]));
    }
  }

  lemma EntryPrefix(f: bytes, g: bytes)
    requires EntrySpan(f).Some? && |g| == |f|
    requires var n := EntrySpan(f).value; f[..n] == g[..n]
    ensures EntrySpan(g) == EntrySpan(f)
  {
    hide FromLittleEndian, PayloadSpan;
    var all, k := EntrySpan(f).value, 4 + FromLittleEndian(f[..4]) + 1;
    SamePrefix(f, g, all, 4);
    SamePrefix(f, g, all, k - 1);
    SamePrefix(f, g, all, k);
    PayloadPrefix(f[k..], g[k..], f[k - 1]);
  }

  lemma {:induction false} FileKeepsShape(f: bytes, p: nat, x: byte)
    requires FileSpan(f).Some? && InBody(f, p)
    ensures FileSpan(f[p := x]) == FileSpan(f)
    decreases |f|
  {
    hide FromLittleEndian, EntrySpan, InEntry;
    var n := EntrySpan(f[8..]).value;
    assert f[p := x][..8] == f[..8] && f[p := x][8..] == f[8..][p - 8 := x];
    if p < 8 + n {
      EntryKeepsShape(f[8..], p - 8, x);
      assert f[p := x][8 + n..] == f[8 + n..];
    } else {
      var q := 8 + n;
      FileKeepsShape(f[q..], p - q, x);
      assert f[p := x][q..] == f[q..][p - q := x];
      assert f[8..][p - 8 := x][..n] == f[8..][..n];
      EntryPrefix(f[8..], f[8..][p - 8 := x]);
    }
  }

  lemma AlteredFailsCheck(file: bytes, n: nat, p: nat, x: byte)
    requires Checks(Cursor(file, 1), Some(n)) && p < n && x != file[p]
    ensures !Checks(Cursor(file[p := x], 1), Some(n))
  {
    hide Adler32, FromLittleEndian;
    assert file[p := x][n..n + 4] == file[n..n + 4];
    assert file[p := x][..n] == file[..n][p := x];
    OneByteDetected(file[..n], p, x);
  }

  lemma AlteredSpan(file: bytes, k: nat, p: nat, x: byte)
    requires k <= p < |file|
    requires FileSpan(file[k..]).Some? && InBody(file[k..], p - k)
    ensures FileSpan(file[p := x][k..]) == FileSpan(file[k..]) && p < k + FileSpan(file[k..]).value
  {
    hide FileSpan, InBody;
    FileKeepsShape(file[k..], p - k, x);
    assert file[p := x][k..] == file[k..][p - k := x];
  }

  /** Changing one byte of a key or value text in any file that loads makes it fail to load. */
  lemma CorruptionDetected(m: Items, cap: nat, file: bytes, now: int, p: nat, x: byte)
    requires |MAGIC| <= p < |file| && FileSpan(file[|MAGIC|..]).Some? && InBody(file[|MAGIC|..], p - |MAGIC|)
    requires Load(m, cap, file, now).status == Ok
    requires x != file[p]
    ensures Load(m, cap, file[p := x], now).status == Io
  {
    hide Load, FileSpan, InBody, Checks;
    LoadStatus(m, cap, file, now);
    LoadStatus(m, cap, file[p := x], now);
    AlteredSpan(file, |MAGIC|, p, x);
    AlteredFailsCheck(file, |MAGIC| + FileSpan(file[|MAGIC|..]).value, p, x);
  }
}
