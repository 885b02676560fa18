/** The concrete shape of the store (include/kv.h): a bucket array of chains,
    each chain a sequence of entries, head first.  `Flat` lists the entries in
    the order every full scan of the source visits them. */
module Table {
  import opened Common
  import opened Spec

  const SIZEOF_POINTER: nat := 8
  const SIZEOF_ENTRY: nat := 48
  const SIZEOF_LIST: nat := 24
  const SIZEOF_LIST_NODE: nat := 24
  const SIZEOF_SET: nat := 24
  const SIZEOF_SET_NODE: nat := 16
  const SET_BUCKETS: nat := 16

  /** A set is its own small table of chained nodes. */
  datatype Payload =
    | PStr(s: bytes)
    | PList(items: seq<bytes>)
    | PSet(nodes: seq<seq<bytes>>)

  datatype Entry = Entry(key: bytes, payload: Payload, deadline: int, stamp: nat)

  type Chain = seq<Entry>
  type Buckets = seq<Chain>
  type Hash = bytes -> nat

  function Concat<T>(xss: seq<seq<T>>): seq<T> {
    if xss == [] then [] else xss[0] + Concat(xss[1..])
  }

  function Flat(b: Buckets): seq<Entry> {
    Concat(b)
  }

  function SetOf<T>(xs: seq<T>): set<T> {
    set x | x in xs
  }

  function ValueOf(p: Payload): Value {
    match p
    case PStr(s) => Str(s)
    case PList(items) => List(items)
    case PSet(nodes) => Set(SetOf(Concat(nodes)))
  }

  function ItemOf(e: Entry): Item {
    Item(ValueOf(e.payload), e.deadline)
  }

  // ----- Entry sequences with unique keys -----

  predicate Unique(es: seq<Entry>) {
    forall i, j | 0 <= i < j < |es| :: es[i].key != es[j].key
  }

  function Keys(es: seq<Entry>): set<bytes> {
    set e | e in es :: e.key
  }

  function MapOf(es: seq<Entry>): Items {
    if es == [] then map[]
    else MapOf(es[1..])[es[0].key := ItemOf(es[0])]
  }

  lemma {:induction false} MapOfKeys(es: seq<Entry>)
    ensures MapOf(es).Keys == Keys(es)
  {
    hide ItemOf;
    if es != [] {
      MapOfKeys(es[1..]);
      assert es == [es[0]] + es[1..];
    }
  }

  lemma {:induction false} MapOfValues(es: seq<Entry>)
    requires Unique(es)
    ensures forall e | e in es :: e.key in MapOf(es) && MapOf(es)[e.key] == ItemOf(e)
  {
    hide ItemOf;
    if es != [] {
      MapOfValues(es[1..]);
      assert forall e | e in es[1..] :: e.key != es[0].key;
      assert forall e | e in es :: e == es[0] || e in es[1..];
    }
  }

  /** With unique keys the map holds exactly the entries. */
  lemma MapOfSpec(es: seq<Entry>)
    requires Unique(es)
    ensures MapOf(es).Keys == Keys(es)
    ensures forall e | e in es :: e.key in MapOf(es) && MapOf(es)[e.key] == ItemOf(e)
  {
    MapOfKeys(es);
    MapOfValues(es);
    hide MapOf, ItemOf, Unique;
  }

  lemma {:induction false} MapOfSize(es: seq<Entry>)
    requires Unique(es)
    ensures |MapOf(es)| == |es|
  {
    hide ItemOf;
    if es != [] {
      MapOfSize(es[1..]);
      MapOfSpec(es[1..]);
      assert forall e | e in es[1..] :: e.key != es[0].key;
      assert es[0].key !in MapOf(es[1..]);
      assert MapOf(es).Keys == MapOf(es[1..]).Keys + {es[0].key};
      assert |MapOf(es)| == |MapOf(es).Keys|;
    }
  }

  /** The map only depends on which entries there are. */
  lemma MapOfSame(es: seq<Entry>, fs: seq<Entry>)
    requires Unique(es) && Unique(fs)
    requires forall e :: e in es <==> e in fs
    ensures MapOf(es) == MapOf(fs)
  {
    MapOfSpec(es);
    MapOfSpec(fs);
    assert Keys(es) == Keys(fs);
    forall k | k in MapOf(es)
      ensures MapOf(es)[k] == MapOf(fs)[k]
    {
      var e :| e in es && e.key == k;
    }
  }

  // ----- Bytes -----

  function NodeBytes(items: seq<bytes>, overhead: nat): nat {
    if items == [] then 0 else overhead + |items[0]| + 1 + NodeBytes(items[1..], overhead)
  }

  function PayloadBytes(p: Payload): nat {
    match p
    case PStr(s) => |s| + 1
    case PList(items) => SIZEOF_LIST + NodeBytes(items, SIZEOF_LIST_NODE)
    case PSet(nodes) => SIZEOF_SET + |nodes| * SIZEOF_POINTER + NodeBytes(Concat(nodes), SIZEOF_SET_NODE)
  }

  function EntryBytes(e: Entry): nat {
    SIZEOF_ENTRY + |e.key| + 1 + PayloadBytes(e.payload)
  }

  function Bytes(es: seq<Entry>): nat {
    if es == [] then 0 else EntryBytes(es[0]) + Bytes(es[1..])
  }

  lemma {:induction false} BytesAppend(es: seq<Entry>, fs: seq<Entry>)
    ensures Bytes(es + fs) == Bytes(es) + Bytes(fs)
  {
    hide EntryBytes;
    if es == [] {
      assert es + fs == fs;
    } else {
      assert (es + fs)[1..] == es[1..] + fs;
      BytesAppend(es[1..], fs);
    }
  }

  lemma BytesAround(pre: seq<Entry>, e: Entry, post: seq<Entry>)
    ensures Bytes(pre + [e] + post) == Bytes(pre) + EntryBytes(e) + Bytes(post)
  {
    hide EntryBytes;
    BytesAppend(pre + [e], post);
    BytesAppend(pre, [e]);
    assert Bytes([e]) == EntryBytes(e) + Bytes([e][1..]);
  }

  lemma {:induction false} NodeBytesAppend(a: seq<bytes>, b: seq<bytes>, overhead: nat)
    ensures NodeBytes(a + b, overhead) == NodeBytes(a, overhead) + NodeBytes(b, overhead)
  {
    if a == [] {
      assert a + b == b;
    } else {
      assert (a + b)[1..] == a[1..] + b;
      NodeBytesAppend(a[1..], b, overhead);
    }
  }

  lemma NodeBytesAround(a: seq<bytes>, v: bytes, b: seq<bytes>, overhead: nat)
    ensures NodeBytes(a + [v] + b, overhead) == NodeBytes(a + b, overhead) + overhead + |v| + 1
  {
    NodeBytesAppend(a + [v], b, overhead);
    NodeBytesAppend(a, [v], overhead);
    NodeBytesAppend(a, b, overhead);
    assert NodeBytes([v], overhead) == overhead + |v| + 1 + NodeBytes([v][1..], overhead);
  }

  // ----- Concatenation -----

  lemma {:induction false} ConcatAppend<T>(a: seq<seq<T>>, b: seq<seq<T>>)
    ensures Concat(a + b) == Concat(a) + Concat(b)
  {
    if a == [] {
      assert a + b == b;
    } else {
      assert (a + b)[1..] == a[1..] + b;
      ConcatAppend(a[1..], b);
    }
  }

  lemma EmptyConcat<T>(b: seq<seq<T>>)
    ensures Concat(b[..0]) == []
  {
  }

  lemma ConcatSnoc<T>(b: seq<seq<T>>, i: nat)
    requires i < |b|
    ensures Concat(b[..i + 1]) == Concat(b[..i]) + b[i]
  {
    assert b[..i + 1] == b[..i] + [b[i]];
    ConcatAppend(b[..i], [b[i]]);
    assert Concat([b[i]]) == b[i] + Concat([b[i]][1..]);
  }

  /** The scan order around bucket `i`, whatever chain sits there. */
  lemma ConcatAt<T>(b: seq<seq<T>>, i: nat, c: seq<T>)
    requires i < |b|
    ensures Concat(b[i := c]) == Concat(b[..i]) + c + Concat(b[i + 1..])
    ensures Concat(b) == Concat(b[..i]) + b[i] + Concat(b[i + 1..])
  {
    assert b[i := c] == b[..i] + ([c] + b[i + 1..]);
    assert b == b[..i] + ([b[i]] + b[i + 1..]);
    ConcatAppend(b[..i], [c] + b[i + 1..]);
    ConcatAppend(b[..i], [b[i]] + b[i + 1..]);
    assert ([c] + b[i + 1..])[1..] == b[i + 1..] && ([b[i]] + b[i + 1..])[1..] == b[i + 1..];
  }

  lemma {:induction false} InConcat<T>(b: seq<seq<T>>, x: T)
    ensures x in Concat(b) <==> exists i :: 0 <= i < |b| && x in b[i]
  {
    if b != [] {
      InConcat(b[1..], x);
      if x in Concat(b[1..]) {
        var i :| 0 <= i < |b[1..]| && x in b[1..][i];
        assert x in b[i + 1];
      }
      if i :| 0 <= i < |b| && x in b[i] {
        assert i > 0 ==> x in b[1..][i - 1];
      }
    }
  }

  // ----- Entry sequences around one entry -----

  lemma UniqueWith(pre: seq<Entry>, e: Entry, post: seq<Entry>)
    requires Unique(pre + post) && e.key !in Keys(pre + post)
    ensures Unique(pre + [e] + post)
  {
    var with, without := pre + [e] + post, pre + post;
    assert with[|pre|] == e;
    forall i | 0 <= i < |with| && i != |pre|
      ensures with[i] == without[if i < |pre| then i else i - 1] && with[i].key != e.key
    {
      assert with[i] in without;
    }
  }

  lemma UniqueWithout(pre: seq<Entry>, e: Entry, post: seq<Entry>)
    requires Unique(pre + [e] + post)
    ensures Unique(pre + post) && e.key !in Keys(pre + post)
  {
    var with, without := pre + [e] + post, pre + post;
    assert with[|pre|] == e;
    assert forall i | 0 <= i < |without| :: without[i] == with[if i < |pre| then i else i + 1];
    forall x | x in without
      ensures x.key != e.key
    {
      var i :| 0 <= i < |without| && without[i] == x;
    }
  }

  lemma UniqueAround(pre: seq<Entry>, e: Entry, post: seq<Entry>)
    ensures Unique(pre + [e] + post) <==> Unique(pre + post) && e.key !in Keys(pre + post)
  {
    if Unique(pre + [e] + post) {
      UniqueWithout(pre, e, post);
    }
    if Unique(pre + post) && e.key !in Keys(pre + post) {
      UniqueWith(pre, e, post);
    }
    hide Unique, Keys;
  }

  lemma MapOfAround(pre: seq<Entry>, e: Entry, post: seq<Entry>)
    requires Unique(pre + [e] + post)
    ensures Unique(pre + post) && e.key !in MapOf(pre + post)
    ensures MapOf(pre + [e] + post) == MapOf(pre + post)[e.key := ItemOf(e)]
    ensures MapOf(pre + post) == MapOf(pre + [e] + post) - {e.key}
  {
    hide ItemOf, MapOf, Unique;
    UniqueAround(pre, e, post);
    var with, without := pre + [e] + post, pre + post;
    MapOfSpec(with);
    MapOfSpec(without);
    assert forall x :: x in with <==> x == e || x in without;
    assert Keys(with) == Keys(without) + {e.key};
    forall k | k in MapOf(without)
      ensures MapOf(with)[k] == MapOf(without)[k]
    {
      var x :| x in without && x.key == k;
    }
  }

  // ----- The invariant of the table -----

  predicate StorableEntry(e: Entry) {
    Storable(e.key, ItemOf(e))
  }

  predicate NoDup<T(==)>(xs: seq<T>) {
    forall i, j | 0 <= i < j < |xs| :: xs[i] != xs[j]
  }

  /** A set's nodes: 16 buckets, each node in the bucket of its hash, no value twice. */
  predicate SetInv(nodes: seq<seq<bytes>>, hash: Hash) {
    && |nodes| == SET_BUCKETS
    && (forall i, v | 0 <= i < |nodes| && v in nodes[i] :: hash(v) % SET_BUCKETS == i)
    && NoDup(Concat(nodes))
  }

  predicate EntryInv(e: Entry, hash: Hash) {
    StorableEntry(e) && (e.payload.PSet? ==> SetInv(e.payload.nodes, hash))
  }

  /** Access stamps are pairwise distinct and none is ahead of the clock. */
  predicate Stamps(es: seq<Entry>, clock: nat) {
    && (forall e | e in es :: 0 < e.stamp <= clock)
    && (forall i, j | 0 <= i < j < |es| :: es[i].stamp != es[j].stamp)
  }

  predicate Placed(b: Buckets, hash: Hash)
    requires |b| > 0
  {
    forall i, e | 0 <= i < |b| && e in b[i] :: hash(e.key) % |b| == i
  }

  predicate AllEntryInv(es: seq<Entry>, hash: Hash) {
    forall e | e in es :: EntryInv(e, hash)
  }

  predicate TableInv(b: Buckets, hash: Hash, clock: nat) {
    && |b| > 0
    && Placed(b, hash)
    && Unique(Flat(b))
    && Stamps(Flat(b), clock)
    && AllEntryInv(Flat(b), hash)
  }

  function ItemsIn(b: Buckets): Items {
    MapOf(Flat(b))
  }

  function Pre(b: Buckets, i: nat, j: nat): seq<Entry>
    requires i < |b| && j <= |b[i]|
  {
    Concat(b[..i]) + b[i][..j]
  }

  function Post(b: Buckets, i: nat, j: nat): seq<Entry>
    requires i < |b| && j <= |b[i]|
  {
    b[i][j..] + Concat(b[i + 1..])
  }

  /** A chain lookup finds exactly what the map holds. */
  lemma LookupFound(b: Buckets, hash: Hash, clock: nat, i: nat, j: nat)
    requires TableInv(b, hash, clock) && i < |b| && j < |b[i]|
    ensures b[i][j] in Flat(b)
    ensures b[i][j].key in ItemsIn(b) && ItemsIn(b)[b[i][j].key] == ItemOf(b[i][j])
    ensures EntryInv(b[i][j], hash)
  {
    hide EntryInv, ItemOf, MapOf, Placed, Stamps;
    InConcat(b, b[i][j]);
    MapOfSpec(Flat(b));
  }

  lemma LookupMissing(b: Buckets, hash: Hash, clock: nat, key: bytes)
    requires TableInv(b, hash, clock)
    requires forall e | e in b[hash(key) % |b|] :: e.key != key
    ensures key !in ItemsIn(b)
  {
    hide EntryInv, ItemOf, MapOf, Stamps;
    MapOfSpec(Flat(b));
    forall e | e in Flat(b)
      ensures e.key != key
    {
      InConcat(b, e);
      var i :| 0 <= i < |b| && e in b[i];
    }
  }

  lemma SizeOfItems(b: Buckets, hash: Hash, clock: nat)
    requires TableInv(b, hash, clock)
    ensures |ItemsIn(b)| == |Flat(b)|
  {
    MapOfSize(Flat(b));
  }

  lemma FlatAround(b: Buckets, i: nat, j: nat)
    requires i < |b| && j < |b[i]|
    ensures Flat(b) == Pre(b, i, j) + [b[i][j]] + Post(b, i, j + 1)
  {
    ConcatAt(b, i, b[i]);
    assert b[i] == b[i][..j] + [b[i][j]] + b[i][j + 1..];
  }

  function Removed(b: Buckets, i: nat, j: nat): (r: Buckets)
    requires i < |b| && j < |b[i]|
    ensures |r| == |b|
  {
    b[i := b[i][..j] + b[i][j + 1..]]
  }

  function Replaced(b: Buckets, i: nat, j: nat, e: Entry): (r: Buckets)
    requires i < |b| && j < |b[i]|
    ensures |r| == |b|
  {
    b[i := b[i][j := e]]
  }

  function Inserted(b: Buckets, i: nat, e: Entry): (r: Buckets)
    requires i < |b|
    ensures |r| == |b|
  {
    b[i := [e] + b[i]]
  }

  lemma FlatRemoved(b: Buckets, i: nat, j: nat)
    requires i < |b| && j < |b[i]|
    ensures Flat(Removed(b, i, j)) == Pre(b, i, j) + Post(b, i, j + 1)
  {
    ConcatAt(b, i, b[i][..j] + b[i][j + 1..]);
  }

  lemma FlatReplaced(b: Buckets, i: nat, j: nat, e: Entry)
    requires i < |b| && j < |b[i]|
    ensures Flat(Replaced(b, i, j, e)) == Pre(b, i, j) + [e] + Post(b, i, j + 1)
  {
    ConcatAt(b, i, b[i][j := e]);
    assert b[i][j := e] == b[i][..j] + [e] + b[i][j + 1..];
  }

  lemma FlatInserted(b: Buckets, i: nat, e: Entry)
    requires i < |b|
    ensures Flat(Inserted(b, i, e)) == Pre(b, i, 0) + [e] + Post(b, i, 0)
    ensures Flat(b) == Pre(b, i, 0) + Post(b, i, 0)
  {
    ConcatAt(b, i, [e] + b[i]);
    assert b[i][..0] == [] && b[i][0..] == b[i];
  }

  lemma StampsWithout(pre: seq<Entry>, e: Entry, post: seq<Entry>, clock: nat)
    requires Stamps(pre + [e] + post, clock)
    ensures Stamps(pre + post, clock)
  {
    var with, without := pre + [e] + post, pre + post;
    assert forall i | 0 <= i < |without| :: without[i] == with[if i < |pre| then i else i + 1];
    assert forall x | x in without :: x in with;
  }

  lemma StampsFresh(pre: seq<Entry>, e: Entry, post: seq<Entry>, clock: nat)
    requires Stamps(pre + post, clock) && e.stamp == clock + 1
    ensures Stamps(pre + [e] + post, clock + 1)
  {
    var with, without := pre + [e] + post, pre + post;
    assert forall i | 0 <= i < |with| && i != |pre| :: with[i] == without[if i < |pre| then i else i - 1];
    assert forall i | 0 <= i < |without| :: without[i] in without;
    assert with[|pre|] == e;
  }

  lemma StampsKept(pre: seq<Entry>, e: Entry, e': Entry, post: seq<Entry>, clock: nat)
    requires Stamps(pre + [e] + post, clock) && e'.stamp == e.stamp
    ensures Stamps(pre + [e'] + post, clock)
  {
    var s, s' := pre + [e] + post, pre + [e'] + post;
    assert forall i | 0 <= i < |s| :: s'[i].stamp == s[i].stamp && s[i] in s;
  }

  /** expire_and_delete_unlocked on the table. */
  lemma AfterRemove(b: Buckets, hash: Hash, clock: nat, i: nat, j: nat)
    requires TableInv(b, hash, clock) && i < |b| && j < |b[i]|
    ensures var b' := Removed(b, i, j);
            && TableInv(b', hash, clock)
            && ItemsIn(b') == ItemsIn(b) - {b[i][j].key}
            && |Flat(b')| == |Flat(b)| - 1
            && Bytes(Flat(b')) == Bytes(Flat(b)) - EntryBytes(b[i][j])
  {
    hide EntryInv, EntryBytes, Bytes, MapOf, Unique, Stamps, Concat, ItemOf;
    var e, pre, post := b[i][j], Pre(b, i, j), Post(b, i, j + 1);
    FlatAround(b, i, j);
    FlatRemoved(b, i, j);
    BytesAround(pre, e, post);
    BytesAppend(pre, post);
    MapOfAround(pre, e, post);
    StampsWithout(pre, e, post, clock);
    assert forall x | x in pre + post :: x in pre + [e] + post;
    assert forall k, x | 0 <= k < |b| && x in Removed(b, i, j)[k] :: x in b[k];
    hide Pre, Post;
  }

  lemma AfterReplace(b: Buckets, hash: Hash, clock: nat, i: nat, j: nat, e': Entry, clock': nat)
    requires TableInv(b, hash, clock) && i < |b| && j < |b[i]|
    requires e'.key == b[i][j].key && EntryInv(e', hash)
    requires (clock' == clock && e'.stamp == b[i][j].stamp) || (clock' == clock + 1 == e'.stamp)
    ensures var b' := Replaced(b, i, j, e');
            && TableInv(b', hash, clock')
            && ItemsIn(b') == ItemsIn(b)[e'.key := ItemOf(e')]
            && |Flat(b')| == |Flat(b)|
            && Bytes(Flat(b')) == Bytes(Flat(b)) - EntryBytes(b[i][j]) + EntryBytes(e')
  {
    hide EntryInv, EntryBytes, Bytes, MapOf, Unique, Stamps, Concat, ItemOf;
    var e, pre, post := b[i][j], Pre(b, i, j), Post(b, i, j + 1);
    FlatAround(b, i, j);
    FlatReplaced(b, i, j, e');
    BytesAround(pre, e, post);
    BytesAround(pre, e', post);
    UniqueAround(pre, e, post);
    UniqueAround(pre, e', post);
    MapOfAround(pre, e, post);
    MapOfAround(pre, e', post);
    if clock' == clock {
      StampsKept(pre, e, e', post, clock);
    } else {
      StampsWithout(pre, e, post, clock);
      StampsFresh(pre, e', post, clock);
    }
    assert forall x | x in pre + [e'] + post :: x == e' || x in pre + [e] + post;
    assert forall k, x | 0 <= k < |b| && x in Replaced(b, i, j, e')[k] :: x in b[k] || (x == e' && k == i);
    assert e in b[i];
    hide Pre, Post;
  }

  lemma Restamped(e: Entry, stamp: nat, hash: Hash)
    ensures EntryInv(e, hash) ==> EntryInv(e.(stamp := stamp), hash)
    ensures EntryBytes(e.(stamp := stamp)) == EntryBytes(e)
    ensures ItemOf(e.(stamp := stamp)) == ItemOf(e)
  {
  }

  lemma AfterTouch(b: Buckets, hash: Hash, clock: nat, i: nat, j: nat)
    requires TableInv(b, hash, clock) && i < |b| && j < |b[i]|
    ensures var e' := b[i][j].(stamp := clock + 1);
            var b' := Replaced(b, i, j, e');
            && TableInv(b', hash, clock + 1)
            && ItemsIn(b') == ItemsIn(b)
            && |Flat(b')| == |Flat(b)|
            && Bytes(Flat(b')) == Bytes(Flat(b))
            && EntryInv(e', hash) && ItemOf(e') == ItemOf(b[i][j])
  {
    hide TableInv, Flat, Bytes, EntryInv, ItemsIn, EntryBytes, ItemOf;
    LookupFound(b, hash, clock, i, j);
    Restamped(b[i][j], clock + 1, hash);
    AfterReplace(b, hash, clock, i, j, b[i][j].(stamp := clock + 1), clock + 1);
  }

  lemma AfterInsert(b: Buckets, hash: Hash, clock: nat, i: nat, e: Entry)
    requires TableInv(b, hash, clock) && i < |b|
    requires i == hash(e.key) % |b| && e.key !in ItemsIn(b)
    requires EntryInv(e, hash) && e.stamp == clock + 1
    ensures var b' := Inserted(b, i, e);
            && TableInv(b', hash, clock + 1)
            && ItemsIn(b') == ItemsIn(b)[e.key := ItemOf(e)]
            && |Flat(b')| == |Flat(b)| + 1
            && Bytes(Flat(b')) == Bytes(Flat(b)) + EntryBytes(e)
  {
    hide EntryInv, EntryBytes, Bytes, MapOf, Unique, Stamps, Concat, ItemOf;
    var pre, post := Pre(b, i, 0), Post(b, i, 0);
    FlatInserted(b, i, e);
    BytesAround(pre, e, post);
    BytesAppend(pre, post);
    MapOfSpec(pre + post);
    UniqueAround(pre, e, post);
    MapOfAround(pre, e, post);
    StampsFresh(pre, e, post, clock);
    assert forall x | x in pre + [e] + post :: x == e || x in pre + post;
    assert forall k, x | 0 <= k < |b| && x in Inserted(b, i, e)[k] :: x in b[k] || (x == e && k == i);
    hide Pre, Post;
  }

  // ----- Rearranging the same entries -----

  lemma PeelFirst(es: seq<Entry>, fs: seq<Entry>) returns (pre: seq<Entry>, post: seq<Entry>)
    requires es != [] && multiset(es) == multiset(fs)
    ensures fs == pre + [es[0]] + post
    ensures multiset(es[1..]) == multiset(pre + post)
  {
    var e := es[0];
    assert es == [e] + es[1..];
    assert multiset(es) == multiset{e} + multiset(es[1..]);
    assert e in multiset(fs);
    var i :| 0 <= i < |fs| && fs[i] == e;
    pre, post := fs[..i], fs[i + 1..];
    assert fs == pre + [e] + post;
    assert multiset(fs) == multiset(pre) + multiset{e} + multiset(post);
    assert multiset(pre + post) == multiset(pre) + multiset(post);
    assert multiset(pre + post) == multiset(fs) - multiset{e};
    assert multiset(es[1..]) == multiset(fs) - multiset{e};
  }

  lemma {:induction false} PermutationBytes(es: seq<Entry>, fs: seq<Entry>)
    requires multiset(es) == multiset(fs)
    ensures Bytes(es) == Bytes(fs) && |es| == |fs|
    decreases |es|
  {
    hide EntryBytes;
    if es == [] {
      assert |multiset(fs)| == 0;
    } else {
      var pre, post := PeelFirst(es, fs);
      PermutationBytes(es[1..], pre + post);
      BytesAround(pre, es[0], post);
      BytesAppend(pre, post);
    }
  }

  lemma SameKeys(es: seq<Entry>, fs: seq<Entry>)
    requires multiset(es) == multiset(fs)
    ensures forall x :: x in es <==> x in fs
    ensures Keys(es) == Keys(fs)
  {
    assert forall x :: x in es <==> x in multiset(es);
    assert forall x :: x in fs <==> x in multiset(fs);
  }

  lemma {:induction false} PermutationUnique(es: seq<Entry>, fs: seq<Entry>)
    requires multiset(es) == multiset(fs) && Unique(es)
    ensures Unique(fs)
    decreases |es|
  {
    if es == [] {
      assert |multiset(fs)| == 0;
    } else {
      var e := es[0];
      var pre, post := PeelFirst(es, fs);
      assert es == [] + [e] + es[1..] && [] + es[1..] == es[1..];
      UniqueAround([], e, es[1..]);
      hide Unique, Keys;
      PermutationUnique(es[1..], pre + post);
      SameKeys(es[1..], pre + post);
      UniqueAround(pre, e, post);
    }
  }

  /** Rearranging entries changes neither the map, nor the bytes, nor the stamps. */
  lemma PermutationKeeps(es: seq<Entry>, fs: seq<Entry>, hash: Hash, clock: nat)
    requires multiset(es) == multiset(fs)
    requires Unique(es) && Stamps(es, clock) && AllEntryInv(es, hash)
    ensures Unique(fs) && Stamps(fs, clock) && AllEntryInv(fs, hash)
    ensures MapOf(fs) == MapOf(es) && Bytes(fs) == Bytes(es) && |fs| == |es|
  {
    hide EntryInv, MapOf, Bytes;
    PermutationBytes(es, fs);
    PermutationUnique(es, fs);
    SameKeys(es, fs);
    MapOfSame(es, fs);
    forall i, j | 0 <= i < j < |fs|
      ensures fs[i].stamp != fs[j].stamp
    {
      assert fs[i] in es && fs[j] in es && fs[i].key != fs[j].key;
    }
  }

  /** Moving one entry from the front of what is left into the new table. */
  lemma MoveKeepsEntries(b: Buckets, i: nat, e: Entry, rest: seq<Entry>)
    requires i < |b|
    ensures multiset(Flat(Inserted(b, i, e))) + multiset(rest) == multiset(Flat(b)) + multiset([e] + rest)
  {
    hide Concat;
    FlatInserted(b, i, e);
  }

  lemma {:induction false} ConcatEmpty<T>(xss: seq<seq<T>>)
    requires forall i | 0 <= i < |xss| :: xss[i] == []
    ensures Concat(xss) == []
  {
    if xss != [] {
      ConcatEmpty(xss[1..]);
    }
  }

  lemma {:induction false} EmptyFlat(b: Buckets)
    requires forall i | 0 <= i < |b| :: b[i] == []
    ensures Flat(b) == []
  {
    if b != [] {
      EmptyFlat(b[1..]);
    }
  }
}
