/** Which entries kv_evict_lru_unlocked takes (src/eviction.c), and what a whole eviction loop can
    and cannot take: never more than it has to, and the newest entry only when it is alone. */
module Eviction {
  import opened Common
  import opened Spec
  import opened Table
  import opened Payloads

  /** The best victim found so far by kv_evict_lru_unlocked. */
  datatype Candidate = Nobody | Somebody(i: nat, j: nat)

  /** `c` is the least recently used entry of the buckets in `seen`. */
  ghost predicate Oldest(b: Buckets, seen: set<nat>, c: Candidate, min: nat) {
    && (forall s | s in seen :: s < |b|)
    && match c
       case Nobody => min == UINT64_MAX && forall s | s in seen :: b[s] == []
       case Somebody(i, j) =>
         && i in seen && j < |b[i]| && b[i][j].stamp == min
         && forall s, e | s in seen && e in b[s] :: min <= e.stamp
  }

  const SAMPLE_DRAWS: nat := 64
  const SAMPLE_HITS: nat := 16

  /** The non-empty buckets hit by the generator's values `draws`, until 16 draws have hit. */
  ghost function Sample(b: Buckets, draws: seq<nat>, hits: nat): set<nat>
    requires |b| > 0
  {
    if draws == [] || hits >= SAMPLE_HITS then {}
    else
      var i := draws[0] % |b|;
      if b[i] == [] then Sample(b, draws[1..], hits) else {i} + Sample(b, draws[1..], hits + 1)
  }

  /** How many of the generator's values that takes. */
  ghost function SampleLength(b: Buckets, draws: seq<nat>, hits: nat): nat
    requires |b| > 0
  {
    if draws == [] || hits >= SAMPLE_HITS then 0
    else 1 + SampleLength(b, draws[1..], if b[draws[0] % |b|] == [] then hits else hits + 1)
  }

  predicate IsBucket(b: Buckets, k: nat) {
    k < |b|
  }

  /** The buckets the victim is chosen from: the sampled ones, or all if sampling hit nothing. */
  ghost function Considered(b: Buckets, draws: seq<nat>): set<nat>
    requires |b| > 0
  {
    var sampled := Sample(b, draws, 0);
    if sampled == {} then set k | 0 <= k < |b| && IsBucket(b, k) else sampled
  }

  /** `e` is the one least recently used entry of the buckets in `seen`. */
  ghost predicate LeastRecent(b: Buckets, seen: set<nat>, e: Entry) {
    && (exists s :: s in seen && 0 <= s < |b| && e in b[s])
    && (forall s, x | s in seen && 0 <= s < |b| && x in b[s] && x != e :: e.stamp < x.stamp)
  }

  /** Whatever is in `after` was in `before`. */
  ghost predicate Within(after: Buckets, before: Buckets) {
    forall e | e in Flat(after) :: e in Flat(before)
  }

  /** If anything is gone, then one of the entries gone was larger than `room`: had it stayed,
      there would not have been enough. */
  ghost predicate Pressed(before: Buckets, gone: set<bytes>, room: int) {
    gone != {} ==> exists e :: e in Flat(before) && e.key in gone && EntryBytes(e) > room
  }

  /** What a budget leaves once `alloc` bytes are in use and `need` more are asked for. */
  function Spare(budget: nat, alloc: nat, need: nat): int {
    budget - alloc - need
  }

  lemma PressedBy(before: Buckets, gone: set<bytes>, room: int, e: Entry)
    requires e in Flat(before) && e.key in gone && EntryBytes(e) > room
    ensures Pressed(before, gone, room)
  {
  }

  lemma PressedLess(before: Buckets, gone: set<bytes>, room: int, room': int)
    requires Pressed(before, gone, room)
    ensures (gone != {} ==> room' <= room) ==> Pressed(before, gone, room')
  {
  }

  lemma PressedStill(before: Buckets, gone: set<bytes>, room: int, before': Buckets, gone': set<bytes>, room': int)
    requires Pressed(before, gone, room) && Within(before, before') && room' <= room
    requires gone <= gone' && (gone == {} ==> gone' == {})
    ensures Pressed(before', gone', room')
  {
    hide Flat, EntryBytes;
  }

  /** Two rounds of eviction, the second starting from `mid`. */
  lemma PressedTwice(before: Buckets, gone: set<bytes>, room: int, mid: Buckets, more: set<bytes>, room': int)
    requires Pressed(before, gone, room) && Within(mid, before) && Pressed(mid, more, room')
    requires more == {} ==> room' == room
    ensures Pressed(before, gone + more, room')
  {
    hide Flat, EntryBytes;
    if more == {} {
      assert gone + more == gone;
    }
  }

  lemma WithinRemoved(b: Buckets, i: nat, j: nat)
    requires i < |b| && j < |b[i]|
    ensures Within(Removed(b, i, j), b) && b[i][j] in Flat(b)
  {
    hide Concat;
    FlatAround(b, i, j);
    FlatRemoved(b, i, j);
    hide Pre, Post;
  }

  lemma WithinTrans(c: Buckets, b: Buckets, a: Buckets)
    requires Within(c, b) && Within(b, a)
    ensures Within(c, a)
  {
    hide Flat;
  }

  lemma InWithin(e: Entry, b: Buckets, a: Buckets)
    requires e in Flat(b) && Within(b, a)
    ensures e in Flat(a)
  {
    hide Flat;
  }

  lemma NothingPressed(b: Buckets, room: int)
    ensures Pressed(b, {}, room)
  {
  }

  lemma PermutationWithin(c: Buckets, b: Buckets)
    requires multiset(Flat(c)) == multiset(Flat(b))
    ensures Within(c, b)
  {
    hide Flat;
    forall e | e in Flat(c)
      ensures e in Flat(b)
    {
      assert e in multiset(Flat(c));
    }
  }

  lemma WithinItself(b: Buckets)
    ensures Within(b, b)
  {
    hide Flat;
  }

  // ----- The generator -----

  /** The values the next 64 calls of the generator give. */
  ghost function Draws(rng: nat -> nat, at: nat): (draws: seq<nat>)
    ensures |draws| == SAMPLE_DRAWS
  {
    seq(SAMPLE_DRAWS, (k: nat) => rng(at + k))
  }

  /** Every value of the generator selects bucket `i` of `n`. */
  ghost predicate Hits(rng: nat -> nat, n: nat, i: nat)
    requires n > 0
  {
    forall k: nat :: rng(k) % n == i
  }

  lemma {:induction false} SampleHits(b: Buckets, draws: seq<nat>, hits: nat, i: nat)
    requires i < |b| && b[i] != [] && forall d | d in draws :: d % |b| == i
    ensures Sample(b, draws, hits) == if draws == [] || hits >= SAMPLE_HITS then {} else {i}
    decreases |draws|
  {
    if draws != [] && hits < SAMPLE_HITS {
      assert draws[0] in draws && forall d | d in draws[1..] :: d in draws;
      SampleHits(b, draws[1..], hits + 1, i);
    }
  }

  lemma SampleStep(b: Buckets, draws: seq<nat>, k: nat, hits: nat)
    requires |b| > 0 && k <= |draws|
    ensures k == |draws| || hits >= SAMPLE_HITS ==> Sample(b, draws[k..], hits) == {}
    ensures k < |draws| && hits < SAMPLE_HITS ==>
              var i := draws[k] % |b|;
              Sample(b, draws[k..], hits)
              == if b[i] == [] then Sample(b, draws[k + 1..], hits) else {i} + Sample(b, draws[k + 1..], hits + 1)
    ensures k == |draws| || hits >= SAMPLE_HITS ==> SampleLength(b, draws[k..], hits) == 0
    ensures k < |draws| && hits < SAMPLE_HITS ==>
              var hits' := if b[draws[k] % |b|] == [] then hits else hits + 1;
              SampleLength(b, draws[k..], hits) == 1 + SampleLength(b, draws[k + 1..], hits')
  {
    assert k < |draws| ==> draws[k..][0] == draws[k] && draws[k..][1..] == draws[k + 1..];
  }

  lemma HitsConsidered(b: Buckets, rng: nat -> nat, at: nat, i: nat)
    requires i < |b| && b[i] != [] && Hits(rng, |b|, i)
    ensures Considered(b, Draws(rng, at)) == {i}
  {
    var draws := Draws(rng, at);
    assert forall d | d in draws :: d % |b| == i by {
      forall d | d in draws
        ensures d % |b| == i
      {
        var k :| 0 <= k < |draws| && draws[k] == d;
      }
    }
    SampleHits(b, draws, 0, i);
  }

  lemma AllConsidered(b: Buckets, draws: seq<nat>, all: set<nat>)
    requires |b| > 0 && Sample(b, draws, 0) == {}
    requires (forall k | 0 <= k < |b| :: k in all) && forall k | k in all :: k < |b|
    ensures Considered(b, draws) == all
  {
  }

  // ----- A whole eviction loop -----

  /** kv_evict_lru_unlocked on `b`, the generator having been asked `at` times: the entry under `key`
      is taken, the least recently used one of the buckets considered. */
  ghost predicate EvictStep(b: Buckets, at: nat, rng: nat -> nat, b': Buckets, at': nat, key: bytes) {
    && |b| > 0
    && (exists s, j :: 0 <= s < |b| && 0 <= j < |b[s]| && TakenFrom(b, at, rng, b', key, s, j))
    && at' == at + SampleLength(b, Draws(rng, at), 0)
  }

  ghost predicate TakenFrom(b: Buckets, at: nat, rng: nat -> nat, b': Buckets, key: bytes, s: nat, j: nat)
    requires s < |b| && j < |b[s]|
  {
    var seen := Considered(b, Draws(rng, at));
    b' == Removed(b, s, j) && b[s][j].key == key && s in seen && LeastRecent(b, seen, b[s][j])
  }

  /** `n` evictions in a row take `b` to `b'`, and the keys in `gone` with them. */
  ghost predicate Evictions(b: Buckets, at: nat, rng: nat -> nat, b': Buckets, at': nat, gone: set<bytes>, n: nat)
    decreases n
  {
    if n == 0 then b' == b && at' == at && gone == {}
    else
      exists m, t, g, key :: Evictions(b, at, rng, m, t, g, n - 1) && EvictStep(m, t, rng, b', at', key)
                             && gone == g + {key}
  }

  ghost predicate Evicted(b: Buckets, at: nat, rng: nat -> nat, b': Buckets, at': nat, gone: set<bytes>) {
    exists n: nat :: Evictions(b, at, rng, b', at', gone, n)
  }

  lemma NothingEvicted(b: Buckets, at: nat, rng: nat -> nat)
    ensures Evicted(b, at, rng, b, at, {})
  {
    assert Evictions(b, at, rng, b, at, {}, 0);
  }

  lemma EvictedOneMore(b: Buckets, at: nat, rng: nat -> nat, m: Buckets, t: nat, g: set<bytes>,
                       b': Buckets, at': nat, key: bytes)
    requires Evicted(b, at, rng, m, t, g) && EvictStep(m, t, rng, b', at', key)
    ensures Evicted(b, at, rng, b', at', g + {key})
  {
    hide EvictStep;
    var n: nat :| Evictions(b, at, rng, m, t, g, n);
    assert Evictions(b, at, rng, b', at', g + {key}, n + 1);
  }

  predicate In(b: Buckets, i: nat, e: Entry) {
    i < |b| && e in b[i]
  }

  /** Bucket by bucket nothing is added, and what is not gone is still there. */
  ghost predicate Thinned(b: Buckets, b': Buckets, gone: set<bytes>) {
    |b'| == |b| && forall i: nat, e: Entry :: In(b', i, e) <==> In(b, i, e) && e.key !in gone
  }

  /** Bucket by bucket nothing is added. */
  ghost predicate Thinner(b': Buckets, b: Buckets) {
    |b'| == |b| && forall i: nat, e: Entry :: In(b', i, e) ==> In(b, i, e)
  }

  lemma ThinnerItself(b: Buckets)
    ensures Thinner(b, b)
  {
  }

  lemma ThinnerTrans(c: Buckets, b: Buckets, a: Buckets)
    requires Thinner(c, b) && Thinner(b, a)
    ensures Thinner(c, a)
  {
    hide In;
  }

  lemma ThinnerRemoved(b: Buckets, s: nat, j: nat)
    requires s < |b| && j < |b[s]|
    ensures Thinner(Removed(b, s, j), b)
  {
  }

  lemma Somewhere(b: Buckets, e: Entry) returns (i: nat)
    requires e in Flat(b)
    ensures In(b, i, e)
  {
    InConcat(b, e);
    i :| 0 <= i < |b| && e in b[i];
  }

  lemma ThinnerIsWithin(b': Buckets, b: Buckets)
    requires Thinner(b', b)
    ensures Within(b', b)
  {
    hide Flat;
    forall e | e in Flat(b')
      ensures e in Flat(b)
    {
      var i := Somewhere(b', e);
      assert In(b, i, e);
      InFlat(b, i, e);
    }
  }

  /** Of two entries of one bucket, if one is gone and the other is not, it was used before it. */
  ghost predicate OldestGone(b: Buckets, gone: set<bytes>) {
    forall i: nat, e: Entry, f: Entry | In(b, i, e) && In(b, i, f) && e.key in gone && f.key !in gone ::
      e.stamp < f.stamp
  }

  /** No key is in two places. */
  ghost predicate OneEach(b: Buckets) {
    && (forall i: nat, j: nat, e: Entry, f: Entry | In(b, i, e) && In(b, j, f) && e.key == f.key :: i == j && e == f)
    && (forall i | 0 <= i < |b| :: Unique(b[i]))
  }

  lemma ChainRemoved(c: Chain, j: nat)
    requires j < |c| && Unique(c)
    ensures var c' := c[..j] + c[j + 1..]; Unique(c') && forall e :: e in c' <==> e in c && e.key != c[j].key
  {
    var c' := c[..j] + c[j + 1..];
    assert forall k | 0 <= k < |c'| :: c'[k] == c[if k < j then k else k + 1];
    forall e | e in c && e.key != c[j].key
      ensures e in c'
    {
      var k :| 0 <= k < |c| && c[k] == e;
      assert c'[if k < j then k else k - 1] == e;
    }
  }

  lemma RemovedIsThinned(b: Buckets, s: nat, j: nat)
    requires s < |b| && j < |b[s]| && OneEach(b)
    ensures Thinned(b, Removed(b, s, j), {b[s][j].key}) && OneEach(Removed(b, s, j))
  {
    hide Unique;
    var b', v := Removed(b, s, j), b[s][j];
    ChainRemoved(b[s], j);
    assert In(b, s, v);
    forall i: nat, e: Entry
      ensures In(b', i, e) <==> In(b, i, e) && e.key != v.key
    {
      if i == s {
        assert b'[s] == b[s][..j] + b[s][j + 1..];
      }
    }
  }

  lemma ThinnedTrans(c: Buckets, b: Buckets, a: Buckets, gone: set<bytes>, key: bytes)
    requires Thinned(a, b, gone) && Thinned(b, c, {key})
    ensures Thinned(a, c, gone + {key})
  {
    hide In;
  }

  /** What eviction loops take, and in which order within a bucket. */
  lemma {:induction false} EvictionsInOrder(b: Buckets, at: nat, rng: nat -> nat, b': Buckets, at': nat,
                                            gone: set<bytes>, n: nat)
    requires Evictions(b, at, rng, b', at', gone, n) && OneEach(b)
    ensures Thinned(b, b', gone) && OneEach(b') && OldestGone(b, gone)
    decreases n
  {
    hide LeastRecent, OneEach, Thinned, OldestGone;
    if n == 0 {
      ThinnedItself(b);
    } else {
      var m, t, g, key :| Evictions(b, at, rng, m, t, g, n - 1) && EvictStep(m, t, rng, b', at', key)
                          && gone == g + {key};
      EvictionsInOrder(b, at, rng, m, t, g, n - 1);
      var s, j :| 0 <= s < |m| && 0 <= j < |m[s]| && TakenFrom(m, t, rng, b', key, s, j);
      RemovedIsThinned(m, s, j);
      ThinnedTrans(b', m, b, g, key);
      OldestOneMore(b, m, g, s, j, Considered(m, Draws(rng, t)));
    }
  }

  lemma ThinnedItself(b: Buckets)
    ensures Thinned(b, b, {}) && OldestGone(b, {})
  {
  }

  lemma OldestOneMore(b: Buckets, m: Buckets, g: set<bytes>, s: nat, j: nat, seen: set<nat>)
    requires OneEach(b) && Thinned(b, m, g) && OldestGone(b, g)
    requires s < |m| && j < |m[s]| && s in seen && LeastRecent(m, seen, m[s][j])
    ensures OldestGone(b, g + {m[s][j].key})
  {
    var v := m[s][j];
    assert In(m, s, v);
    forall i: nat, e: Entry, f: Entry | In(b, i, e) && In(b, i, f) && e.key in g + {v.key} && f.key !in g + {v.key}
      ensures e.stamp < f.stamp
    {
      if e.key !in g {
        assert In(b, s, v) && e == v && i == s;
        assert In(m, s, f) && f != v;
      }
    }
  }

  // ----- The newest entry in an eviction loop -----

  /** The bytes of the entries of a chain under other keys. */
  function MateBytes(c: Chain, key: bytes): nat {
    if c == [] then 0 else (if c[0].key == key then 0 else EntryBytes(c[0])) + MateBytes(c[1..], key)
  }

  lemma {:induction false} MateAppend(c: Chain, d: Chain, key: bytes)
    ensures MateBytes(c + d, key) == MateBytes(c, key) + MateBytes(d, key)
  {
    hide EntryBytes;
    if c == [] {
      assert c + d == d;
    } else {
      assert (c + d)[1..] == c[1..] + d;
      MateAppend(c[1..], d, key);
    }
  }

  lemma MateOne(e: Entry, key: bytes)
    ensures MateBytes([e], key) == if e.key == key then 0 else EntryBytes(e)
  {
    assert [e][1..] == [];
  }

  /** Whatever happens at one place of a chain under `key` leaves the others alone. */
  lemma MateAround(pre: Chain, e: Entry, post: Chain, key: bytes)
    ensures e.key == key ==> MateBytes(pre + [e] + post, key) == MateBytes(pre + post, key)
  {
    MateAppend(pre + [e], post, key);
    MateAppend(pre, [e], key);
    MateAppend(pre, post, key);
    MateOne(e, key);
  }

  lemma {:induction false} NoMates(c: Chain, key: bytes)
    requires forall e | e in c :: e.key != key
    ensures MateBytes(c, key) == Bytes(c)
  {
    if c != [] {
      NoMates(c[1..], key);
    }
  }

  lemma OthersDiffer(c: Chain, j: nat)
    requires Unique(c) && j < |c|
    ensures forall x | x in c[..j] + c[j + 1..] :: x.key != c[j].key
  {
    var rest := c[..j] + c[j + 1..];
    assert forall k | 0 <= k < |rest| :: rest[k] == c[if k < j then k else k + 1];
  }

  /** The bytes of a chain are those of an entry and of its mates. */
  lemma MateSplit(c: Chain, e: Entry)
    requires Unique(c) && e in c
    ensures Bytes(c) == MateBytes(c, e.key) + EntryBytes(e)
  {
    hide EntryBytes, Bytes, MateBytes, Unique;
    var j :| 0 <= j < |c| && c[j] == e;
    var pre, post := c[..j], c[j + 1..];
    assert c == pre + [e] + post;
    MateAround(pre, e, post, e.key);
    OthersDiffer(c, j);
    NoMates(pre + post, e.key);
    BytesAround(pre, e, post);
    BytesAppend(pre, post);
  }

  /** The bytes of every other bucket. */
  function RestBytes(b: Buckets, i: nat): nat
    requires i < |b|
  {
    Bytes(Concat(b[..i])) + Bytes(Concat(b[i + 1..]))
  }

  lemma RestAndBucket(b: Buckets, i: nat)
    requires i < |b|
    ensures Bytes(Flat(b)) == RestBytes(b, i) + Bytes(b[i])
  {
    hide Bytes, Concat;
    ConcatAt(b, i, b[i]);
    BytesAppend(Concat(b[..i]) + b[i], Concat(b[i + 1..]));
    BytesAppend(Concat(b[..i]), b[i]);
  }

  lemma RestRemoved(b: Buckets, s: nat, j: nat, i: nat)
    requires s < |b| && j < |b[s]| && i < |b|
    ensures RestBytes(Removed(b, s, j), i) <= RestBytes(b, i)
    ensures s == i ==> RestBytes(Removed(b, s, j), i) == RestBytes(b, i)
  {
    hide Bytes, Concat, EntryBytes;
    var b' := Removed(b, s, j);
    if s == i {
      assert b'[..i] == b[..i] && b'[i + 1..] == b[i + 1..];
    } else {
      RestAndBucket(b, i);
      RestAndBucket(b', i);
      FlatAround(b, s, j);
      FlatRemoved(b, s, j);
      BytesAround(Pre(b, s, j), b[s][j], Post(b, s, j + 1));
      BytesAppend(Pre(b, s, j), Post(b, s, j + 1));
    }
  }

  lemma BucketUnique(b: Buckets, i: nat)
    requires i < |b| && Unique(Flat(b))
    ensures Unique(b[i]) && forall e | e in b[i] :: e in Flat(b)
  {
    hide Concat;
    var pre := Concat(b[..i]);
    ConcatAt(b, i, b[i]);
    forall k | 0 <= k < |b[i]|
      ensures Flat(b)[|pre| + k] == b[i][k]
    {
    }
  }

  /** `e` is in bucket `i` and was used after every other entry. */
  ghost predicate NewestIn(b: Buckets, i: nat, e: Entry) {
    i < |b| && e in b[i] && forall x | x in Flat(b) && x != e :: x.stamp < e.stamp
  }

  /** Of `alloc` bytes in use, those that are not of the entries under other keys in the bucket `c`. */
  function Beside(c: Chain, key: bytes, alloc: int): int {
    alloc - MateBytes(c, key)
  }

  /** Bucket `i` reduced to the entry under `key` would still leave too little room. */
  ghost predicate Crowded(b: Buckets, i: nat, key: bytes, alloc: int, need: nat, budget: nat)
    requires i < |b|
  {
    Beside(b[i], key, alloc) + need > budget
  }

  /** What stays true of the newest entry `e` through an eviction loop that started from `b0`. */
  ghost predicate Tracks(b0: Buckets, b: Buckets, gone: set<bytes>, e: Entry, i: nat, hits: bool, tight: bool) {
    && |b| == |b0| && i < |b| && RestBytes(b, i) <= RestBytes(b0, i)
    && Bytes(b0[i]) == MateBytes(b0[i], e.key) + EntryBytes(e)
    && (e.key !in gone ==> NewestIn(b, i, e) && (hits ==> RestBytes(b, i) == RestBytes(b0, i)))
    && (e.key in gone ==> tight)
  }

  lemma TracksStart(b: Buckets, e: Entry, i: nat, hits: bool, tight: bool)
    requires NewestIn(b, i, e) && Unique(Flat(b))
    ensures Tracks(b, b, {}, e, i, hits, tight)
  {
    hide Bytes, EntryBytes, RestBytes, Flat;
    BucketUnique(b, i);
    MateSplit(b[i], e);
  }

  /** The newest entry is a victim only when nothing else is left in its bucket. */
  lemma AloneInBucket(b: Buckets, seen: set<nat>, i: nat, e: Entry)
    requires NewestIn(b, i, e) && i in seen && LeastRecent(b, seen, e) && Unique(Flat(b))
    ensures Bytes(b[i]) == EntryBytes(e)
  {
    hide EntryBytes, Flat;
    BucketUnique(b, i);
    assert forall k | 0 <= k < |b[i]| :: b[i][k] == e by {
      forall k | 0 <= k < |b[i]|
        ensures b[i][k] == e
      {
        assert b[i][k] in b[i];
      }
    }
    assert |b[i]| >= 2 ==> b[i][0].key != b[i][1].key;
    assert b[i] == [e];
    BytesAround([], e, []);
    assert [] + [e] + [] == [e];
  }

  lemma TracksStep(b0: Buckets, b: Buckets, gone: set<bytes>, e: Entry, i: nat, hits: bool, tight: bool,
                   s: nat, j: nat, seen: set<nat>, base: nat, need: nat, budget: nat, hash: Hash)
    requires Tracks(b0, b, gone, e, i, hits, tight) && Unique(Flat(b)) && Placed(b, hash) && i == hash(e.key) % |b|
    requires s < |b| && j < |b[s]| && s in seen && LeastRecent(b, seen, b[s][j])
    requires hits && b[i] != [] ==> seen == {i}
    requires base + Bytes(Flat(b)) + need > budget
    requires tight == Crowded(b0, i, e.key, base + Bytes(Flat(b0)), need, budget)
    ensures Tracks(b0, Removed(b, s, j), gone + {b[s][j].key}, e, i, hits, tight)
  {
    hide Bytes, EntryBytes, RestBytes, Flat, MateBytes, LeastRecent, Placed;
    var v := b[s][j];
    RestRemoved(b, s, j, i);
    if e.key !in gone {
      if v == e {
        PlacedAt(b, hash, s, j);
        AloneInBucket(b, seen, i, e);
        RestAndBucket(b, i);
        RestAndBucket(b0, i);
      } else {
        StaysNewest(b, i, e, s, j);
      }
    }
  }

  lemma PlacedAt(b: Buckets, hash: Hash, s: nat, j: nat)
    requires |b| > 0 && Placed(b, hash) && s < |b| && j < |b[s]|
    ensures hash(b[s][j].key) % |b| == s
  {
  }

  lemma StaysNewest(b: Buckets, i: nat, e: Entry, s: nat, j: nat)
    requires NewestIn(b, i, e) && Unique(Flat(b)) && s < |b| && j < |b[s]| && b[s][j] != e
    ensures NewestIn(Removed(b, s, j), i, e) && b[s][j].key != e.key
  {
    hide Flat, Unique;
    WithinRemoved(b, s, j);
    InFlat(b, i, e);
    DifferentKeys(Flat(b), e, b[s][j]);
    if s == i {
      var k :| 0 <= k < |b[i]| && b[i][k] == e;
      var rest := b[i][..j] + b[i][j + 1..];
      assert rest[if k < j then k else k - 1] == e;
    }
  }

  lemma InFlat(b: Buckets, i: nat, e: Entry)
    requires i < |b| && e in b[i]
    ensures e in Flat(b)
  {
    InConcat(b, e);
  }

  lemma DifferentKeys(es: seq<Entry>, e: Entry, v: Entry)
    requires Unique(es) && e in es && v in es && e != v
    ensures e.key != v.key
  {
  }

  lemma TracksEnd(b0: Buckets, b: Buckets, gone: set<bytes>, e: Entry, i: nat, hits: bool, tight: bool,
                  base: nat, need: nat, budget: nat)
    requires Tracks(b0, b, gone, e, i, hits, tight) && Unique(Flat(b))
    requires base + Bytes(Flat(b)) + need <= budget || Flat(b) == []
    requires tight == Crowded(b0, i, e.key, base + Bytes(Flat(b0)), need, budget)
    ensures (e.key in gone ==> tight) && (hits && tight ==> e.key in gone)
  {
    hide Bytes, EntryBytes, RestBytes, Flat, MateBytes;
    if e.key !in gone {
      InFlat(b, i, e);
      BucketUnique(b, i);
      MateSplit(b[i], e);
      RestAndBucket(b, i);
      RestAndBucket(b0, i);
    }
  }

  // ----- Opening the container of a push -----

  /** The same once the container under `key` is open: a live one is there already, an expired one
      is dropped for a new one of `overhead` bytes. */
  function OpenBeside(c: Chain, key: bytes, alloc: int, live: bool, overhead: nat): int {
    if live then Beside(c, key, alloc) else alloc - Bytes(c) + overhead
  }

  /** Since `b0` the buckets other than `i` have gained nothing, and lost nothing if `exact`. */
  ghost predicate Shrinks(b0: Buckets, b: Buckets, i: nat, exact: bool) {
    && |b| == |b0| && i < |b| && RestBytes(b, i) <= RestBytes(b0, i)
    && (exact ==> RestBytes(b, i) == RestBytes(b0, i))
  }

  lemma ShrinksItself(b: Buckets, i: nat, exact: bool)
    requires i < |b|
    ensures Shrinks(b, b, i, exact)
  {
  }

  /** An eviction loop that draws bucket `i` only leaves the others alone while emptying `i` will do. */
  lemma ShrinksStep(b0: Buckets, b: Buckets, i: nat, exact: bool, hits: bool,
                    s: nat, j: nat, seen: set<nat>, base: nat, need: nat, budget: nat)
    requires Shrinks(b0, b, i, exact) && s < |b| && j < |b[s]| && s in seen
    requires exact ==> hits && base + RestBytes(b0, i) + need <= budget
    requires hits && b[i] != [] ==> seen == {i}
    requires base + Bytes(Flat(b)) + need > budget
    ensures Shrinks(b0, Removed(b, s, j), i, exact)
  {
    hide EntryBytes, RestBytes, Flat;
    RestRemoved(b, s, j, i);
    RestAndBucket(b, i);
  }

  /** Whatever is in `after` under another key was in `before`. */
  ghost predicate WithinBut(after: Buckets, before: Buckets, key: bytes) {
    forall e | e in Flat(after) && e.key != key :: e in Flat(before)
  }

  lemma WithinButTrans(c: Buckets, b: Buckets, a: Buckets, key: bytes)
    requires WithinBut(c, b, key) && WithinBut(b, a, key)
    ensures WithinBut(c, a, key)
  {
    hide Flat;
  }

  lemma WithinIsBut(c: Buckets, b: Buckets, key: bytes)
    requires Within(c, b)
    ensures WithinBut(c, b, key)
  {
    hide Flat;
  }

  /** Two rounds of eviction, the second not touching `key`, with changes under `key` in between. */
  lemma PressedBeside(before: Buckets, gone: set<bytes>, room: int, mid: Buckets, more: set<bytes>, room': int,
                      key: bytes, room'': int)
    requires Pressed(before, gone, room) && WithinBut(mid, before, key) && Pressed(mid, more, room')
    requires key !in more && room'' <= room'
    requires more == {} ==> room'' <= room
    ensures Pressed(before, gone + more, room'')
  {
    hide Flat, EntryBytes;
    if more == {} {
      assert gone + more == gone;
    }
  }

  /** The two rounds of a push: opening the container, and making room for the node. */
  lemma PressedPush(before: Buckets, gone: set<bytes>, mid: Buckets, more: set<bytes>, key: bytes,
                    budget: nat, open: nat, alloc: nat, pushed: bool, node: nat, overhead: nat)
    requires Pressed(before, gone, Spare(budget, open, 0)) && WithinBut(mid, before, key)
    requires Pressed(mid, more, Spare(budget, alloc, if pushed then 0 else node))
    requires more == {} ==> alloc == open + if pushed then node else 0
    ensures key !in more ==> Pressed(before, gone + more, Spare(budget, alloc, if pushed then 0 else overhead + node))
  {
    hide Pressed, WithinBut;
    if key !in more {
      PressedBeside(before, gone, budget - open, mid, more, Spare(budget, alloc, if pushed then 0 else node), key,
                    Spare(budget, alloc, if pushed then 0 else overhead + node));
    }
  }

  lemma PressedOther(before: Buckets, mid: Buckets, gone: set<bytes>, key: bytes, room: int)
    requires Pressed(mid, gone, room) && WithinBut(mid, before, key) && key !in gone
    ensures Pressed(before, gone, room)
  {
    hide Flat, EntryBytes;
  }

  lemma BesideRemoved(b: Buckets, i: nat, j: nat)
    requires i < |b| && j < |b[i]|
    ensures MateBytes(Removed(b, i, j)[i], b[i][j].key) == MateBytes(b[i], b[i][j].key)
    ensures WithinBut(Removed(b, i, j), b, b[i][j].key)
  {
    hide MateBytes, Flat;
    WithinRemoved(b, i, j);
    WithinIsBut(Removed(b, i, j), b, b[i][j].key);
    assert b[i] == b[i][..j] + [b[i][j]] + b[i][j + 1..];
    MateAround(b[i][..j], b[i][j], b[i][j + 1..], b[i][j].key);
  }

  lemma BesideReplaced(b: Buckets, i: nat, j: nat, e: Entry)
    requires i < |b| && j < |b[i]| && e.key == b[i][j].key
    ensures MateBytes(Replaced(b, i, j, e)[i], e.key) == MateBytes(b[i], e.key)
    ensures WithinBut(Replaced(b, i, j, e), b, e.key)
  {
    hide MateBytes, Concat;
    var pre, post := b[i][..j], b[i][j + 1..];
    assert b[i] == pre + [b[i][j]] + post && b[i][j := e] == pre + [e] + post;
    MateAround(pre, b[i][j], post, e.key);
    MateAround(pre, e, post, e.key);
    FlatReplaced(b, i, j, e);
    FlatAround(b, i, j);
    hide Pre, Post;
  }

  lemma BesideInserted(b: Buckets, i: nat, e: Entry)
    requires i < |b|
    ensures MateBytes(Inserted(b, i, e)[i], e.key) == MateBytes(b[i], e.key)
    ensures WithinBut(Inserted(b, i, e), b, e.key)
  {
    hide MateBytes, Concat;
    MateAppend([e], b[i], e.key);
    MateOne(e, e.key);
    FlatInserted(b, i, e);
    hide Pre, Post;
  }

  // ----- Eviction as the rest of the store sees it -----

  /** Of two entries whose keys belong into one bucket of `n`, if one is gone and the other, not being
      the one under `key`, is not, it was used before it. */
  ghost predicate OldestFirst(b: Buckets, gone: set<bytes>, hash: Hash, n: nat, key: bytes)
    requires n > 0
  {
    forall e, f | e in Flat(b) && f in Flat(b) && e.key in gone && f.key !in gone && f.key != key
                  && hash(e.key) % n == hash(f.key) % n :: e.stamp < f.stamp
  }

  lemma TableOneEach(b: Buckets, hash: Hash)
    requires |b| > 0 && Unique(Flat(b)) && Placed(b, hash)
    ensures OneEach(b)
  {
    hide Flat, Unique;
    forall i | 0 <= i < |b|
      ensures Unique(b[i])
    {
      BucketUnique(b, i);
    }
    forall i: nat, j: nat, e: Entry, f: Entry | In(b, i, e) && In(b, j, f) && e.key == f.key
      ensures i == j && e == f
    {
      InFlat(b, i, e);
      InFlat(b, j, f);
      SameEntry(Flat(b), e, f);
    }
  }

  lemma SameEntry(es: seq<Entry>, e: Entry, f: Entry)
    requires Unique(es) && e in es && f in es && e.key == f.key
    ensures e == f
  {
  }

  /** A loop of evictions takes the least recently used entries of each bucket. */
  lemma EvictedOldestFirst(b: Buckets, at: nat, rng: nat -> nat, b': Buckets, at': nat, gone: set<bytes>, hash: Hash,
                           key: bytes)
    requires Evicted(b, at, rng, b', at', gone) && |b| > 0 && Unique(Flat(b)) && Placed(b, hash)
    ensures OldestFirst(b, gone, hash, |b|, key)
  {
    hide Flat, Unique, Evictions;
    TableOneEach(b, hash);
    var n: nat :| Evictions(b, at, rng, b', at', gone, n);
    EvictionsInOrder(b, at, rng, b', at', gone, n);
    forall e, f | e in Flat(b) && f in Flat(b) && e.key in gone && f.key !in gone
                  && hash(e.key) % |b| == hash(f.key) % |b|
      ensures e.stamp < f.stamp
    {
      var i := Home(b, hash, e);
      var j := Home(b, hash, f);
      assert In(b, i, e) && In(b, j, f);
    }
  }

  lemma Home(b: Buckets, hash: Hash, e: Entry) returns (i: nat)
    requires |b| > 0 && Placed(b, hash) && e in Flat(b)
    ensures In(b, i, e) && i == hash(e.key) % |b|
  {
    InConcat(b, e);
    i :| 0 <= i < |b| && e in b[i];
  }

  lemma NobodyFirst(b: Buckets, hash: Hash, n: nat, key: bytes)
    requires n > 0
    ensures OldestFirst(b, {}, hash, n, key)
  {
  }

  /** The same entries in another layout. */
  lemma OldestFirstStill(b: Buckets, b': Buckets, gone: set<bytes>, hash: Hash, n: nat, key: bytes)
    requires n > 0 && OldestFirst(b', gone, hash, n, key) && Within(b, b')
    ensures OldestFirst(b, gone, hash, n, key)
  {
    hide Flat;
  }

  /** Two rounds with a change of the entry under `key` in between. */
  lemma OldestFirstTwice(b: Buckets, gone: set<bytes>, mid: Buckets, more: set<bytes>, hash: Hash, n: nat, key: bytes)
    requires n > 0 && Unique(Flat(b)) && (key in more ==> key in gone) && WithinBut(mid, b, key)
    requires OldestFirst(b, gone, hash, n, key) && OldestFirst(mid, more, hash, n, key)
    requires ItemsIn(b).Keys - gone - {key} <= ItemsIn(mid).Keys
    ensures OldestFirst(b, gone + more, hash, n, key)
  {
    hide Flat, Unique, MapOf;
    MapOfKeys(Flat(b));
    MapOfKeys(Flat(mid));
    forall e, f | e in Flat(b) && f in Flat(b) && e.key in gone + more && f.key !in gone + more && f.key != key
                  && hash(e.key) % n == hash(f.key) % n
      ensures e.stamp < f.stamp
    {
      if e.key !in gone {
        assert e.key in Keys(Flat(b)) && f.key in Keys(Flat(b));
        Still(b, mid, key, e);
        Still(b, mid, key, f);
      }
    }
  }

  lemma Still(b: Buckets, mid: Buckets, key: bytes, e: Entry)
    requires Unique(Flat(b)) && WithinBut(mid, b, key) && e in Flat(b) && e.key != key && e.key in Keys(Flat(mid))
    ensures e in Flat(mid)
  {
    hide Flat, Unique;
    var x :| x in Flat(mid) && x.key == e.key;
    SameEntry(Flat(b), x, e);
  }

  /** Not more than needed, and the least recently used of each bucket. */
  ghost predicate Fair(b: Buckets, gone: set<bytes>, room: int, hash: Hash, n: nat, key: bytes)
    requires n > 0
  {
    Pressed(b, gone, room) && OldestFirst(b, gone, hash, n, key)
  }

  lemma NothingFair(b: Buckets, room: int, hash: Hash, n: nat, key: bytes)
    requires n > 0
    ensures Fair(b, {}, room, hash, n, key)
  {
    hide Pressed, OldestFirst;
    NothingPressed(b, room);
    NobodyFirst(b, hash, n, key);
  }

  lemma FairLess(b: Buckets, gone: set<bytes>, room: int, room': int, hash: Hash, n: nat, key: bytes)
    requires n > 0 && Fair(b, gone, room, hash, n, key) && (gone != {} ==> room' <= room)
    ensures Fair(b, gone, room', hash, n, key)
  {
    hide Pressed, OldestFirst;
    PressedLess(b, gone, room, room');
  }

  lemma FairOther(b: Buckets, mid: Buckets, gone: set<bytes>, key: bytes, room: int, hash: Hash, n: nat)
    requires n > 0 && Fair(mid, gone, room, hash, n, key) && WithinBut(mid, b, key) && key !in gone
    requires Unique(Flat(b)) && ItemsIn(b).Keys - {key} <= ItemsIn(mid).Keys
    ensures Fair(b, gone, room, hash, n, key)
  {
    hide Pressed, OldestFirst, WithinBut, Unique, ItemsIn, Flat;
    PressedOther(b, mid, gone, key, room);
    NobodyFirst(b, hash, n, key);
    assert ItemsIn(b).Keys - {} - {key} == ItemsIn(b).Keys - {key};
    OldestFirstTwice(b, {}, mid, gone, hash, n, key);
    assert {} + gone == gone;
  }

  lemma FairPush(b: Buckets, gone: set<bytes>, mid: Buckets, more: set<bytes>, key: bytes, hash: Hash, n: nat,
                 budget: nat, open: nat, alloc: nat, pushed: bool, node: nat, overhead: nat)
    requires n > 0 && Fair(b, gone, Spare(budget, open, 0), hash, n, key) && WithinBut(mid, b, key) && key !in more
    requires Fair(mid, more, Spare(budget, alloc, if pushed then 0 else node), hash, n, key)
    requires more == {} ==> alloc == open + if pushed then node else 0
    requires Unique(Flat(b)) && ItemsIn(b).Keys - gone - {key} <= ItemsIn(mid).Keys
    ensures Fair(b, gone + more, Spare(budget, alloc, if pushed then 0 else overhead + node), hash, n, key)
  {
    hide Pressed, OldestFirst, WithinBut, Unique, ItemsIn, Flat;
    PressedPush(b, gone, mid, more, key, budget, open, alloc, pushed, node, overhead);
    OldestFirstTwice(b, gone, mid, more, hash, n, key);
  }
}
