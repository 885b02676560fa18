/** kv_store_t as an object: the bucket array with its counters, updated in place
    by the operations of src/kv.c, src/eviction.c, src/list.c and src/set.c.  Every
    method is proved against the step machine of Durability, whatever the hash. */
module Store {
  import opened Common
  import opened Spec
  import opened Table
  import opened LogText
  import opened Durability
  import opened Payloads
  import opened Steps
  import opened Compaction
  import opened Adler
  import opened Snapshot
  import opened Eviction
  import opened Recency

  const LOAD_FACTOR_NUM: nat := 3
  const LOAD_FACTOR_DEN: nat := 4

  /** The guarded subtraction used wherever bytes are given back. */
  function SaturatingSub(a: nat, b: nat): nat {
    if a >= b then a - b else 0
  }

  /** `after` is `before` without the keys in `gone`, all of them expired. */
  ghost predicate SweptFrom(before: Items, after: Items, gone: set<bytes>, now: int) {
    && gone <= before.Keys
    && after == before - gone
    && forall k | k in gone :: Expired(before[k], now)
  }

  lemma SweptOneMore(before: Items, m: Items, gone: set<bytes>, now: int, key: bytes)
    requires SweptFrom(before, m, gone, now) && key in m && Expired(m[key], now)
    ensures SweptFrom(before, m - {key}, gone + {key}, now) && |gone + {key}| == |gone| + 1
  {
  }

  lemma SweptTwice(before: Items, m: Items, after: Items, gone: set<bytes>, more: set<bytes>, now: int)
    requires SweptFrom(before, m, gone, now) && SweptFrom(m, after, more, now)
    ensures SweptFrom(before, after, gone + more, now) && |gone + more| == |gone| + |more|
  {
    assert gone !! more;
  }

  /** No bucket drawn between `from` and `to` holds an expired entry. */
  ghost predicate SweptClean(b: Buckets, rng: nat -> nat, from: nat, to: nat, now: int) {
    |b| > 0 && forall t | from <= t < to :: NothingExpired(b[rng(t) % |b|], now)
  }

  predicate NothingExpired(c: Chain, now: int) {
    forall e | e in c :: !Expired(ItemOf(e), now)
  }

  lemma SweptStill(b': Buckets, b: Buckets, rng: nat -> nat, from: nat, to: nat, now: int)
    requires Thinner(b', b) && SweptClean(b, rng, from, to, now)
    ensures SweptClean(b', rng, from, to, now)
  {
    forall t | from <= t < to
      ensures NothingExpired(b'[rng(t) % |b|], now)
    {
      var i := rng(t) % |b|;
      assert NothingExpired(b[i], now);
      forall e | e in b'[i]
        ensures !Expired(ItemOf(e), now)
      {
        assert In(b', i, e);
      }
    }
  }

  const NO_ENTRY: Entry := Entry([], PStr([]), 0, 0)

  /** A push that makes a container leaves `n` buckets below the load factor. */
  ghost predicate PushFits(m0: Spec.Items, n: nat, cap: nat, key: bytes, val: bytes, env: Env) {
    var f := Fetch(m0, key, env.now);
    GoodArgs(key, val) && Room(f, cap, key, env) ==> (|f| + 1) * LOAD_FACTOR_DEN < n * LOAD_FACTOR_NUM
  }

  lemma LoadAfterPush(m0: Spec.Items, size: nat, n: nat, cap: nat, key: bytes, val: bytes, env: Env)
    requires |m0| * LOAD_FACTOR_DEN < n * LOAD_FACTOR_NUM
    requires size == |Spec.LPush(m0, cap, key, val, env).items| || size == |Spec.SAdd(m0, cap, key, val, env).items|
    ensures size * LOAD_FACTOR_DEN < n * LOAD_FACTOR_NUM <==> PushFits(m0, n, cap, key, val, env)
  {
    hide Spec.LPush, Spec.SAdd, Fetch, GoodArgs, Room;
    PushSize(m0, cap, key, val, env);
  }

  class KvStore {
    const hash: Hash              // hash_key before the final modulus
    var buckets: Buckets
    var size: nat
    var maxCapacity: nat          // 0 = unbounded
    var allocBytes: nat
    var peakBytes: nat
    var budget: nat               // 0 = unbounded
    var autoResize: bool
    var pathBytes: nat            // heap copy of the log path, 0 when there is none
    var log: Log
    var rewrite: Option<Rewrite>
    var clock: nat                // lru_clock
    const rng: nat -> nat         // every value xorshift32 will give, in order
    var drawn: nat                // how many of them have been used

    /** Entries sit in the bucket of their hash, keys are unique, counters are exact. */
    ghost predicate Valid()
      reads this`buckets, this`size, this`allocBytes, this`peakBytes, this`pathBytes, this`clock
      ensures Valid() ==> allocBytes <= peakBytes && |buckets| > 0
    {
      && TableInv(buckets, hash, clock)
      && size == |Flat(buckets)|
      && allocBytes == SIZEOF_POINTER * |buckets| + pathBytes + Bytes(Flat(buckets))
      && allocBytes <= peakBytes
      && clock < UINT64_MAX
    }

    ghost function Items(): Spec.Items
      reads this`buckets
    {
      ItemsIn(buckets)
    }

    lemma ItemsAre()
      ensures Items() == ItemsIn(buckets)
    {
    }

    ghost function View(): Db
      reads this
    {
      Db(Items(), maxCapacity, log, rewrite)
    }

    ghost predicate WithinBudget()
      reads this
    {
      budget > 0 ==> peakBytes <= budget
    }

    ghost predicate BelowLoadFactor()
      reads this
    {
      size * LOAD_FACTOR_DEN < |buckets| * LOAD_FACTOR_NUM
    }

    /** Since the table was `before` and the clock `was`, the clock ticked at most once, and if it did
        the entry under `key` carries it; every other entry has the stamp it had. */
    ghost predicate Stamped(before: Buckets, was: nat, key: bytes)
      reads this`buckets, this`clock
    {
      (clock == was || clock == was + 1) && LastUses(buckets, before, key, clock == was + 1, clock)
    }

    /** The same for a whole call: its key is the newest entry exactly when the call used it. */
    ghost predicate Used(before: Buckets, was: nat, op: Op, reply: Reply)
      reads this`buckets, this`clock
    {
      Stamped(before, was, op.key) && (op.key in Items() ==> (clock == was + 1 <==> Uses(op, reply)))
    }

    lemma NotStamped(before: Buckets, key: bytes)
      requires Within(buckets, before)
      ensures Stamped(before, clock, key)
    {
      hide Within, LastUses;
      WithinLastUses(buckets, before, key, clock);
    }

    lemma StampedThen(mid: Buckets, at: nat, before: Buckets, was: nat, key: bytes)
      requires Stamped(mid, at, key) && LastUses(mid, before, key, at == was + 1, at)
      requires at == was || (at == was + 1 && clock == at)
      ensures Stamped(before, was, key)
    {
      hide LastUses;
      LastUsesTrans(buckets, mid, before, key, at == was + 1, at, clock == at + 1, clock);
    }

    /** The fields as kv_init_full first sets them. */
    constructor (hash: Hash, rng: nat -> nat, count: nat, cap: nat, budget: nat)
      requires count > 0
      ensures Valid() && Items() == map[] && |buckets| == count && this.hash == hash && this.rng == rng
      ensures allocBytes == peakBytes == SIZEOF_POINTER * count && pathBytes == 0 && size == 0
      ensures maxCapacity == cap && this.budget == budget && autoResize
      ensures log == NoLog && rewrite.None? && clock == 0
    {
      this.hash, this.budget, maxCapacity, autoResize := hash, budget, cap, true;
      buckets, size := seq(count, _ => []), 0;
      allocBytes, peakBytes, pathBytes := SIZEOF_POINTER * count, SIZEOF_POINTER * count, 0;
      log, rewrite, clock := NoLog, None, 0;
      this.rng, drawn := rng, 0;
      new;
      EmptyFlat(buckets);
    }

    /** The chain walk shared by all lookups. */
    method Find(key: bytes) returns (i: nat, j: int)
      requires Valid()
      ensures i < |buckets| && i == hash(key) % |buckets| && -1 <= j < |buckets[i]|
      ensures j >= 0 ==> buckets[i][j].key == key && EntryInv(buckets[i][j], hash)
      ensures j >= 0 ==> key in Items() && Items()[key] == ItemOf(buckets[i][j])
      ensures j < 0 ==> key !in Items() && forall e | e in buckets[i] :: e.key != key
    {
      hide EntryInv, ItemOf, MapOf, Stamps, Placed, Concat;
      i := hash(key) % |buckets|;
      j := 0;
      while j < |buckets[i]|
        invariant 0 <= j <= |buckets[i]|
        invariant forall k | 0 <= k < j :: buckets[i][k].key != key
      {
        if buckets[i][j].key == key {
          LookupFound(buckets, hash, clock, i, j);
          return;
        }
        j := j + 1;
      }
      j := -1;
      LookupMissing(buckets, hash, clock, key);
    }

    /** expire_and_delete_unlocked; its saturating branches cannot be taken. */
    method RemoveAt(i: nat, j: nat)
      requires Valid() && i < |buckets| && j < |buckets[i]|
      modifies this`buckets, this`size, this`allocBytes
      ensures Valid()
      ensures buckets == Removed(old(buckets), i, j)
      ensures Items() == old(Items()) - {old(buckets[i][j].key)}
      ensures size == old(size) - 1 && allocBytes == old(allocBytes) - EntryBytes(old(buckets[i][j]))
    {
      hide TableInv, ItemsIn, Flat, Bytes;
      AfterRemove(buckets, hash, clock, i, j);
      var e := buckets[i][j];
      buckets := Removed(buckets, i, j);
      var freed := SIZEOF_ENTRY + |e.key| + 1 + PayloadBytes(e.payload);
      if size > 0 {
        size := size - 1;
      }
      allocBytes := SaturatingSub(allocBytes, freed);
    }

    /** find_entry_unlocked: a lookup that drops the entry when its deadline has passed. */
    method FindEntry(key: bytes, now: int) returns (i: nat, j: int)
      requires Valid()
      modifies this`buckets, this`size, this`allocBytes
      ensures Valid()
      ensures Items() == Fetch(old(Items()), key, now)
      ensures |buckets| == old(|buckets|) && size <= old(size) && allocBytes <= old(allocBytes)
      ensures i < |buckets| && i == hash(key) % |buckets| && -1 <= j < |buckets[i]|
      ensures j >= 0 ==> buckets[i][j].key == key && EntryInv(buckets[i][j], hash)
      ensures j >= 0 ==> key in Items() && Items()[key] == ItemOf(buckets[i][j])
      ensures j < 0 ==> key !in Items()
      ensures Within(buckets, old(buckets))
    {
      hide Valid, Items, TableInv, Flat, Bytes, EntryBytes, EntryInv, ValueOf, Fetch, ItemOf, MateBytes, Within,
           WithinBut;
      i, j := DropExpired(key, now);
    }

    /** The same, with the bytes it gives back and what it leaves beside the key. */
    method DropExpired(key: bytes, now: int) returns (i: nat, j: int)
      requires Valid()
      modifies this`buckets, this`size, this`allocBytes
      ensures Valid()
      ensures Items() == Fetch(old(Items()), key, now)
      ensures |buckets| == old(|buckets|) && size <= old(size)
      ensures i < |buckets| && i == hash(key) % |buckets| && -1 <= j < |buckets[i]|
      ensures j >= 0 ==> buckets[i][j].key == key && EntryInv(buckets[i][j], hash)
      ensures j >= 0 ==> key in Items() && Items()[key] == ItemOf(buckets[i][j])
      ensures j < 0 ==> key !in Items()
      ensures allocBytes <= old(allocBytes)
      ensures allocBytes == old(allocBytes) -
                            if j >= 0 then 0 else Bytes(old(buckets)[i]) - MateBytes(old(buckets)[i], key)
      ensures MateBytes(buckets[i], key) == MateBytes(old(buckets)[i], key) && WithinBut(buckets, old(buckets), key)
      ensures Within(buckets, old(buckets))
    {
      hide Valid, Items, TableInv, Flat, Bytes, EntryBytes, EntryInv, ValueOf, MateBytes, Within, WithinBut, Unique,
           Placed;
      i, j := Find(key);
      WithinItself(buckets);
      WithinIsBut(buckets, buckets, key);
      if j < 0 {
        NoMates(buckets[i], key);
      } else if 0 < buckets[i][j].deadline <= now {
        Accounted();
        BucketUnique(buckets, i);
        MateSplit(buckets[i], buckets[i][j]);
        BesideRemoved(buckets, i, j);
        WithinRemoved(buckets, i, j);
        RemoveAt(i, j);
        j := -1;
      }
    }

    /** kv_resize_unlocked: rehashes every entry into a new bucket array. */
    method Resize(n: nat, tableOk: bool) returns (st: Status)
      requires Valid()
      modifies this`buckets, this`allocBytes, this`peakBytes
      ensures Valid() && Items() == old(Items())
      ensures st == if n == 0 then InvalidParam
                    else if budget > 0 && old(allocBytes) + n * SIZEOF_POINTER > budget then BudgetExceeded
                    else if !tableOk then Internal else Ok
      ensures |buckets| == if st == Ok then n else old(|buckets|)
      ensures st != Ok ==> buckets == old(buckets) && allocBytes == old(allocBytes) && peakBytes == old(peakBytes)
      ensures var both := old(allocBytes) + 8 * n;
              st == Ok ==> peakBytes == if both > old(peakBytes) then both else old(peakBytes)
      ensures old(WithinBudget()) ==> WithinBudget()
      ensures allocBytes == old(allocBytes) + SIZEOF_POINTER * (|buckets| - old(|buckets|))
              && Within(buckets, old(buckets)) && Within(old(buckets), buckets)
    {
      hide Within, Bytes, MapOf, Stamps, Unique, AllEntryInv, Concat, Placed;
      WithinItself(buckets);
      if n == 0 {
        return InvalidParam;
      }
      if budget > 0 && allocBytes + n * SIZEOF_POINTER > budget {
        return BudgetExceeded;
      }
      if !tableOk {
        return Internal;
      }
      var oldCount := |buckets|;
      allocBytes := allocBytes + n * SIZEOF_POINTER;
      if allocBytes > peakBytes {
        peakBytes := allocBytes;
      }
      var moved := Rehash(n);
      PermutationKeeps(Flat(buckets), Flat(moved), hash, clock);
      PermutationWithin(moved, buckets);
      PermutationWithin(buckets, moved);
      buckets := moved;
      allocBytes := allocBytes - oldCount * SIZEOF_POINTER;
      return Ok;
    }

    /** The outer relinking loop of kv_resize_unlocked. */
    method Rehash(n: nat) returns (moved: Buckets)
      requires n > 0 && |buckets| > 0
      ensures |moved| == n && Placed(moved, hash)
      ensures multiset(Flat(moved)) == multiset(Flat(buckets))
    {
      moved := seq(n, _ => []);
      EmptyFlat(moved);
      var i := 0;
      while i < |buckets|
        invariant i <= |buckets| && |moved| == n && Placed(moved, hash)
        invariant multiset(Flat(moved)) + multiset(Concat(buckets[i..])) == multiset(Flat(buckets))
      {
        assert Concat(buckets[i..]) == buckets[i] + Concat(buckets[i + 1..]) by {
          assert buckets[i..][1..] == buckets[i + 1..];
        }
        moved := MoveChain(buckets[i], moved);
        i := i + 1;
      }
      assert buckets[i..] == [];
    }

    /** The inner loop: one chain of the old table, entry by entry to the head of its new bucket. */
    method MoveChain(chain: Chain, into: Buckets) returns (moved: Buckets)
      requires |into| > 0 && Placed(into, hash)
      ensures |moved| == |into| && Placed(moved, hash)
      ensures multiset(Flat(moved)) == multiset(Flat(into)) + multiset(chain)
    {
      hide Flat;
      moved := into;
      var rest := chain;
      while rest != []
        invariant |moved| == |into| && Placed(moved, hash)
        invariant multiset(Flat(moved)) + multiset(rest) == multiset(Flat(into)) + multiset(chain)
        decreases |rest|
      {
        var e := rest[0];
        var k := hash(e.key) % |moved|;
        assert rest == [e] + rest[1..];
        MoveKeepsEntries(moved, k, e, rest[1..]);
        assert forall s, x | 0 <= s < |moved| && x in Inserted(moved, k, e)[s] :: x in moved[s] || (x == e && s == k);
        moved := Inserted(moved, k, e);
        rest := rest[1..];
      }
    }

    /** One chain of the victim search. */
    method ScanBucket(idx: nat, c0: Candidate, min0: nat, ghost seen: set<nat>) returns (c: Candidate, min: nat)
      requires idx < |buckets| && Oldest(buckets, seen, c0, min0)
      requires forall e | e in buckets[idx] :: e.stamp < UINT64_MAX
      ensures Oldest(buckets, seen + {idx}, c, min)
      ensures buckets[idx] != [] ==> c.Somebody?
    {
      c, min := c0, min0;
      var j := 0;
      while j < |buckets[idx]|
        invariant 0 <= j <= |buckets[idx]|
        invariant forall s | s in seen :: s < |buckets|
        invariant c.Nobody? ==> min == UINT64_MAX && j == 0 && c == c0
        invariant c.Somebody? ==> c.i in seen + {idx} && c.j < |buckets[c.i]| && buckets[c.i][c.j].stamp == min
        invariant c.Somebody? && c0.Somebody? ==> forall s, e | s in seen && e in buckets[s] :: min <= e.stamp
        invariant c0.Nobody? ==> forall s | s in seen :: buckets[s] == []
        invariant forall t | 0 <= t < j :: min <= buckets[idx][t].stamp
      {
        assert buckets[idx][j] in buckets[idx];
        if buckets[idx][j].stamp < min {
          min := buckets[idx][j].stamp;
          c := Somebody(idx, j);
        }
        j := j + 1;
      }
    }

    /** kv_evict_lru_unlocked: the victim is the least recently used entry of the sampled
        buckets, or of the whole table; a non-empty store always yields one. */
    method EvictLru() returns (st: Status, ghost victim: Entry, ghost s: nat, ghost j: nat)
      requires Valid()
      modifies this`buckets, this`size, this`allocBytes, this`drawn
      ensures Valid()
      ensures st == if old(size) == 0 then NotFound else Ok
      ensures st == NotFound ==> buckets == old(buckets) && allocBytes == old(allocBytes) && size == 0
      ensures st == Ok ==>
                && s < |old(buckets)| && j < |old(buckets)[s]| && victim == old(buckets)[s][j]
                && buckets == Removed(old(buckets), s, j)
                && Items() == old(Items()) - {victim.key} && victim.key in old(Items())
                && size == old(size) - 1 && allocBytes == old(allocBytes) - EntryBytes(victim)
      ensures st == Ok ==>
                var seen := Considered(old(buckets), Draws(rng, old(drawn)));
                s in seen && LeastRecent(old(buckets), seen, victim)
      ensures drawn == old(drawn) + if st == Ok then SampleLength(old(buckets), Draws(rng, old(drawn)), 0) else 0
    {
      if size == 0 {
        return NotFound, Entry([], PStr([]), 0, 0), 0, 0;
      }
      var c, min, used := PickVictim();
      ghost var seen := Considered(buckets, Draws(rng, drawn));
      victim, s, j := buckets[c.i][c.j], c.i, c.j;
      StrictlyOldest(c, min, seen);
      LookupFound(buckets, hash, clock, c.i, c.j);
      hide TableInv, Flat, Bytes, EntryInv, EntryBytes, ItemsIn, ItemOf, Considered;
      drawn := drawn + used;
      RemoveAt(c.i, c.j);
      st := Ok;
    }

    /** Sampling up to 16 non-empty buckets in 64 draws, then a full scan if that found nobody. */
    method PickVictim() returns (c: Candidate, min: nat, used: nat)
      requires Valid() && size > 0
      ensures c.Somebody? && Oldest(buckets, Considered(buckets, Draws(rng, drawn)), c, min)
      ensures used == SampleLength(buckets, Draws(rng, drawn), 0)
    {
      hide Valid, Oldest, Sample, SampleLength;
      StampsBelow();
      ghost var seen;
      c, min, used, seen := SampleBuckets();
      if c.Nobody? {
        ghost var all;
        c, min, all := ScanAll();
        AllConsidered(buckets, Draws(rng, drawn), all);
        SomebodyThere(c, min, all);
      }
    }

    lemma SomebodyThere(c: Candidate, min: nat, all: set<nat>)
      requires Valid() && size > 0 && Oldest(buckets, all, c, min) && forall k | 0 <= k < |buckets| :: k in all
      ensures c.Somebody?
    {
      if c.Nobody? {
        EmptyFlat(buckets);
      }
    }

    /** The sampling loop. */
    method SampleBuckets() returns (c: Candidate, min: nat, used: nat, ghost seen: set<nat>)
      requires |buckets| > 0
      requires forall i, e | 0 <= i < |buckets| && e in buckets[i] :: e.stamp < UINT64_MAX
      ensures seen == Sample(buckets, Draws(rng, drawn), 0) && Oldest(buckets, seen, c, min)
      ensures c.Nobody? <==> seen == {}
      ensures used == SampleLength(buckets, Draws(rng, drawn), 0)
    {
      hide Sample, SampleLength;
      var n, samples := |buckets|, 0;
      ghost var draws := Draws(rng, drawn);
      c, min, used, seen := Nobody, UINT64_MAX, 0, {};
      assert draws[0..] == draws;
      while used < SAMPLE_DRAWS && samples < SAMPLE_HITS
        invariant 0 <= used <= SAMPLE_DRAWS
        invariant Oldest(buckets, seen, c, min) && (c.Nobody? <==> seen == {})
        invariant seen + Sample(buckets, draws[used..], samples) == Sample(buckets, draws, 0)
        invariant used + SampleLength(buckets, draws[used..], samples) == SampleLength(buckets, draws, 0)
      {
        hide Oldest;
        SampleStep(buckets, draws, used, samples);
        var idx := rng(drawn + used) % n;        // xorshift32 % bucket_count
        if buckets[idx] != [] {
          samples := samples + 1;
          c, min := ScanBucket(idx, c, min, seen);
          seen := seen + {idx};
        }
        used := used + 1;
      }
      SampleStep(buckets, draws, used, samples);
    }

    method ScanAll() returns (c: Candidate, min: nat, ghost seen: set<nat>)
      requires forall i, e | 0 <= i < |buckets| && e in buckets[i] :: e.stamp < UINT64_MAX
      ensures Oldest(buckets, seen, c, min)
      ensures (forall k | 0 <= k < |buckets| :: k in seen) && (forall k | k in seen :: k < |buckets|)
    {
      c, min, seen := Nobody, UINT64_MAX, {};
      var idx := 0;
      while idx < |buckets|
        invariant 0 <= idx <= |buckets|
        invariant Oldest(buckets, seen, c, min)
        invariant (forall k | 0 <= k < idx :: k in seen) && (forall k | k in seen :: k < |buckets|)
      {
        hide Oldest;
        c, min := ScanBucket(idx, c, min, seen);
        seen := seen + {idx};
        idx := idx + 1;
      }
    }

    lemma StampsBelow()
      requires Valid()
      ensures |buckets| > 0
      ensures forall i, e | 0 <= i < |buckets| && e in buckets[i] :: e.stamp < UINT64_MAX
    {
      forall i, e | 0 <= i < |buckets| && e in buckets[i]
        ensures e.stamp < UINT64_MAX
      {
        InConcat(buckets, e);
      }
    }

    lemma StrictlyOldest(c: Candidate, min: nat, seen: set<nat>)
      requires Valid() && c.Somebody? && Oldest(buckets, seen, c, min)
      ensures LeastRecent(buckets, seen, buckets[c.i][c.j])
    {
      hide EntryInv, Placed, Bytes;
      forall s, e | s in seen && e in buckets[s] && e != buckets[c.i][c.j]
        ensures min < e.stamp
      {
        InConcat(buckets, e);
        InConcat(buckets, buckets[c.i][c.j]);
      }
    }

    /** One turn of the eviction loop, with what it does to the newest entry `e`. */
    method EvictWatched(ghost need: nat, ghost b0: Buckets, ghost gone: set<bytes>, ghost e: Entry,
                        ghost watched: bool, ghost tight: bool, ghost exact: bool)
      returns (st: Status, ghost victim: Entry)
      requires Valid() && allocBytes + need > budget && size > 0
      requires |b0| == |buckets| && (watched ==> Watches(b0, gone, e, tight))
      requires tight == Crowded(b0, hash(e.key) % |buckets|, e.key, Base() + Bytes(Flat(b0)), need, budget)
      requires Shrinks(b0, buckets, hash(e.key) % |buckets|, exact)
      requires exact ==> Spares(b0, hash(e.key) % |buckets|, need)
      modifies this`buckets, this`size, this`allocBytes, this`drawn
      ensures Valid() && |buckets| == old(|buckets|) && st == Ok
      ensures Items() == old(Items()) - {victim.key} && victim.key in old(Items())
      ensures size == old(size) - 1 && allocBytes == old(allocBytes) - EntryBytes(victim)
      ensures victim in Flat(old(buckets)) && Within(buckets, old(buckets))
      ensures watched ==> Watches(b0, gone + {victim.key}, e, tight)
      ensures Shrinks(b0, buckets, hash(e.key) % |buckets|, exact)
      ensures EvictStep(old(buckets), old(drawn), rng, buckets, drawn, victim.key)
    {
      hide Valid, Items, TableInv, Flat, Bytes, EntryBytes, ItemsIn, Considered, LeastRecent, Within, Tracks, Crowded,
           Hits, Placed, Unique, Shrinks, RestBytes, SampleLength;
      ghost var was, at, i := buckets, drawn, hash(e.key) % |buckets|;
      Accounted();
      HitsHere(i);
      ghost var s, j;
      st, victim, s, j := EvictLru();
      WithinRemoved(was, s, j);
      assert TakenFrom(was, at, rng, buckets, victim.key, s, j);
      ShrinksStep(b0, was, i, exact, Hits(rng, |buckets|, i), s, j, Considered(was, Draws(rng, at)), Base(), need,
                  budget);
      if watched {
        TracksStep(b0, was, gone, e, i, Hits(rng, |buckets|, i), tight, s, j, Considered(was, Draws(rng, at)), Base(),
                   need, budget, hash);
      }
    }

    /** Every draw hits bucket `i`, and to empty it would make room enough. */
    ghost predicate Spares(b0: Buckets, i: nat, need: nat)
      requires i < |b0|
      reads this`pathBytes, this`budget
    {
      Hits(rng, |b0|, i) && SIZEOF_POINTER * |b0| + pathBytes + RestBytes(b0, i) + need <= budget
    }

    /** The newest entry is tracked in the bucket of its key. */
    ghost predicate Watches(b0: Buckets, gone: set<bytes>, e: Entry, tight: bool)
      reads this`buckets
    {
      |buckets| > 0 && var i := hash(e.key) % |buckets|; Tracks(b0, buckets, gone, e, i, Hits(rng, |buckets|, i), tight)
    }

    /** The eviction loop in front of every allocation under a budget.  It evicts nothing when
        there is room, and stops as soon as there is.  `e` is any entry one asks about: if it is
        the newest, it goes only when its bucket without its mates would still be too full, and
        does go then if every draw hits that bucket.  The other buckets lose nothing if every draw
        hits the bucket of `e.key` and emptying it is enough. */
    method MakeRoom(need: nat, ghost e: Entry) returns (ghost gone: set<bytes>)
      requires Valid()
      modifies this`buckets, this`size, this`allocBytes, this`drawn
      ensures Valid() && |buckets| == old(|buckets|)
      ensures gone <= old(Items()).Keys && Items() == old(Items()) - gone
      ensures size <= old(size) && allocBytes <= old(allocBytes)
      ensures allocBytes + need <= budget || size == 0
      ensures old(allocBytes) + need <= budget ==> gone == {}
      ensures gone == {} ==> buckets == old(buckets) && allocBytes == old(allocBytes) && size == old(size)
      ensures Pressed(old(buckets), gone, Spare(budget, allocBytes, need)) && Within(buckets, old(buckets))
      ensures var i := hash(e.key) % |buckets|;
              NewestIn(old(buckets), i, e) ==>
                && (e.key in gone ==> Crowded(old(buckets), i, e.key, old(allocBytes), need, budget))
                && (Hits(rng, |buckets|, i) && Crowded(old(buckets), i, e.key, old(allocBytes), need, budget) ==>
                    e.key in gone)
      ensures var i := hash(e.key) % |buckets|; Shrinks(old(buckets), buckets, i, Spares(old(buckets), i, need))
      ensures Evicted(old(buckets), old(drawn), rng, buckets, drawn, gone)
    {
      hide Valid, Items, TableInv, Flat, Bytes, EntryBytes, ItemsIn, Considered, LeastRecent, Within, Pressed, Tracks,
           NewestIn, Crowded, Hits, Unique, Placed, Shrinks, Spares, RestBytes, Evicted, EvictStep;
      gone := {};
      assert Items() == Items() - {};
      WithinItself(buckets);
      NothingEvicted(buckets, drawn, rng);
      assert Pressed(buckets, {}, Spare(budget, allocBytes, need)) by {
        NothingPressed(buckets, Spare(budget, allocBytes, need));
      }
      ghost var i := hash(e.key) % |buckets|;
      ghost var hits, watched := Hits(rng, |buckets|, i), NewestIn(buckets, i, e);
      ghost var tight, exact := Crowded(buckets, i, e.key, allocBytes, need, budget), Spares(buckets, i, need);
      ShrinksItself(buckets, i, exact);
      Accounted();
      if watched {
        TracksStart(buckets, e, i, hits, tight);
      }
      while allocBytes + need > budget && size > 0
        invariant Valid() && |buckets| == old(|buckets|)
        invariant gone <= old(Items()).Keys && Items() == old(Items()) - gone
        invariant size <= old(size) && allocBytes <= old(allocBytes)
        invariant old(allocBytes) + need <= budget ==> gone == {}
        invariant gone == {} ==> buckets == old(buckets) && allocBytes == old(allocBytes) && size == old(size)
        invariant Pressed(old(buckets), gone, Spare(budget, allocBytes, need)) && Within(buckets, old(buckets))
        invariant watched ==> Watches(old(buckets), gone, e, tight)
        invariant Shrinks(old(buckets), buckets, i, exact)
        invariant Evicted(old(buckets), old(drawn), rng, buckets, drawn, gone)
        decreases size
      {
        ghost var before, was, at := Items(), buckets, drawn;
        var st, victim := EvictWatched(need, old(buckets), gone, e, watched, tight, exact);
        if st != Ok {
          break;
        }
        assert before - {victim.key} == old(Items()) - (gone + {victim.key});
        EvictedOneMore(old(buckets), old(drawn), rng, was, at, gone, buckets, drawn, victim.key);
        gone := gone + {victim.key};
        WithinTrans(buckets, was, old(buckets));
        InWithin(victim, was, old(buckets));
        PressedBy(old(buckets), gone, Spare(budget, allocBytes, need), victim);
      }
      Accounted();
      if watched {
        TracksEnd(old(buckets), buckets, gone, e, i, hits, tight, Base(), need, budget);
      }
    }

    /** What the store takes without any entry. */
    ghost function Base(): nat
      reads this`buckets, this`pathBytes
    {
      SIZEOF_POINTER * |buckets| + pathBytes
    }

    lemma Accounted()
      requires Valid()
      ensures |buckets| > 0 && Unique(Flat(buckets)) && Placed(buckets, hash)
      ensures allocBytes == Base() + Bytes(Flat(buckets)) && (size == 0 ==> Flat(buckets) == [] && allocBytes == Base())
    {
    }

    lemma HitsHere(i: nat)
      requires |buckets| > 0 && i < |buckets|
      ensures Hits(rng, |buckets|, i) && buckets[i] != [] ==> Considered(buckets, Draws(rng, drawn)) == {i}
    {
      hide Considered, Hits;
      if Hits(rng, |buckets|, i) && buckets[i] != [] {
        HitsConsidered(buckets, rng, drawn, i);
      }
    }

    /** The eviction loop with the budget test in front of it and behind it: it fails exactly when
        even the empty table would leave too little room. */
    method EnsureRoom(need: nat, ghost e: Entry) returns (ok: bool, ghost gone: set<bytes>)
      requires Valid()
      modifies this`buckets, this`size, this`allocBytes, this`drawn
      ensures Valid() && |buckets| == old(|buckets|)
      ensures gone <= old(Items()).Keys && Items() == old(Items()) - gone
      ensures size <= old(size) && allocBytes <= old(allocBytes)
      ensures ok <==> budget == 0 || Base() + need <= budget
      ensures budget == 0 ==> gone == {}
      ensures ok && budget > 0 ==> allocBytes + need <= budget
      ensures !ok ==> size == 0 && allocBytes + need > budget
      ensures old(allocBytes) + need <= budget ==> gone == {}
      ensures gone == {} ==> buckets == old(buckets) && allocBytes == old(allocBytes) && size == old(size)
      ensures Pressed(old(buckets), gone, Spare(budget, allocBytes, need)) && Within(buckets, old(buckets))
      ensures var i := hash(e.key) % |buckets|;
              budget > 0 && NewestIn(old(buckets), i, e) ==>
                && (e.key in gone ==> Crowded(old(buckets), i, e.key, old(allocBytes), need, budget))
                && (Hits(rng, |buckets|, i) && Crowded(old(buckets), i, e.key, old(allocBytes), need, budget) ==>
                    e.key in gone)
      ensures var i := hash(e.key) % |buckets|; Shrinks(old(buckets), buckets, i, Spares(old(buckets), i, need))
      ensures Evicted(old(buckets), old(drawn), rng, buckets, drawn, gone)
    {
      hide Valid, Items, TableInv, Flat, Bytes, EntryBytes, ItemsIn, Within, Pressed, NewestIn, Crowded, Hits,
           MateBytes, Shrinks, Spares, Evicted;
      ok, gone := true, {};
      assert Items() == Items() - {};
      ShrinksItself(buckets, hash(e.key) % |buckets|, Spares(buckets, hash(e.key) % |buckets|, need));
      WithinItself(buckets);
      NothingEvicted(buckets, drawn, rng);
      NothingPressed(buckets, Spare(budget, allocBytes, need));
      if budget > 0 {
        gone := MakeRoom(need, e);
        Accounted();
        ok := allocBytes + need <= budget;
      }
    }

    /** The capacity test and the eviction loop in front of a new entry. */
    method RoomForEntry(need: nat, ghost e: Entry) returns (st: Status, ghost gone: set<bytes>)
      requires Valid()
      modifies this`buckets, this`size, this`allocBytes, this`drawn
      ensures Valid() && |buckets| == old(|buckets|)
      ensures gone <= old(Items()).Keys && Items() == old(Items()) - gone
      ensures size <= old(size) && allocBytes <= old(allocBytes)
      ensures st == CapacityFull <==> maxCapacity > 0 && old(size) >= maxCapacity
      ensures st == CapacityFull || st == BudgetExceeded || st == Ok
      ensures budget == 0 ==> st != BudgetExceeded && gone == {}
      ensures st == CapacityFull ==> gone == {}
      ensures st == Ok && budget > 0 ==> allocBytes + need <= budget
      ensures st == BudgetExceeded ==> budget > 0 && size == 0 && allocBytes + need > budget
      ensures old(allocBytes) + need <= budget ==> gone == {} && st != BudgetExceeded
      ensures gone == {} ==> buckets == old(buckets) && allocBytes == old(allocBytes) && size == old(size)
      ensures Pressed(old(buckets), gone, Spare(budget, allocBytes, need)) && Within(buckets, old(buckets))
      ensures var i := hash(e.key) % |buckets|; Shrinks(old(buckets), buckets, i, Spares(old(buckets), i, need))
      ensures st == BudgetExceeded <==>
                !(maxCapacity > 0 && old(size) >= maxCapacity) && budget > 0 && Base() + need > budget
      ensures Evicted(old(buckets), old(drawn), rng, buckets, drawn, gone)
      ensures Fair(old(buckets), gone, Spare(budget, allocBytes, need), hash, |buckets|, e.key)
      ensures Stamped(old(buckets), clock, e.key)
    {
      hide Valid, Items, TableInv, Flat, Bytes, EntryBytes, ItemsIn, Within, Pressed, NewestIn, Crowded, Hits,
           Shrinks, Spares, Evicted, Fair, LastUses, Unique, Placed;
      gone := {};
      ShrinksItself(buckets, hash(e.key) % |buckets|, Spares(buckets, hash(e.key) % |buckets|, need));
      WithinItself(buckets);
      NothingEvicted(buckets, drawn, rng);
      assert Items() - {} == Items();
      NothingPressed(buckets, Spare(budget, allocBytes, need));
      NothingFair(buckets, Spare(budget, allocBytes, need), hash, |buckets|, e.key);
      NotStamped(buckets, e.key);
      Accounted();
      if maxCapacity > 0 && size >= maxCapacity {
        return CapacityFull, gone;
      }
      var ok;
      ok, gone := EnsureRoom(need, e);
      NotStamped(old(buckets), e.key);
      TakenFair(old(buckets), old(drawn), gone, e.key, Spare(budget, allocBytes, need));
      st := if ok then Ok else BudgetExceeded;
    }

    /** What eviction has taken since the table was `before`, in terms of stamps. */
    lemma TakenInOrder(before: Buckets, at: nat, gone: set<bytes>, key: bytes)
      requires Evicted(before, at, rng, buckets, drawn, gone)
      requires |before| > 0 && |before| == |buckets| && Unique(Flat(before)) && Placed(before, hash)
      ensures OldestFirst(before, gone, hash, |buckets|, key)
    {
      hide Evicted, OldestFirst, Unique, Flat;
      EvictedOldestFirst(before, at, rng, buckets, drawn, gone, hash, key);
    }

    lemma TakenFair(before: Buckets, at: nat, gone: set<bytes>, key: bytes, room: int)
      requires Evicted(before, at, rng, buckets, drawn, gone) && Pressed(before, gone, room)
      requires |before| > 0 && |before| == |buckets| && Unique(Flat(before)) && Placed(before, hash)
      ensures Fair(before, gone, room, hash, |buckets|, key)
    {
      hide Evicted, OldestFirst, Unique, Flat, Pressed;
      TakenInOrder(before, at, gone, key);
    }

    /** append_aof_rewrite_buffer: nothing is kept unless a compaction is running. */
    method Buffer(piece: bytes)
      modifies this`rewrite
      ensures rewrite == if old(rewrite).Some?
                         then Some(old(rewrite).value.(buf := old(rewrite).value.buf + piece)) else None
    {
      if rewrite.Some? {
        rewrite := Some(rewrite.value.(buf := rewrite.value.buf + piece));
      }
    }

    /** A record reaches the rewrite buffer piece by piece. */
    method BufferRecord(r: Rec)
      modifies this`rewrite
      ensures rewrite == AppendRewrite(old(rewrite), [r])
    {
      Buffer(Tag(r.cmd) + [TAB]);
      Buffer(r.key);
      if HasArg(r.cmd) {
        Buffer([TAB]);
        Buffer(r.arg);
      }
      Buffer([NL]);
      PiecesMakeRecord(r, if old(rewrite).Some? then old(rewrite).value.buf else []);
      hide Format;
    }

    method CountBytes(n: nat)
      modifies this`allocBytes, this`peakBytes
      ensures allocBytes == old(allocBytes) + n
      ensures peakBytes == if allocBytes > old(peakBytes) then allocBytes else old(peakBytes)
    {
      allocBytes := allocBytes + n;
      if allocBytes > peakBytes {
        peakBytes := allocBytes;
      }
    }

    /** The overwriting half of kv_set_internal. */
    method Overwrite(i: nat, j: nat, val: bytes, entryOk: bool) returns (st: Status)
      requires Valid() && i < |buckets| && j < |buckets[i]| && clock + 1 < UINT64_MAX
      requires buckets[i][j].payload.PStr? && ValidValue(val)
      requires EntryInv(buckets[i][j], hash)
      modifies this`buckets, this`allocBytes, this`peakBytes, this`clock, this`rewrite
      ensures Valid() && |buckets| == old(|buckets|) && clock == old(clock) + (if entryOk then 1 else 0)
      ensures st == if entryOk then Ok else Internal
      ensures var e := old(buckets[i][j]);
              Items() == if entryOk then old(Items())[e.key := Item(Str(val), e.deadline)] else old(Items())
      ensures rewrite == if entryOk then AppendRewrite(old(rewrite), [Rec(SET, old(buckets[i][j].key), val)])
                         else old(rewrite)
      ensures budget > 0 && old(peakBytes) <= budget
              && old(allocBytes) + SaturatingSub(|val|, old(|buckets[i][j].payload.s|)) <= budget
              ==> peakBytes <= budget
      ensures allocBytes == old(allocBytes) + if entryOk then |val| - old(|buckets[i][j].payload.s|) else 0
      ensures Stamped(old(buckets), old(clock), old(buckets[i][j].key))
    {
      hide Valid, Items, TableInv, Flat, Bytes, ItemsIn, FormatAll, Within, LastUses;
      WithinItself(buckets);
      NotStamped(buckets, buckets[i][j].key);
      if !entryOk {
        return Internal;
      }
      ghost var e := buckets[i][j];
      Rewrite(i, j, PStr(val), buckets[i][j].deadline);
      ghost var mid := buckets;
      Touch(i, j);
      StampedThen(mid, old(clock), old(buckets), old(clock), e.key);
      BufferRecord(Rec(SET, buckets[i][j].key, val));
      st := Ok;
    }

    lemma KeyMissing(key: bytes)
      requires Valid() && key !in Items()
      ensures forall e | e in Flat(buckets) :: e.key != key
    {
      MapOfSpec(Flat(buckets));
    }

    /** Linking a new entry at the head of its chain and counting its bytes. */
    method Link(key: bytes, payload: Payload)
      requires Valid() && key !in Items() && ValidKey(key) && clock + 1 < UINT64_MAX
      requires EntryInv(Entry(key, payload, 0, clock + 1), hash)
      modifies this`buckets, this`size, this`allocBytes, this`peakBytes, this`clock
      ensures Valid() && |buckets| == old(|buckets|) && clock == old(clock) + 1 && size == old(size) + 1
      ensures var i := hash(key) % |buckets|;
              && buckets == Inserted(old(buckets), i, Entry(key, payload, 0, clock))
              && EntryInv(buckets[i][0], hash)
      ensures Items() == old(Items())[key := Item(ValueOf(payload), 0)]
      ensures allocBytes == old(allocBytes) + SIZEOF_ENTRY + |key| + 1 + PayloadBytes(payload)
      ensures peakBytes == if allocBytes > old(peakBytes) then allocBytes else old(peakBytes)
      ensures Stamped(old(buckets), old(clock), key)
    {
      hide TableInv, Flat, Bytes, EntryInv, ItemsIn, ValueOf, PayloadBytes, LastUses;
      var e := Entry(key, payload, 0, clock + 1);
      var i := hash(key) % |buckets|;
      KeyMissing(key);
      InsertedStamps(buckets, i, e);
      AfterInsert(buckets, hash, clock, i, e);
      clock := clock + 1;
      buckets := Inserted(buckets, i, e);
      size := size + 1;
      CountBytes(SIZEOF_ENTRY + |key| + 1 + PayloadBytes(payload));
    }

    /** The inserting half of kv_set_internal, once there is room. */
    method InsertString(key: bytes, val: bytes, entryOk: bool) returns (st: Status)
      requires Valid() && key !in Items() && ValidKey(key) && ValidValue(val) && clock + 1 < UINT64_MAX
      modifies this`buckets, this`size, this`allocBytes, this`peakBytes, this`clock, this`rewrite
      ensures Valid() && |buckets| == old(|buckets|) && clock == old(clock) + (if entryOk then 1 else 0)
              && size <= old(size) + 1
      ensures st == if entryOk then Ok else Internal
      ensures Items() == if entryOk then old(Items())[key := Item(Str(val), 0)] else old(Items())
      ensures rewrite == if entryOk then AppendRewrite(old(rewrite), [Rec(SET, key, val)]) else old(rewrite)
      ensures budget > 0 && old(peakBytes) <= budget && old(allocBytes) + StringBytes(key, val) <= budget
              ==> peakBytes <= budget
      ensures allocBytes == old(allocBytes) + if st == Ok then StringBytes(key, val) else 0
      ensures Stamped(old(buckets), old(clock), key)
    {
      hide Valid, Items, TableInv, Flat, Bytes, ItemsIn, FormatAll, Within, LastUses;
      WithinItself(buckets);
      NotStamped(buckets, key);
      if !entryOk {
        return Internal;
      }
      Link(key, PStr(val));
      BufferRecord(Rec(SET, key, val));
      st := Ok;
    }

    /** What SET answers under any budget, for a key that is new or does not hold a string. */
    ghost predicate SetAnswers(m: Spec.Items, key: bytes, val: bytes, entryOk: bool, st: Status)
      reads this`buckets, this`maxCapacity, this`budget, this`pathBytes
    {
      if key in m then !m[key].value.Str? ==> st == WrongType
      else st == if Full(m, maxCapacity) then CapacityFull
                 else if budget > 0 && Base() + StringBytes(key, val) > budget then BudgetExceeded
                 else if entryOk then Ok else Internal
    }

    /** kv_set_internal for a key the table does not hold. */
    method SetNew(key: bytes, val: bytes, entryOk: bool) returns (st: Status, ghost gone: set<bytes>)
      requires Valid() && key !in Items() && ValidKey(key) && ValidValue(val) && clock + 1 < UINT64_MAX
      modifies this`buckets, this`size, this`allocBytes, this`peakBytes, this`clock, this`rewrite, this`drawn
      ensures Valid() && |buckets| == old(|buckets|) && clock <= old(clock) + 1 && size <= old(size) + 1
      ensures gone <= old(Items()).Keys && (budget == 0 ==> gone == {})
      ensures SetAnswers(old(Items()), key, val, entryOk, st)
      ensures Items() == AfterSet(old(Items()) - gone, key, val, st)
      ensures rewrite == AppendRewrite(old(rewrite), if st == Ok then [Rec(SET, key, val)] else [])
      ensures st == BudgetExceeded ==> budget > 0 && size == 0 && allocBytes + StringBytes(key, val) > budget
      ensures old(WithinBudget()) ==> WithinBudget()
      ensures old(allocBytes) + StringBytes(key, val) <= budget ==> gone == {}
      ensures allocBytes <= old(allocBytes) + if st == Ok then StringBytes(key, val) else 0
      ensures gone == {} ==> allocBytes == old(allocBytes) + if st == Ok then StringBytes(key, val) else 0
      ensures Pressed(old(buckets), gone, Spare(budget, allocBytes, if st == Ok then 0 else StringBytes(key, val)))
      ensures Stamped(old(buckets), old(clock), key) && (clock == old(clock) + 1 <==> st == Ok)
      ensures OldestFirst(old(buckets), gone, hash, |buckets|, key)
    {
      hide Valid, Items, TableInv, Flat, Bytes, EntryInv, EntryBytes, ItemsIn, FormatAll, Pressed, StringBytes, Full,
           ValidKey, ValidValue, Within, LastUses, Evicted, OldestFirst, Unique, Placed, AppendRewrite;
      AppendNothing(rewrite);
      FullSize();
      st, gone := RoomForEntry(StringBytes(key, val), Entry(key, PStr(val), 0, 0));
      if st != Ok {
        return;
      }
      ghost var mid := buckets;
      st := InsertString(key, val, entryOk);
      StampedThen(mid, old(clock), old(buckets), old(clock), key);
    }

    /** The budget check in front of an overwrite: `st` is Ok when the new value fits. */
    method RoomToGrow(i: nat, j: nat, val: bytes) returns (st: Status, ghost gone: set<bytes>)
      requires Valid() && i < |buckets| && j < |buckets[i]| && buckets[i][j].payload.PStr?
      modifies this`buckets, this`size, this`allocBytes, this`drawn
      ensures Valid() && |buckets| == old(|buckets|) && size <= old(size)
      ensures gone <= old(Items()).Keys && (budget == 0 ==> gone == {})
      ensures Items() == old(Items()) - gone
      ensures st == Ok || st == BudgetExceeded
      ensures st == BudgetExceeded ==> budget > 0 && size == 0 && allocBytes + |val| > budget
      ensures st == Ok && budget > 0 && old(allocBytes) <= budget ==>
                allocBytes + SaturatingSub(|val|, old(|buckets[i][j].payload.s|)) <= budget
      ensures var delta := SaturatingSub(|val|, old(|buckets[i][j].payload.s|));
              && (old(allocBytes) + delta <= budget ==> gone == {})
              && (gone != {} ==> delta > 0)
              && Pressed(old(buckets), gone, Spare(budget, allocBytes, delta))
      ensures Within(buckets, old(buckets)) && allocBytes <= old(allocBytes)
      ensures Evicted(old(buckets), old(drawn), rng, buckets, drawn, gone)
    {
      hide Valid, Items, TableInv, Flat, Bytes, EntryInv, EntryBytes, ItemsIn, Pressed, Within, Evicted;
      gone := {};
      WithinItself(buckets);
      NothingEvicted(buckets, drawn, rng);
      NothingPressed(buckets, Spare(budget, allocBytes, SaturatingSub(|val|, |buckets[i][j].payload.s|)));
      assert Items() - {} == Items();
      var delta := SaturatingSub(|val|, |buckets[i][j].payload.s|);
      if budget > 0 && delta > 0 {
        gone := MakeRoom(delta, NO_ENTRY);
        if allocBytes + delta > budget {
          return BudgetExceeded, gone;
        }
      }
      st := Ok;
    }

    /** kv_set_internal for a string key the table holds; not `done` when the eviction loop
        removed that very entry. */
    method SetExisting(i0: nat, j0: nat, val: bytes, entryOk: bool)
      returns (done: bool, st: Status, ghost gone: set<bytes>)
      requires Valid() && i0 < |buckets| && j0 < |buckets[i0]| && clock + 1 < UINT64_MAX
      requires buckets[i0][j0].payload.PStr? && ValidValue(val)
      requires var e := buckets[i0][j0]; e.key in Items() && Items()[e.key] == ItemOf(e)
      modifies this`buckets, this`size, this`allocBytes, this`peakBytes, this`clock, this`rewrite, this`drawn
      ensures Valid() && |buckets| == old(|buckets|) && clock <= old(clock) + 1 && size <= old(size)
      ensures gone <= old(Items()).Keys && (budget == 0 ==> gone == {})
      ensures var key := old(buckets[i0][j0].key);
              && Items() == AfterSet(old(Items()) - gone, key, val, if done then st else Internal)
              && rewrite == AppendRewrite(old(rewrite), if done && st == Ok then [Rec(SET, key, val)] else [])
              && (!done ==> key !in Items() && clock == old(clock) && budget > 0)
              && (budget == 0 ==> st == if entryOk then Ok else Internal)
              && (done && st == BudgetExceeded ==>
                    budget > 0 && size == 0 && allocBytes + StringBytes(key, val) > budget)
              && (old(allocBytes) + StringBytes(key, val) <= budget ==> gone == {})
              && Pressed(old(buckets), gone,
                         Spare(budget, allocBytes, if done && st == Ok then 0 else StringBytes(key, val)))
      ensures old(WithinBudget()) ==> WithinBudget()
      ensures !done ==> Within(buckets, old(buckets)) && allocBytes <= old(allocBytes)
      ensures Stamped(old(buckets), old(clock), old(buckets[i0][j0].key))
      ensures clock == old(clock) + 1 <==> done && st == Ok
      ensures OldestFirst(old(buckets), gone, hash, |buckets|, old(buckets[i0][j0].key))
    {
      hide Valid, Items, TableInv, Flat, Bytes, EntryInv, EntryBytes, ItemsIn, FormatAll, ItemOf, Pressed, Within,
           LastUses, Evicted, OldestFirst, Unique, Placed;
      ghost var before := Items();
      AppendNothing(rewrite);
      Accounted();
      var key := buckets[i0][j0].key;
      ghost var was := buckets[i0][j0];
      done := true;
      ghost var delta := SaturatingSub(|val|, |was.payload.s|);
      st, gone := RoomToGrow(i0, j0, val);
      PressedLess(old(buckets), gone, Spare(budget, allocBytes, delta),
                  Spare(budget, allocBytes, StringBytes(key, val)));
      NotStamped(old(buckets), key);
      TakenInOrder(old(buckets), old(drawn), gone, key);
      if st != Ok {
        return;
      }
      ghost var mid := buckets;
      ghost var room := Spare(budget, allocBytes, delta);
      done, st := OverwriteFound(key, val, entryOk, was);
      StampedThen(mid, old(clock), old(buckets), old(clock), key);
      PressedLess(old(buckets), gone, room, Spare(budget, allocBytes, 0));
      assert gone == {} ==> before - gone == before;
    }

    /** Looking the key up again after eviction, and overwriting it if it is still there. */
    method OverwriteFound(key: bytes, val: bytes, entryOk: bool, ghost was: Entry) returns (done: bool, st: Status)
      requires Valid() && was.payload.PStr? && ValidValue(val) && clock + 1 < UINT64_MAX
      requires key in Items() ==> Items()[key] == ItemOf(was)
      modifies this`buckets, this`allocBytes, this`peakBytes, this`clock, this`rewrite
      ensures Valid() && |buckets| == old(|buckets|) && clock == old(clock) + (if done && st == Ok then 1 else 0)
      ensures done <==> key in old(Items())
      ensures st == if entryOk then Ok else Internal
      ensures Items() == AfterSet(old(Items()), key, val, if done then st else Internal)
      ensures rewrite == AppendRewrite(old(rewrite), if done && st == Ok then [Rec(SET, key, val)] else [])
      ensures !done ==> buckets == old(buckets) && clock == old(clock) && peakBytes == old(peakBytes)
      ensures allocBytes == old(allocBytes) + if done && st == Ok then |val| - |was.payload.s| else 0
      ensures budget > 0 && old(peakBytes) <= budget
              && old(allocBytes) + SaturatingSub(|val|, |was.payload.s|) <= budget
              ==> peakBytes <= budget
      ensures Stamped(old(buckets), old(clock), key)
    {
      hide Valid, Items, TableInv, Flat, Bytes, EntryInv, EntryBytes, ItemsIn, FormatAll, ItemOf, Within, LastUses;
      AppendNothing(rewrite);
      WithinItself(buckets);
      NotStamped(buckets, key);
      st := if entryOk then Ok else Internal;
      var i, j := Find(key);
      done := j >= 0;
      if done {
        SameString(was, buckets[i][j]);
        ItemOfEntry(buckets[i][j]);
        st := Overwrite(i, j, val, entryOk);
      }
    }

    /** kv_set_internal for a string key the table holds, inserting it anew if it was evicted. */
    method SetString(i0: nat, j0: nat, key: bytes, val: bytes, entryOk: bool)
      returns (st: Status, ghost gone: set<bytes>)
      requires Valid() && i0 < |buckets| && j0 < |buckets[i0]| && clock + 1 < UINT64_MAX
      requires buckets[i0][j0].payload.PStr? && ValidKey(key) && ValidValue(val) && buckets[i0][j0].key == key
      requires key in Items() && Items()[key] == ItemOf(buckets[i0][j0])
      modifies this`buckets, this`size, this`allocBytes, this`peakBytes, this`clock, this`rewrite, this`drawn
      ensures Valid() && |buckets| == old(|buckets|) && clock <= old(clock) + 1 && size <= old(size) + 1
      ensures gone <= old(Items()).Keys && (budget == 0 ==> gone == {})
      ensures budget == 0 ==> st == if entryOk then Ok else Internal
      ensures Items() == AfterSet(old(Items()) - gone, key, val, st)
      ensures rewrite == AppendRewrite(old(rewrite), if st == Ok then [Rec(SET, key, val)] else [])
      ensures st == BudgetExceeded ==> budget > 0 && size == 0 && allocBytes + StringBytes(key, val) > budget
      ensures old(WithinBudget()) ==> WithinBudget()
      ensures old(allocBytes) + StringBytes(key, val) <= budget ==> gone == {}
      ensures Pressed(old(buckets), gone, Spare(budget, allocBytes, if st == Ok then 0 else StringBytes(key, val)))
      ensures Stamped(old(buckets), old(clock), key) && (clock == old(clock) + 1 <==> st == Ok)
      ensures OldestFirst(old(buckets), gone, hash, |buckets|, key)
    {
      hide Valid, Items, TableInv, Flat, Bytes, EntryInv, EntryBytes, ItemsIn, FormatAll, ItemOf, AfterSet, Pressed,
           Within, LastUses, OldestFirst, Unique, Placed, WithinBut;
      ghost var before, was := Items(), buckets;
      AppendNothing(rewrite);
      Accounted();
      ItemsAre();
      var done;
      done, st, gone := SetExisting(i0, j0, val, entryOk);
      if !done {
        ghost var kept, more, mid := Items(), {}, buckets;
        ItemsAre();
        NothingGone(before - gone, key, val);
        WithinIsBut(mid, was, key);
        ghost var room := Spare(budget, allocBytes, StringBytes(key, val));
        st, more := SetNew(key, val, entryOk);
        StampedThen(mid, old(clock), old(buckets), old(clock), key);
        GoneTwice(before, gone, more, kept, key, val, st);
        PressedTwice(was, gone, room, mid, more,
                     Spare(budget, allocBytes, if st == Ok then 0 else StringBytes(key, val)));
        OldestFirstTwice(was, gone, mid, more, hash, |buckets|, key);
        gone := gone + more;
      }
    }

    /** kv_set_internal.  `gone` is what the eviction loops removed: nothing without a budget or
        when the request fits, and never more than it takes to make room. */
    method SetInternal(key: bytes, val: bytes, entryOk: bool) returns (st: Status, ghost gone: set<bytes>)
      requires Valid() && CString(key) && CString(val) && clock + 1 < UINT64_MAX
      modifies this`buckets, this`size, this`allocBytes, this`peakBytes, this`clock, this`rewrite, this`drawn
      ensures Valid() && |buckets| == old(|buckets|) && clock <= old(clock) + 1 && size <= old(size) + 1
      ensures gone <= old(Items()).Keys && (budget == 0 ==> gone == {})
      ensures budget == 0 ==>
                Out(Items(), Code(st)) == Spec.SetInternal(old(Items()), maxCapacity, key, val, entryOk)
      ensures Items() == AfterSet(old(Items()) - gone, key, val, st)
      ensures rewrite == AppendRewrite(old(rewrite), if st == Ok then [Rec(SET, key, val)] else [])
      ensures st == BudgetExceeded ==> budget > 0 && size == 0 && allocBytes + StringBytes(key, val) > budget
      ensures old(WithinBudget()) ==> WithinBudget()
      ensures old(allocBytes) + StringBytes(key, val) <= budget ==> gone == {}
      ensures Pressed(old(buckets), gone, Spare(budget, allocBytes, if st == Ok then 0 else StringBytes(key, val)))
      ensures Stamped(old(buckets), old(clock), key) && (clock == old(clock) + 1 <==> st == Ok)
      ensures OldestFirst(old(buckets), gone, hash, |buckets|, key)
      ensures GoodArgs(key, val) ==> SetAnswers(old(Items()), key, val, entryOk, st)
    {
      hide Valid, Items, TableInv, Flat, Bytes, EntryInv, EntryBytes, ItemsIn, FormatAll, ItemOf, Spec.SetInternal,
           AfterSet, Pressed, Within, LastUses, OldestFirst, SetAnswers;
      NothingPressed(buckets, Spare(budget, allocBytes, StringBytes(key, val)));
      SetAgrees(Items(), maxCapacity, key, val, entryOk);
      NothingGone(Items(), key, val);
      AppendNothing(rewrite);
      WithinItself(buckets);
      NobodyFirst(buckets, hash, |buckets|, key);
      NotStamped(buckets, key);
      gone := {};
      if ValidateKey(key) != Ok {
        return ValidateKey(key), gone;
      }
      if ValidateValue(val) != Ok {
        return ValidateValue(val), gone;
      }
      st, gone := SetChecked(key, val, entryOk);
    }

    /** kv_set_internal behind its argument checks. */
    method SetChecked(key: bytes, val: bytes, entryOk: bool) returns (st: Status, ghost gone: set<bytes>)
      requires Valid() && ValidKey(key) && ValidValue(val) && clock + 1 < UINT64_MAX
      modifies this`buckets, this`size, this`allocBytes, this`peakBytes, this`clock, this`rewrite, this`drawn
      ensures Valid() && |buckets| == old(|buckets|) && clock <= old(clock) + 1 && size <= old(size) + 1
      ensures gone <= old(Items()).Keys && (budget == 0 ==> gone == {})
      ensures budget == 0 ==> st == SetStatus(old(Items()), maxCapacity, key, val, entryOk)
      ensures Items() == AfterSet(old(Items()) - gone, key, val, st)
      ensures rewrite == AppendRewrite(old(rewrite), if st == Ok then [Rec(SET, key, val)] else [])
      ensures st == BudgetExceeded ==> budget > 0 && size == 0 && allocBytes + StringBytes(key, val) > budget
      ensures old(WithinBudget()) ==> WithinBudget()
      ensures old(allocBytes) + StringBytes(key, val) <= budget ==> gone == {}
      ensures Pressed(old(buckets), gone, Spare(budget, allocBytes, if st == Ok then 0 else StringBytes(key, val)))
      ensures Stamped(old(buckets), old(clock), key) && (clock == old(clock) + 1 <==> st == Ok)
      ensures OldestFirst(old(buckets), gone, hash, |buckets|, key)
      ensures SetAnswers(old(Items()), key, val, entryOk, st)
    {
      hide Valid, Items, TableInv, Flat, Bytes, EntryInv, EntryBytes, ItemsIn, FormatAll, ItemOf, AfterSet, Pressed,
           StringBytes, Within, LastUses, OldestFirst;
      WithinItself(buckets);
      NobodyFirst(buckets, hash, |buckets|, key);
      NotStamped(buckets, key);
      var i, j := Find(key);
      if j < 0 {
        st, gone := SetNew(key, val, entryOk);
        return;
      }
      StringItem(buckets[i][j]);
      if !buckets[i][j].payload.PStr? {
        gone := {};
        NothingPressed(buckets, Spare(budget, allocBytes, StringBytes(key, val)));
        NothingGone(Items(), key, val);
        AppendNothing(rewrite);
        return WrongType, gone;
      }
      st, gone := SetString(i, j, key, val, entryOk);
    }

    lemma AllItemsStorable()
      requires Valid()
      ensures AllStorable(Items())
    {
      MapOfSpec(Flat(buckets));
      hide EntryBytes, Storable;
      forall k | k in Items()
        ensures Storable(k, Items()[k])
      {
        var e :| e in Flat(buckets) && e.key == k;
      }
    }

    lemma CapacityMatches()
      requires Valid()
      ensures |Items()| == size
    {
      SizeOfItems(buckets, hash, clock);
    }

    lemma EmptyTable(key: bytes)
      requires Valid()
      ensures size == 0 ==> key !in Items()
    {
      hide Valid, Items;
      CapacityMatches();
    }

    lemma FullSize()
      requires Valid()
      ensures Full(Items(), maxCapacity) <==> maxCapacity > 0 && size >= maxCapacity
    {
      hide Valid, Items;
      CapacityMatches();
    }

    /** write_aof_record: appends the record and reports where it starts. */
    method WriteRecord(r: Rec, env: Env) returns (st: Status, pos: int)
      modifies this`log
      ensures st == if !old(log).Appending? || Writable(r, env) then Ok else Io
      ensures log == AppendLog(old(log), [r], env)
      ensures old(log).Appending? && st == Ok ==> pos == |old(log).file|
      ensures !old(log).Appending? ==> pos == -1
    {
      hide Format;
      pos := -1;
      if !log.Appending? {
        return Ok, pos;
      }
      if !env.ioOk {
        return Io, pos;
      }
      pos := |log.file|;
      if |Format(r)| < RECORD_BUF {
        log := Appending(log.file + Format(r));
        return Ok, pos;
      }
      return Io, pos;
    }

    /** rollback_aof_record: truncates the log to `pos`. */
    method Rollback(pos: int)
      requires log.Appending? && pos >= 0 ==> pos <= |log.file|
      modifies this`log
      ensures log == if old(log).Appending? && pos >= 0 then Appending(old(log).file[..pos]) else old(log)
    {
      if log.Appending? && pos >= 0 {
        log := Appending(log.file[..pos]);
      }
    }

    /** The table doubles: one more entry would reach the load factor, and the new array is to be had. */
    ghost predicate Grows(tableOk: bool)
      reads this
    {
      && autoResize && (size + 1) * 4 >= |buckets| * 3
      && (budget == 0 || allocBytes + 2 * |buckets| * 8 <= budget) && tableOk
    }

    /** The doubling in front of kv_set; a failed resize is ignored. */
    method Grow(tableOk: bool)
      requires Valid()
      modifies this`buckets, this`allocBytes, this`peakBytes
      ensures Valid() && Items() == old(Items())
      ensures old(WithinBudget()) ==> WithinBudget()
      ensures budget == 0 && autoResize && tableOk && old(BelowLoadFactor()) ==>
                (size + 1) * LOAD_FACTOR_DEN < |buckets| * LOAD_FACTOR_NUM
      ensures old(BelowLoadFactor()) ==> BelowLoadFactor()
      ensures |buckets| == if old(Grows(tableOk)) then 2 * old(|buckets|) else old(|buckets|)
      ensures allocBytes == old(allocBytes) + SIZEOF_POINTER * (|buckets| - old(|buckets|))
              && Within(buckets, old(buckets)) && Within(old(buckets), buckets)
    {
      assert |buckets| > 0;
      hide TableInv, Flat, Bytes, ItemsIn, Within;
      WithinItself(buckets);
      if autoResize && (size + 1) * LOAD_FACTOR_DEN >= |buckets| * LOAD_FACTOR_NUM {
        var ignored := Resize(|buckets| * 2, tableOk);
      }
    }

    /** kv_set.  Without a budget it is exactly the SET step; under one it never exceeds it,
        and gives up only on an empty store. */
    method Set(key: bytes, val: bytes, env: Env) returns (st: Status, ghost gone: set<bytes>)
      requires Valid() && CString(key) && CString(val) && clock + 1 < UINT64_MAX
      modifies this`buckets, this`size, this`allocBytes, this`peakBytes, this`clock, this`rewrite, this`log, this`drawn
      ensures Valid() && clock <= old(clock) + 1
      ensures budget == 0 ==> StepOut(View(), Code(st)) == Step(old(View()), SetOp(key, val), env)
      ensures gone <= old(Items()).Keys && Items() == AfterSet(old(Items()) - gone, key, val, st)
      ensures log == if st == Ok then AppendLog(old(log), [Rec(SET, key, val)], env) else old(log)
      ensures rewrite == AppendRewrite(old(rewrite), if st == Ok then [Rec(SET, key, val)] else [])
      ensures st == BudgetExceeded ==> budget > 0 && size == 0 && allocBytes + StringBytes(key, val) > budget
      ensures old(WithinBudget()) ==> WithinBudget()
      ensures var grown := SIZEOF_POINTER * (|buckets| - old(|buckets|));
              && (old(allocBytes) + grown + StringBytes(key, val) <= budget ==> gone == {})
              && Pressed(old(buckets), gone, Spare(budget, allocBytes, if st == Ok then 0 else StringBytes(key, val)))
      ensures budget == 0 && autoResize && env.tableOk && old(BelowLoadFactor()) ==> BelowLoadFactor()
      ensures budget == 0 && autoResize && env.tableOk && GoodArgs(key, val) ==>
                (old(size) + 1) * LOAD_FACTOR_DEN < 2 * old(|buckets|) * LOAD_FACTOR_NUM ==> BelowLoadFactor()
      ensures Used(old(buckets), old(clock), SetOp(key, val), Code(st)) && (clock == old(clock) + 1 <==> st == Ok)
      ensures |buckets| == if GoodArgs(key, val) && old(Grows(env.tableOk)) then 2 * old(|buckets|) else old(|buckets|)
      ensures OldestFirst(old(buckets), gone, hash, |buckets|, key)
      ensures GoodArgs(key, val) && (!old(log).Appending? || Writable(Rec(SET, key, val), env)) ==>
                SetAnswers(old(Items()), key, val, env.entryOk, st)
    {
      hide Valid, Items, TableInv, Flat, Bytes, ItemsIn, Step, AfterSet, Spec.SetInternal, Writable, Pressed, Within,
           StringBytes, AppendLog, AppendRewrite, FormatAll, LastUses, OldestFirst, SetAnswers;
      ghost var before, was := View(), buckets;
      NothingPressed(was, Spare(budget, allocBytes, StringBytes(key, val)));
      StepSet(before, key, val, env);
      NothingGone(Items(), key, val);
      AppendNothing(rewrite);
      WithinItself(buckets);
      NobodyFirst(buckets, hash, |buckets|, key);
      NotStamped(buckets, key);
      gone := {};
      if ValidateKey(key) != Ok {
        return ValidateKey(key), gone;
      }
      if ValidateValue(val) != Ok {
        return ValidateValue(val), gone;
      }
      Grow(env.tableOk);
      ghost var grown := buckets;
      NotStamped(was, key);
      st, gone := SetLogged(key, val, env);
      ghost var room := Spare(budget, allocBytes, if st == Ok then 0 else StringBytes(key, val));
      StampedThen(grown, old(clock), was, old(clock), key);
      OldestFirstStill(was, grown, gone, hash, |buckets|, key);
      PressedStill(grown, gone, room, was, gone, room);
    }

    /** kv_set once the table has room: write the record, set, and cut the log back on failure. */
    method SetLogged(key: bytes, val: bytes, env: Env) returns (st: Status, ghost gone: set<bytes>)
      requires Valid() && ValidKey(key) && ValidValue(val) && clock + 1 < UINT64_MAX
      modifies this`buckets, this`size, this`allocBytes, this`peakBytes, this`clock, this`rewrite, this`log, this`drawn
      ensures Valid() && |buckets| == old(|buckets|) && clock <= old(clock) + 1 && size <= old(size) + 1
      ensures budget == 0 ==> StepOut(View(), Code(st)) == Step(old(View()), SetOp(key, val), env)
      ensures gone <= old(Items()).Keys && Items() == AfterSet(old(Items()) - gone, key, val, st)
      ensures log == if st == Ok then AppendLog(old(log), [Rec(SET, key, val)], env) else old(log)
      ensures rewrite == AppendRewrite(old(rewrite), if st == Ok then [Rec(SET, key, val)] else [])
      ensures st == BudgetExceeded ==> budget > 0 && size == 0 && allocBytes + StringBytes(key, val) > budget
      ensures old(WithinBudget()) ==> WithinBudget()
      ensures old(allocBytes) + StringBytes(key, val) <= budget ==> gone == {}
      ensures Pressed(old(buckets), gone, Spare(budget, allocBytes, if st == Ok then 0 else StringBytes(key, val)))
      ensures Stamped(old(buckets), old(clock), key) && (clock == old(clock) + 1 <==> st == Ok)
      ensures OldestFirst(old(buckets), gone, hash, |buckets|, key)
      ensures !old(log).Appending? || Writable(Rec(SET, key, val), env) ==>
                SetAnswers(old(Items()), key, val, env.entryOk, st)
    {
      hide Valid, Items, TableInv, Flat, Bytes, ItemsIn, FormatAll, Format, Step, AfterSet, Spec.SetInternal,
           Writable, Pressed, StringBytes, Within, LastUses, OldestFirst, SetAnswers;
      ghost var before := View();
      StepSet(before, key, val, env);
      NothingPressed(buckets, Spare(budget, allocBytes, StringBytes(key, val)));
      NothingGone(Items(), key, val);
      AppendNothing(rewrite);
      WithinItself(buckets);
      NobodyFirst(buckets, hash, |buckets|, key);
      NotStamped(buckets, key);
      gone := {};
      var pos;
      st, pos := WriteRecord(Rec(SET, key, val), env);
      if st != Ok {
        return st, gone;
      }
      st, gone := SetInternal(key, val, env.entryOk);
      if st != Ok {
        Rollback(pos);
        Undone(before.log, Rec(SET, key, val), env, pos);
      }
    }

    /** kv_delete_internal. */
    method DeleteInternal(key: bytes) returns (st: Status)
      requires Valid() && CString(key)
      modifies this`buckets, this`size, this`allocBytes, this`rewrite
      ensures Valid() && |buckets| == old(|buckets|) && size <= old(size)
      ensures Out(Items(), Code(st)) == Spec.DeleteInternal(old(Items()), key)
      ensures rewrite == AppendRewrite(old(rewrite), if st == Ok then [Rec(DELETE, key, [])] else [])
      ensures Within(buckets, old(buckets))
    {
      hide Valid, Items, TableInv, Flat, Bytes, EntryInv, EntryBytes, ItemsIn, FormatAll, ItemOf, Within;
      AppendNothing(rewrite);
      WithinItself(buckets);
      if ValidateKey(key) != Ok {
        return InvalidParam;
      }
      var i, j := Find(key);
      if j < 0 {
        return NotFound;
      }
      WithinRemoved(buckets, i, j);
      RemoveAt(i, j);
      BufferRecord(Rec(DELETE, key, []));
      st := Ok;
    }

    /** kv_delete. */
    method Delete(key: bytes, env: Env) returns (st: Status)
      requires Valid() && CString(key)
      modifies this`buckets, this`size, this`allocBytes, this`rewrite, this`log
      ensures Valid() && |buckets| == old(|buckets|) && size <= old(size)
      ensures StepOut(View(), Code(st)) == Step(old(View()), DeleteOp(key), env)
      ensures Used(old(buckets), old(clock), DeleteOp(key), Code(st))
    {
      hide Valid, Items, TableInv, Flat, Bytes, ItemsIn, FormatAll, Format, Step, Writable, Spec.DeleteInternal,
           Within, LastUses;
      ghost var before := View();
      StepDelete(before, key, env);
      WithinItself(buckets);
      NotStamped(buckets, key);
      if ValidateKey(key) != Ok {
        return InvalidParam;
      }
      var pos;
      st, pos := WriteRecord(Rec(DELETE, key, []), env);
      if st != Ok {
        return st;
      }
      st := DeleteInternal(key);
      NotStamped(old(buckets), key);
      if st != Ok {
        Rollback(pos);
        Undone(before.log, Rec(DELETE, key, []), env, pos);
      }
    }

    /** entry->last_accessed_time = ++store->lru_clock. */
    method Touch(i: nat, j: nat)
      requires Valid() && i < |buckets| && j < |buckets[i]| && clock + 1 < UINT64_MAX
      modifies this`buckets, this`clock
      ensures Valid() && clock == old(clock) + 1 && Items() == old(Items())
      ensures buckets == Replaced(old(buckets), i, j, old(buckets[i][j]).(stamp := clock))
      ensures EntryInv(buckets[i][j], hash) && ItemOf(buckets[i][j]) == ItemOf(old(buckets[i][j]))
      ensures Stamped(old(buckets), old(clock), old(buckets[i][j].key))
    {
      hide TableInv, Flat, Bytes, EntryInv, ItemsIn, ItemOf, LastUses;
      StampsAfter(i, j, buckets[i][j].(stamp := clock + 1));
      AfterTouch(buckets, hash, clock, i, j);
      clock := clock + 1;
      buckets := Replaced(buckets, i, j, buckets[i][j].(stamp := clock));
    }

    lemma StampsAfter(i: nat, j: nat, e: Entry)
      requires Valid() && i < |buckets| && j < |buckets[i]| && e.key == buckets[i][j].key
      ensures LastUses(Replaced(buckets, i, j, e), buckets, e.key, true, e.stamp)
      ensures e.stamp == buckets[i][j].stamp ==> LastUses(Replaced(buckets, i, j, e), buckets, e.key, false, clock)
    {
      hide TableInv, Flat, LastUses;
      Accounted();
      ReplacedStamps(buckets, i, j, e, clock);
    }

    /** Writing an entry's payload and deadline in place, with the bytes that takes or gives back. */
    method Rewrite(i: nat, j: nat, payload: Payload, deadline: int)
      requires Valid() && i < |buckets| && j < |buckets[i]|
      requires EntryInv(buckets[i][j].(payload := payload, deadline := deadline), hash)
      modifies this`buckets, this`allocBytes, this`peakBytes
      ensures Valid()
      ensures buckets == Replaced(old(buckets), i, j, old(buckets[i][j]).(payload := payload, deadline := deadline))
      ensures EntryInv(buckets[i][j], hash)
      ensures Items() == old(Items())[old(buckets[i][j].key) := Item(ValueOf(payload), deadline)]
      ensures allocBytes == old(allocBytes) - PayloadBytes(old(buckets[i][j].payload)) + PayloadBytes(payload)
      ensures peakBytes == if allocBytes > old(peakBytes) then allocBytes else old(peakBytes)
      ensures Stamped(old(buckets), clock, old(buckets[i][j].key))
    {
      hide TableInv, Flat, Bytes, EntryInv, ItemsIn, ValueOf, PayloadBytes, LastUses;
      var e := buckets[i][j];
      var e' := e.(payload := payload, deadline := deadline);
      StampsAfter(i, j, e');
      AfterReplace(buckets, hash, clock, i, j, e', clock);
      var before, now := PayloadBytes(e.payload), PayloadBytes(payload);
      buckets := Replaced(buckets, i, j, e');
      if now >= before {
        CountBytes(now - before);
      } else {
        allocBytes := SaturatingSub(allocBytes, before - now);
      }
    }

    // ----- Lists (src/list.c) -----

    /** kv_lpush: the LPUSH step on what eviction left.  `dangling` is set when the second eviction
        loop removed the very list whose pointer the call goes on to use. */
    method LPush(key: bytes, val: bytes, env: Env) returns (reply: Reply, dangling: bool, ghost gone: set<bytes>)
      requires Valid() && CString(key) && CString(val) && clock + 1 < UINT64_MAX
      modifies this`buckets, this`size, this`allocBytes, this`peakBytes, this`clock, this`rewrite, this`log, this`drawn
      ensures Valid() && |buckets| == old(|buckets|) && clock <= old(clock) + 1 && size <= old(size) + 1
      ensures !dangling && reply != Code(BudgetExceeded) ==>
                && gone <= old(Items()).Keys && key !in gone
                && StepOut(View(), reply) == Step(old(View()).(items := old(Items()) - gone), LPushOp(key, val), env)
                && Fair(old(buckets), gone,
                        Spare(budget, allocBytes, if reply.Int? then 0 else ListBytes(key) + ListNodeBytes(val)),
                        hash, |buckets|, key)
      ensures budget == 0 ==> StepOut(View(), reply) == Step(old(View()), LPushOp(key, val), env)
      ensures budget == 0 || old(allocBytes) + ListBytes(key) + ListNodeBytes(val) <= budget ==>
                !dangling && reply != Code(BudgetExceeded) && gone == {}
      ensures reply == Code(BudgetExceeded) ==>
                && size == 0 && allocBytes + ListBytes(key) + ListNodeBytes(val) > budget
                && log == old(log) && rewrite == old(rewrite)
      ensures dangling ==> key in gone && key !in Items() && log == old(log) && rewrite == old(rewrite)
      ensures budget == 0 || old(allocBytes) + ListBytes(key) + ListNodeBytes(val) <= budget ==>
                old(BelowLoadFactor()) ==>
                (BelowLoadFactor() <==> PushFits(old(Items()), |buckets|, maxCapacity, key, val, env))
      ensures old(WithinBudget()) ==> WithinBudget()
      ensures var guard := GoodArgs(key, val)
                           && old(EvictsItself(key, List([]), ListBytes(key), ListNodeBytes(val), env));
              && (dangling ==> guard)
              && (Hits(rng, |buckets|, hash(key) % |buckets|) && old(OpensInBucket(key, ListBytes(key), env.now)) ==>
                    (dangling <==> guard))
      ensures Used(old(buckets), old(clock), LPushOp(key, val), reply)
    {
      hide Valid, Items, TableInv, Flat, Bytes, ItemsIn, Format, Step, AppendLog, AppendRewrite, ValidateKey,
           ValidateValue, Spec.LPush, OpensInBucket, EvictsItself, Pressed, Fair, Hits, Fetch, PushFits, LastUses;
      ghost var before := View();
      EvictedNothing(before);
      StepPush(before, LPushOp(key, val), env);
      reply, dangling, gone := PushItem(key, val, env);
      ghost var kept := before.(items := before.items - gone);
      StepPush(kept, LPushOp(key, val), env);
      if !dangling && reply.Int? {
        var ignored, pos := WriteRecord(Rec(LPUSH, key, val), env);
        BufferRecord(Rec(LPUSH, key, val));
      }
    }

    /** A new store of one bucket after LPUSH k v. */
    static method OnePush(hash: Hash, rng: nat -> nat, budget: nat) returns (s: KvStore)
      requires budget == 0 || budget >= 108
      ensures fresh(s) && s.Valid() && s.autoResize && s.budget == budget && s.log == NoLog && s.rewrite.None?
      ensures |s.buckets| == 1 && s.hash == hash && s.rng == rng && s.maxCapacity == 0 && s.pathBytes == 0
              && s.clock <= 1
      ensures s.Items() == map[[107] := Item(List([[118]]), 0)]
    {
      hide KvStore.Valid, KvStore.Items, TableInv, Flat, Bytes, Pressed, Hits;
      var key: bytes, val: bytes, env := [107], [118], ReplayEnv(0);
      s := new KvStore(hash, rng, 1, 0, budget);
      assert ValidateKey(key) == Ok by { assert forall c | c in key :: c == 107; }
      Unlogged(s.View(), LPushOp(key, val), env);
      EvictedNothing(s.View());
      var reply, dangling, gone := s.LPush(key, val, env);
      LPushCases(map[], 0, key, val, env);
      assert [val] + [] == [val];
    }

    /** LPUSH and SADD never resize: one push takes a one-bucket store past its load factor. */
    static method PushBreaksLoadFactor(hash: Hash, rng: nat -> nat) returns (s: KvStore)
      ensures fresh(s) && s.Valid() && s.autoResize && s.budget == 0 && s.log == NoLog
      ensures s.Items() == map[[107] := Item(List([[118]]), 0)] && !s.BelowLoadFactor()
    {
      hide KvStore.Valid, KvStore.Items;
      s := OnePush(hash, rng, 0);
      s.CapacityMatches();
    }

    /** `key` is at `buckets[i][j]`, where it belongs, and no entry was used after it. */
    ghost predicate JustUsed(i: nat, j: nat, key: bytes)
      reads this`buckets, this`clock
    {
      && i < |buckets| && j < |buckets[i]| && i == hash(key) % |buckets|
      && buckets[i][j].key == key && buckets[i][j].stamp == clock && EntryInv(buckets[i][j], hash)
      && key in Items() && Items()[key] == ItemOf(buckets[i][j])
    }

    /** Opening the container takes no eviction outside its bucket. */
    ghost predicate OpensInBucket(key: bytes, overhead: nat, now: int)
      requires |buckets| > 0
      reads this`buckets, this`allocBytes, this`budget
    {
      var live := key in Fetch(Items(), key, now);
      live || budget == 0 || OpenBeside(buckets[hash(key) % |buckets|], key, allocBytes, live, overhead) <= budget
    }

    /** The container can be opened, and its bucket without its mates would still be too full for a
        node that the empty table has room for. */
    ghost predicate EvictsItself(key: bytes, empty: Value, overhead: nat, node: nat, env: Env)
      requires |buckets| > 0
      reads this`buckets, this`allocBytes, this`maxCapacity, this`pathBytes, this`budget
    {
      var f, c := Fetch(Items(), key, env.now), buckets[hash(key) % |buckets|];
      && OpenStatus(f, maxCapacity, key, empty, env) == Ok
      && OpenBeside(c, key, allocBytes, key in f, overhead) + node > budget
      && budget > 0 && Base() + node <= budget
    }

    lemma OnlyEntry(key: bytes, val: bytes)
      requires Valid() && |buckets| == 1 && Items() == map[key := Item(List([val]), 0)]
      ensures MateBytes(buckets[0], key) == 0 && allocBytes == Base() + ListBytes(key) + ListNodeBytes(val)
    {
      CapacityMatches();
      var es := Flat(buckets);
      assert Concat(buckets[1..]) == [];
      assert es == buckets[0] == [es[0]];
      MapOfSpec(es);
      assert ItemOf(es[0]) == Items()[key];
      ListItem(es[0]);
      assert NodeBytes([val][1..], SIZEOF_LIST_NODE) == 0 && Bytes(es[1..]) == 0;
    }

    /** Under a budget of 110 bytes a one-bucket store takes the first of two one-byte nodes, and to
        make room for the second evicts the list it is pushing to, whatever the draws. */
    static method PushDangles(hash: Hash, rng: nat -> nat) returns (s: KvStore, reply: Reply, dangling: bool)
      ensures fresh(s) && s.budget == 110 && dangling && [107] !in s.Items()
    {
      hide KvStore.Valid, KvStore.Items, MateBytes, Pressed, Step;
      var key: bytes, val: bytes, env := [107], [119], ReplayEnv(0);
      s := OnePush(hash, rng, 110);
      s.OnlyEntry(key, [118]);
      assert ValidateKey(key) == Ok by { assert forall c | c in key :: c == 107; }
      assert Fetch(s.Items(), key, 0) == s.Items();
      ghost var gone;
      reply, dangling, gone := s.LPush(key, val, env);
    }

    /** kv_lpush without its log record. */
    method PushItem(key: bytes, val: bytes, env: Env) returns (reply: Reply, dangling: bool, ghost gone: set<bytes>)
      requires Valid() && CString(key) && CString(val) && clock + 1 < UINT64_MAX
      modifies this`buckets, this`size, this`allocBytes, this`peakBytes, this`clock, this`drawn
      ensures Valid() && |buckets| == old(|buckets|) && clock <= old(clock) + 1 && size <= old(size) + 1
      ensures !dangling && reply != Code(BudgetExceeded) ==>
                && gone <= old(Items()).Keys && key !in gone
                && Out(Items(), reply) == Spec.LPush(old(Items()) - gone, maxCapacity, key, val, env)
                && Fair(old(buckets), gone,
                        Spare(budget, allocBytes, if reply.Int? then 0 else ListBytes(key) + ListNodeBytes(val)),
                        hash, |buckets|, key)
      ensures budget == 0 || old(allocBytes) + ListBytes(key) + ListNodeBytes(val) <= budget ==>
                !dangling && reply != Code(BudgetExceeded) && gone == {}
      ensures reply == Code(BudgetExceeded) ==> size == 0 && allocBytes + ListBytes(key) + ListNodeBytes(val) > budget
      ensures dangling ==> key in gone && key !in Items() && reply != Code(BudgetExceeded)
      ensures budget == 0 || old(allocBytes) + ListBytes(key) + ListNodeBytes(val) <= budget ==>
                old(BelowLoadFactor()) ==>
                (BelowLoadFactor() <==> PushFits(old(Items()), |buckets|, maxCapacity, key, val, env))
      ensures old(WithinBudget()) ==> WithinBudget()
      ensures var guard := GoodArgs(key, val)
                           && old(EvictsItself(key, List([]), ListBytes(key), ListNodeBytes(val), env));
              && (dangling ==> guard)
              && (Hits(rng, |buckets|, hash(key) % |buckets|) && old(OpensInBucket(key, ListBytes(key), env.now)) ==>
                    (dangling <==> guard))
      ensures Used(old(buckets), old(clock), LPushOp(key, val), reply)
    {
      hide Spec.LPush, ValidateKey, ValidateValue, ListBytes, ListNodeBytes, Valid, Items, Pressed, Fair, Hits,
           OpensInBucket, EvictsItself, Fetch, PushFits, Within, LastUses;
      dangling, gone := false, {};
      WithinItself(buckets);
      NotStamped(buckets, key);
      NothingFair(buckets, Spare(budget, allocBytes, ListBytes(key) + ListNodeBytes(val)), hash, |buckets|, key);
      assert Items() - {} == Items();
      BadPushArgs(Items(), maxCapacity, key, val, env);
      ArgCodes(key, val);
      CapacityMatches();
      if ValidateKey(key) != Ok {
        reply := Code(ValidateKey(key));
      } else if ValidateValue(val) != Ok {
        reply := Code(ValidateValue(val));
      } else {
        reply, dangling, gone := PushChecked(key, val, env);
      }
      CapacityMatches();
      if old(BelowLoadFactor()) && gone == {} && !dangling && reply != Code(BudgetExceeded) {
        LoadAfterPush(old(Items()), size, |buckets|, maxCapacity, key, val, env);
      }
    }

    /** kv_lpush behind its argument checks. */
    method PushChecked(key: bytes, val: bytes, env: Env) returns (reply: Reply, dangling: bool, ghost gone: set<bytes>)
      requires Valid() && ValidKey(key) && ValidValue(val) && clock + 1 < UINT64_MAX
      modifies this`buckets, this`size, this`allocBytes, this`peakBytes, this`clock, this`drawn
      ensures Valid() && |buckets| == old(|buckets|) && clock <= old(clock) + 1 && size <= old(size) + 1
      ensures !dangling && reply != Code(BudgetExceeded) ==>
                && gone <= old(Items()).Keys && key !in gone
                && Out(Items(), reply) == Spec.LPush(old(Items()) - gone, maxCapacity, key, val, env)
                && Fair(old(buckets), gone,
                        Spare(budget, allocBytes, if reply.Int? then 0 else ListBytes(key) + ListNodeBytes(val)),
                        hash, |buckets|, key)
      ensures budget == 0 || old(allocBytes) + ListBytes(key) + ListNodeBytes(val) <= budget ==>
                !dangling && reply != Code(BudgetExceeded) && gone == {}
      ensures reply == Code(BudgetExceeded) ==> size == 0 && allocBytes + ListBytes(key) + ListNodeBytes(val) > budget
      ensures dangling ==> key in gone && key !in Items() && reply != Code(BudgetExceeded)
      ensures old(WithinBudget()) ==> WithinBudget()
      ensures var guard := old(EvictsItself(key, List([]), ListBytes(key), ListNodeBytes(val), env));
              && (dangling ==> guard)
              && (Hits(rng, |buckets|, hash(key) % |buckets|) && old(OpensInBucket(key, ListBytes(key), env.now)) ==>
                    (dangling <==> guard))
      ensures Used(old(buckets), old(clock), LPushOp(key, val), reply)
    {
      hide Spec.LPush, ValidateKey, ValidateValue, ListBytes, ListNodeBytes, Valid, Items, TableInv, Flat, Bytes,
           ItemsIn, EntryInv, OpenStatus, Opened, Fetch, ItemOf, PayloadBytes, Within, WithinBut, Pressed, Fair,
           MateBytes, Hits, JustUsed, SameKind, LastUses, Unique, Placed;
      ghost var m0 := Items();
      ItemsAre();
      Accounted();
      EmptyListInv(key, clock + 1, hash);
      var st, i, j;
      st, i, j, gone := Open(key, PList([]), env);
      NoneEvicted(m0, gone, key, env.now);
      PushRefused(m0, maxCapacity, key, val, env, gone);
      OpenInternal(Fetch(m0, key, env.now) - gone, maxCapacity, key, List([]), env);
      if st != Ok {
        FairLess(old(buckets), gone, Spare(budget, allocBytes, ListBytes(key)),
                 Spare(budget, allocBytes, ListBytes(key) + ListNodeBytes(val)), hash, |buckets|, key);
        reply, dangling := Code(st), false;
      } else {
        ghost var more, mid, at := {}, buckets, clock;
        reply, dangling, more := PushOpened(i, j, key, val, env, m0, old(buckets), gone);
        StampedThen(mid, at, old(buckets), old(clock), key);
        gone := gone + more;
      }
    }

    /** The second half of kv_lpush, after an opening that lost `lost`, as a step of the map. */
    method PushOpened(i: nat, j: nat, key: bytes, val: bytes, env: Env,
               ghost m0: Items, ghost before: Buckets, ghost lost: set<bytes>)
      returns (reply: Reply, dangling: bool, ghost gone: set<bytes>)
      requires Valid() && JustUsed(i, j, key) && ValidKey(key) && ValidValue(val) && lost <= m0.Keys && key !in lost
      requires var m := Fetch(m0, key, env.now) - lost;
               OpenStatus(m, maxCapacity, key, List([]), env) == Ok && Items() == Opened(m, key, List([]))
      requires Fair(before, lost, Spare(budget, allocBytes, 0), hash, |buckets|, key) && WithinBut(buckets, before, key)
      requires m0 == ItemsIn(before) && Unique(Flat(before))
      modifies this`buckets, this`size, this`allocBytes, this`peakBytes, this`drawn
      ensures Valid() && |buckets| == old(|buckets|) && size <= old(size)
      ensures !dangling && reply != Code(BudgetExceeded) ==>
                && lost + gone <= m0.Keys && key !in gone
                && Out(Items(), reply) == Spec.LPush(m0 - (lost + gone), maxCapacity, key, val, env)
                && Fair(before, lost + gone,
                        Spare(budget, allocBytes, if reply.Int? then 0 else ListBytes(key) + ListNodeBytes(val)),
                        hash, |buckets|, key)
      ensures budget == 0 || old(allocBytes) + ListNodeBytes(val) <= budget ==>
                reply != Code(BudgetExceeded) && gone == {}
      ensures reply == Code(BudgetExceeded) ==> !dangling && size == 0 && allocBytes + ListNodeBytes(val) > budget
      ensures dangling ==> key in gone && key !in Items() && reply == Code(Internal)
      ensures var guard := budget > 0 && Base() + ListNodeBytes(val) <= budget
                           && Crowded(old(buckets), hash(key) % |buckets|, key, old(allocBytes),
                                      ListNodeBytes(val), budget);
              (dangling ==> guard) && (Hits(rng, |buckets|, hash(key) % |buckets|) ==> (dangling <==> guard))
      ensures old(WithinBudget()) ==> WithinBudget()
      ensures Stamped(old(buckets), clock, key)
      ensures key in Items() ==> reply.Int? || reply == Code(Internal)
    {
      hide Valid, Items, Spec.LPush, ValidateKey, ValidateValue, OpenStatus, Opened, Fetch, JustUsed, WithinBut,
           Pressed, Fair, Crowded, Hits, ListBytes, ListNodeBytes, LastUses, ItemsIn, Unique, Flat;
      ItemsAre();
      OpenedKeys(m0, key, env.now, lost, List([]));
      OpenedKind(Fetch(m0, key, env.now) - lost, maxCapacity, key, List([]), env);
      reply, dangling, gone := PushFresh(i, j, key, val, env.nodeOk);
      EmptyTable(key);
      if !dangling && reply != Code(BudgetExceeded) {
        LPushed(m0, maxCapacity, key, val, env, lost, gone, old(Items()));
        FairPush(before, lost, old(buckets), gone, key, hash, |buckets|, budget, old(allocBytes), allocBytes,
                 reply.Int?,
                    ListNodeBytes(val), ListBytes(key));
      }
    }

    /** Room for the node, and the node. */
    method PushFresh(i0: nat, j0: nat, key: bytes, val: bytes, nodeOk: bool)
      returns (reply: Reply, dangling: bool, ghost gone: set<bytes>)
      requires Valid() && JustUsed(i0, j0, key) && Items()[key].value.List? && ValidValue(val)
      modifies this`buckets, this`size, this`allocBytes, this`peakBytes, this`drawn
      ensures Valid() && |buckets| == old(|buckets|) && size <= old(size)
      ensures gone <= old(Items()).Keys
      ensures budget == 0 || old(allocBytes) + ListNodeBytes(val) <= budget ==>
                reply != Code(BudgetExceeded) && gone == {}
      ensures reply == Code(BudgetExceeded) ==> !dangling && size == 0 && allocBytes + ListNodeBytes(val) > budget
      ensures var was := old(Items())[key];
              && (dangling ==> key in gone && key !in Items() && reply == Code(Internal))
              && (!dangling && reply != Code(BudgetExceeded) ==>
                    && key !in gone
                    && reply == (if nodeOk then Int(|was.value.items| + 1) else Code(Internal))
                    && Items() == if nodeOk
                                  then (old(Items()) - gone)[key := Item(List([val] + was.value.items), was.deadline)]
                                  else old(Items()) - gone)
      ensures gone == {} ==> allocBytes == old(allocBytes) + if reply.Int? then ListNodeBytes(val) else 0
      ensures Fair(old(buckets), gone, Spare(budget, allocBytes, if reply.Int? then 0 else ListNodeBytes(val)), hash,
                   |buckets|, key)
      ensures var guard := budget > 0 && Base() + ListNodeBytes(val) <= budget
                           && Crowded(old(buckets), hash(key) % |buckets|, key, old(allocBytes),
                                      ListNodeBytes(val), budget);
              (dangling ==> guard) && (Hits(rng, |buckets|, hash(key) % |buckets|) ==> (dangling <==> guard))
      ensures old(WithinBudget()) ==> WithinBudget()
      ensures Stamped(old(buckets), clock, key)
    {
      hide Valid, Items, TableInv, Flat, Bytes, ItemsIn, EntryInv, ItemOf, PayloadBytes, ValueOf, Concat, Pressed, Fair,
           Crowded, Hits, ListNodeBytes, MateBytes, Within, LastUses, Evicted, Unique, Placed, OldestFirst;
      ListItem(buckets[i0][j0]);
      Accounted();
      ghost var was := Items()[key];
      var st, i, j;
      st, dangling, i, j, gone := RoomFor(key, i0, j0, ListNodeBytes(val));
      NotStamped(old(buckets), key);
      TakenFair(old(buckets), old(drawn), gone, key, Spare(budget, allocBytes, ListNodeBytes(val)));
      ghost var mid := buckets;
      if st != Ok {
        return Code(st), false, gone;
      }
      if dangling {
        return Code(Internal), true, gone;
      }
      assert Items()[key] == was;
      if !nodeOk {
        return Code(Internal), false, gone;
      }
      reply := PushNode(i, j, val);
      StampedThen(mid, clock, old(buckets), clock, key);
    }

    /** The splice at the head of the list. */
    method PushNode(i: nat, j: nat, val: bytes) returns (reply: Reply)
      requires Valid() && i < |buckets| && j < |buckets[i]| && ValidValue(val)
      requires ItemOf(buckets[i][j]).value.List? && EntryInv(buckets[i][j], hash)
      requires buckets[i][j].key in Items() && Items()[buckets[i][j].key] == ItemOf(buckets[i][j])
      modifies this`buckets, this`allocBytes, this`peakBytes
      ensures Valid() && |buckets| == old(|buckets|)
      ensures var key := old(buckets[i][j].key);
              var was := old(Items())[key];
              && was.value.List? && reply == Int(|was.value.items| + 1)
              && Items() == old(Items())[key := Item(List([val] + was.value.items), was.deadline)]
      ensures allocBytes == old(allocBytes) + ListNodeBytes(val)
      ensures old(WithinBudget()) && (budget > 0 ==> old(allocBytes) + ListNodeBytes(val) <= budget) ==> WithinBudget()
      ensures Stamped(old(buckets), clock, old(buckets[i][j].key))
    {
      hide Valid, Items, TableInv, Flat, Bytes, ItemsIn, EntryInv, ItemOf, PayloadBytes, LastUses;
      ListItem(buckets[i][j]);
      PushedList(buckets[i][j], hash, val);
      reply := Int(|buckets[i][j].payload.items| + 1);
      Rewrite(i, j, PList([val] + buckets[i][j].payload.items), buckets[i][j].deadline);
    }

    /** The first half of kv_lpush and kv_sadd: find the container, or make room and link an
        empty one.  Either way it is then the entry used last. */
    method Open(key: bytes, empty: Payload, env: Env) returns (st: Status, i: nat, j: nat, ghost gone: set<bytes>)
      requires Valid() && ValidKey(key) && clock + 1 < UINT64_MAX
      requires !empty.PStr? && EntryInv(Entry(key, empty, 0, clock + 1), hash)
      modifies this`buckets, this`size, this`allocBytes, this`peakBytes, this`clock, this`drawn
      ensures Valid() && |buckets| == old(|buckets|) && clock <= old(clock) + 1 && size <= old(size) + 1
      ensures var m := Fetch(old(Items()), key, env.now);
              && gone <= old(Items()).Keys && key !in gone && (budget == 0 ==> gone == {})
              && (st != BudgetExceeded ==>
                    st == OpenStatus(m - gone, maxCapacity, key, ValueOf(empty), env)
                    == OpenStatus(m, maxCapacity, key, ValueOf(empty), env))
              && (st != Ok ==> Items() == m - gone)
              && (st == Ok ==>
                    && Items() == Opened(m - gone, key, ValueOf(empty))
                    && JustUsed(i, j, key) && SameKind(buckets[i][j].payload, empty))
      ensures var need := SIZEOF_ENTRY + |key| + 1 + PayloadBytes(empty);
              && allocBytes <= old(allocBytes) + need
              && (old(allocBytes) + need <= budget ==> gone == {} && st != BudgetExceeded)
              && (st == BudgetExceeded ==> budget > 0 && size == 0 && allocBytes + need > budget)
              && Fair(old(buckets), gone, Spare(budget, allocBytes, if st == Ok then 0 else need), hash, |buckets|, key)
      ensures st == Ok ==> WithinBut(buckets, old(buckets), key)
      ensures var t, live := hash(key) % |buckets|, key in Fetch(old(Items()), key, env.now);
              var need := SIZEOF_ENTRY + |key| + 1 + PayloadBytes(empty);
              var was := OpenBeside(old(buckets)[t], key, old(allocBytes), live, need);
              var now := Beside(buckets[t], key, allocBytes);
              && (live || was <= budget ==> st != BudgetExceeded)
              && (st == Ok ==>
                    now <= was && (live || gone == {} || (Hits(rng, |buckets|, t) && was <= budget) ==> now == was))
      ensures old(WithinBudget()) ==> WithinBudget()
      ensures Stamped(old(buckets), old(clock), key) && (clock == old(clock) + 1 <==> st == Ok)
    {
      hide Valid, Items, TableInv, Flat, Bytes, ItemsIn, EntryInv, EntryBytes, ItemOf, PayloadBytes, Within,
           WithinBut, Pressed, Fair, Full, MateBytes, ValueOf, SameKind, JustUsed, Hits, LastUses, Unique, Placed,
           Fetch;
      i, j, gone := 0, 0, {};
      var k;
      Accounted();
      ItemsAre();
      i, k := DropExpired(key, env.now);
      ItemsAre();
      FetchKeys(old(Items()), key, env.now);
      ghost var m, mid := Items(), buckets;
      NotStamped(old(buckets), key);
      assert m - {} == m;
      ghost var need := SIZEOF_ENTRY + |key| + 1 + PayloadBytes(empty);
      NothingFair(old(buckets), Spare(budget, allocBytes, need), hash, |buckets|, key);
      NothingFair(old(buckets), Spare(budget, allocBytes, 0), hash, |buckets|, key);
      if k >= 0 {
        j := k;
        st := OpenLive(i, j, key, empty);
        StampedThen(mid, old(clock), old(buckets), old(clock), key);
        WithinButTrans(buckets, mid, old(buckets), key);
        assert m[key := m[key]] == m;
      } else {
        st, i, j, gone := OpenNew(key, empty, env);
        StampedThen(mid, old(clock), old(buckets), old(clock), key);
        FullLess(m, gone, maxCapacity);
        assert gone == {} ==> m - gone == m;
        FairOther(old(buckets), mid, gone, key, Spare(budget, allocBytes, if st == Ok then 0 else need), hash,
                  |buckets|);
        if st == Ok {
          WithinButTrans(buckets, mid, old(buckets), key);
        }
      }
    }

    /** Opening a container the table holds: it only has to be of the right kind. */
    method OpenLive(i: nat, j: nat, key: bytes, empty: Payload) returns (st: Status)
      requires Valid() && i == hash(key) % |buckets| && j < |buckets[i]| && clock + 1 < UINT64_MAX && !empty.PStr?
      requires buckets[i][j].key == key && EntryInv(buckets[i][j], hash)
      requires key in Items() && Items()[key] == ItemOf(buckets[i][j])
      modifies this`buckets, this`clock
      ensures Valid() && |buckets| == old(|buckets|) && Items() == old(Items()) && clock <= old(clock) + 1
      ensures var v, w := old(Items())[key].value, ValueOf(empty);
              st == if v.List? == w.List? && v.Set? == w.Set? then Ok else WrongType
      ensures st == Ok ==> JustUsed(i, j, key) && SameKind(buckets[i][j].payload, empty)
      ensures MateBytes(buckets[i], key) == MateBytes(old(buckets)[i], key) && WithinBut(buckets, old(buckets), key)
      ensures Stamped(old(buckets), old(clock), key) && (clock == old(clock) + 1 <==> st == Ok)
    {
      hide Valid, Items, TableInv, Flat, Bytes, ItemsIn, EntryInv, EntryBytes, ItemOf, ValueOf, Within, WithinBut,
           MateBytes, LastUses;
      KindOfItem(buckets[i][j], empty);
      WithinItself(buckets);
      NotStamped(buckets, key);
      WithinIsBut(buckets, buckets, key);
      if !SameKind(buckets[i][j].payload, empty) {
        return WrongType;
      }
      BesideReplaced(buckets, i, j, buckets[i][j].(stamp := clock + 1));
      Touch(i, j);
      st := Ok;
    }

    /** Opening a container the table does not hold. */
    method OpenNew(key: bytes, empty: Payload, env: Env) returns (st: Status, i: nat, j: nat, ghost gone: set<bytes>)
      requires Valid() && ValidKey(key) && clock + 1 < UINT64_MAX && key !in Items()
      requires !empty.PStr? && EntryInv(Entry(key, empty, 0, clock + 1), hash)
      modifies this`buckets, this`size, this`allocBytes, this`peakBytes, this`clock, this`drawn
      ensures Valid() && |buckets| == old(|buckets|) && clock <= old(clock) + 1 && size <= old(size) + 1
      ensures gone <= old(Items()).Keys && (budget == 0 ==> gone == {})
      ensures st != BudgetExceeded ==>
                st == if Full(old(Items()), maxCapacity) then CapacityFull else if env.entryOk then Ok else Internal
      ensures st == CapacityFull ==> gone == {}
      ensures st != Ok ==> Items() == old(Items()) - gone
      ensures st == Ok ==>
                && Items() == (old(Items()) - gone)[key := Item(ValueOf(empty), 0)]
                && JustUsed(i, j, key) && SameKind(buckets[i][j].payload, empty)
      ensures var need := SIZEOF_ENTRY + |key| + 1 + PayloadBytes(empty);
              && allocBytes <= old(allocBytes) + need
              && (old(allocBytes) + need <= budget ==> gone == {} && st != BudgetExceeded)
              && (st == BudgetExceeded ==> budget > 0 && size == 0 && allocBytes + need > budget)
              && (st == Ok && gone == {} ==> allocBytes == old(allocBytes) + need)
              && Fair(old(buckets), gone, Spare(budget, allocBytes, if st == Ok then 0 else need), hash, |buckets|, key)
      ensures st == Ok ==> WithinBut(buckets, old(buckets), key)
      ensures var t := hash(key) % |buckets|;
              var need := SIZEOF_ENTRY + |key| + 1 + PayloadBytes(empty);
              var was, now := Beside(old(buckets)[t], key, old(allocBytes)) + need, Beside(buckets[t], key, allocBytes);
              && (was <= budget ==> st != BudgetExceeded)
              && (st == Ok ==> now <= was && (gone == {} || (Hits(rng, |buckets|, t) && was <= budget) ==> now == was))
      ensures old(WithinBudget()) ==> WithinBudget()
      ensures Stamped(old(buckets), old(clock), key) && (clock == old(clock) + 1 <==> st == Ok)
    {
      hide Valid, Items, TableInv, Flat, Bytes, ItemsIn, EntryInv, EntryBytes, ItemOf, PayloadBytes, Pressed, Fair,
           Full, ValueOf, ValidKey, Within, WithinBut, MateBytes, RestBytes, Hits, LastUses, Evicted, Unique, Placed,
           OldestFirst;
      i, j := 0, 0;
      FullSize();
      AbsentBeside(key);
      st, gone := RoomForEntry(SIZEOF_ENTRY + |key| + 1 + PayloadBytes(empty), Entry(key, empty, 0, 0));
      if st != Ok {
        return;
      }
      if !env.entryOk {
        return Internal, i, j, gone;
      }
      AbsentBeside(key);
      ghost var mid := buckets;
      WithinIsBut(mid, old(buckets), key);
      i, j := LinkContainer(key, empty);
      StampedThen(mid, old(clock), old(buckets), old(clock), key);
      WithinButTrans(buckets, mid, old(buckets), key);
    }

    /** A key that is not there takes nothing in its bucket. */
    lemma AbsentBeside(key: bytes)
      requires Valid() && key !in Items()
      ensures |buckets| > 0
      ensures var t := hash(key) % |buckets|; Beside(buckets[t], key, allocBytes) == Base() + RestBytes(buckets, t)
    {
      hide TableInv, RestBytes, Bytes, MateBytes, EntryBytes;
      Accounted();
      var t := hash(key) % |buckets|;
      forall e | e in buckets[t]
        ensures e.key != key
      {
        var j :| 0 <= j < |buckets[t]| && buckets[t][j] == e;
        LookupFound(buckets, hash, clock, t, j);
      }
      NoMates(buckets[t], key);
      RestAndBucket(buckets, t);
    }

    method LinkContainer(key: bytes, empty: Payload) returns (i: nat, j: nat)
      requires Valid() && key !in Items() && ValidKey(key) && clock + 1 < UINT64_MAX
      requires EntryInv(Entry(key, empty, 0, clock + 1), hash)
      modifies this`buckets, this`size, this`allocBytes, this`peakBytes, this`clock
      ensures Valid() && |buckets| == old(|buckets|) && clock == old(clock) + 1 && size == old(size) + 1
      ensures Items() == old(Items())[key := Item(ValueOf(empty), 0)]
      ensures JustUsed(i, j, key) && buckets[i][j].payload == empty
      ensures allocBytes == old(allocBytes) + SIZEOF_ENTRY + |key| + 1 + PayloadBytes(empty)
      ensures peakBytes == if allocBytes > old(peakBytes) then allocBytes else old(peakBytes)
      ensures MateBytes(buckets[i], key) == MateBytes(old(buckets)[i], key) && WithinBut(buckets, old(buckets), key)
      ensures Stamped(old(buckets), old(clock), key)
    {
      hide Valid, Items, TableInv, Flat, Bytes, ItemsIn, EntryInv, ItemOf, PayloadBytes, MateBytes, WithinBut, LastUses;
      i, j := hash(key) % |buckets|, 0;
      BesideInserted(buckets, i, Entry(key, empty, 0, clock + 1));
      Link(key, empty);
      ItemOfEntry(buckets[i][j]);
    }

    lemma NewestHere(i: nat, j: nat)
      requires Valid() && i < |buckets| && j < |buckets[i]| && buckets[i][j].stamp == clock
      ensures NewestIn(buckets, i, buckets[i][j])
    {
      hide EntryInv, Placed, Bytes;
      InConcat(buckets, buckets[i][j]);
      forall x | x in Flat(buckets) && x != buckets[i][j]
        ensures x.stamp < clock
      {
      }
    }

    /** The second eviction loop of kv_lpush and kv_sadd, and where the container is after it.  Some
        draws evict the container and go on if and only if its bucket without its mates would still
        be too full, and the empty table would not. */
    method RoomFor(key: bytes, i0: nat, j0: nat, need: nat)
      returns (st: Status, dangling: bool, i: nat, j: nat, ghost gone: set<bytes>)
      requires Valid() && JustUsed(i0, j0, key)
      modifies this`buckets, this`size, this`allocBytes, this`drawn
      ensures Valid() && |buckets| == old(|buckets|) && size <= old(size)
      ensures gone <= old(Items()).Keys && Items() == old(Items()) - gone
      ensures budget == 0 || old(allocBytes) + need <= budget ==> st == Ok && gone == {}
      ensures st == if budget == 0 || Base() + need <= budget then Ok else BudgetExceeded
      ensures st == BudgetExceeded ==> size == 0 && allocBytes + need > budget
      ensures st == Ok && budget > 0 ==> allocBytes + need <= budget
      ensures gone == {} ==> allocBytes == old(allocBytes)
      ensures dangling <==> st == Ok && key in gone
      ensures st == Ok && !dangling ==>
                && i < |buckets| && j < |buckets[i]| && buckets[i][j].key == key
                && EntryInv(buckets[i][j], hash) && key in Items() && Items()[key] == ItemOf(buckets[i][j])
      ensures Pressed(old(buckets), gone, Spare(budget, allocBytes, need))
      ensures var guard := budget > 0 && Base() + need <= budget
                           && Crowded(old(buckets), i0, key, old(allocBytes), need, budget);
              (dangling ==> guard) && (Hits(rng, |buckets|, i0) ==> (dangling <==> guard))
      ensures Within(buckets, old(buckets))
      ensures Evicted(old(buckets), old(drawn), rng, buckets, drawn, gone)
    {
      hide Valid, Items, TableInv, Flat, Bytes, ItemsIn, EntryInv, EntryBytes, ItemOf, Within, Pressed, Crowded, Hits,
           NewestIn, MateBytes, Evicted;
      st, dangling, i, j, gone := Ok, false, i0, j0, {};
      assert Items() - {} == Items();
      WithinItself(buckets);
      NothingEvicted(buckets, drawn, rng);
      NewestHere(i0, j0);
      var ok, k;
      ok, gone := EnsureRoom(need, buckets[i0][j0]);
      if !ok {
        return BudgetExceeded, false, i, j, gone;
      }
      i, k := Find(key);
      if k < 0 {
        return Ok, true, i, j, gone;
      }
      j := k;
    }

    /** kv_rpop: the oldest push comes out; the last one takes the key with it. */
    method RPop(key: bytes, env: Env) returns (reply: Reply)
      requires Valid() && CString(key) && clock + 1 < UINT64_MAX
      modifies this`buckets, this`size, this`allocBytes, this`peakBytes, this`clock, this`rewrite, this`log
      ensures Valid() && |buckets| == old(|buckets|) && size <= old(size) && clock <= old(clock) + 1
              && peakBytes == old(peakBytes)
      ensures StepOut(View(), reply) == Step(old(View()), RPopOp(key), env)
      ensures Used(old(buckets), old(clock), RPopOp(key), reply)
    {
      hide Valid, Items, TableInv, Flat, Bytes, ItemsIn, Format, Step, EntryInv, AppendLog, AppendRewrite, Fetch,
           ItemOf, PayloadBytes, EntryBytes, Spec.DeleteInternal, Within, LastUses;
      ghost var before := View();
      AllItemsStorable();
      StepRPop(before, key, env);
      var i, j := FindEntry(key, env.now);
      NotStamped(old(buckets), key);
      ghost var mid := buckets;
      if j < 0 {
        return Code(NotFound);
      }
      ListItem(buckets[i][j]);
      if !buckets[i][j].payload.PList? {
        return Code(WrongType);
      }
      var items := buckets[i][j].payload.items;
      if items == [] {
        return Code(NotFound);
      }
      if !env.nodeOk {
        return Code(Internal);
      }
      var rest, last := items[..|items| - 1], items[|items| - 1];
      PoppedList(buckets[i][j], hash);
      ShrinkContainer(key, i, j, PList(rest), rest == [], Rec(RPOP, key, []), env);
      StampedThen(mid, old(clock), old(buckets), old(clock), key);
      reply := Bulk(last);
    }

    /** What RPOP and SREM do to the container they have taken an element from. */
    method ShrinkContainer(key: bytes, i: nat, j: nat, payload: Payload, isEmpty: bool, r: Rec, env: Env)
      requires Valid() && ValidKey(key) && clock + 1 < UINT64_MAX && key in Items()
      requires i < |buckets| && j < |buckets[i]| && buckets[i][j].key == key
      requires EntryInv(buckets[i][j].(payload := payload), hash)
      requires PayloadBytes(payload) <= PayloadBytes(buckets[i][j].payload)
      modifies this`buckets, this`size, this`allocBytes, this`peakBytes, this`clock, this`rewrite, this`log
      ensures Valid() && |buckets| == old(|buckets|) && size <= old(size) && peakBytes == old(peakBytes)
      ensures var m := old(Items())[key := Item(ValueOf(payload), old(buckets[i][j].deadline))];
              Items() == if isEmpty then m - {key} else m
      ensures log == AppendLog(old(log), [r], env)
      ensures var rw := AppendRewrite(old(rewrite), [r]);
              rewrite == if isEmpty then AppendRewrite(rw, [Rec(DELETE, key, [])]) else rw
      ensures Stamped(old(buckets), old(clock), key) && clock == old(clock) + if isEmpty then 0 else 1
    {
      hide Valid, Items, TableInv, Flat, Bytes, ItemsIn, EntryInv, AppendLog, AppendRewrite, ItemOf, PayloadBytes,
           ValueOf, LastUses, Format;
      Rewrite(i, j, payload, buckets[i][j].deadline);
      ghost var mid := buckets;
      var ignored, pos := WriteRecord(r, env);
      BufferRecord(r);
      CloseContainer(key, i, j, isEmpty);
      StampedThen(mid, old(clock), old(buckets), old(clock), key);
    }

    /** The end of kv_rpop and kv_srem: an emptied container is deleted, another one is touched. */
    method CloseContainer(key: bytes, i: nat, j: nat, isEmpty: bool)
      requires Valid() && ValidKey(key) && clock + 1 < UINT64_MAX
      requires i < |buckets| && j < |buckets[i]| && key in Items()
      modifies this`buckets, this`size, this`allocBytes, this`clock, this`rewrite
      ensures Valid() && |buckets| == old(|buckets|) && size <= old(size) && clock <= old(clock) + 1
      ensures Items() == if isEmpty then old(Items()) - {key} else old(Items())
      ensures rewrite == if isEmpty then AppendRewrite(old(rewrite), [Rec(DELETE, key, [])]) else old(rewrite)
      ensures old(buckets[i][j].key) == key ==> Stamped(old(buckets), old(clock), key)
      ensures clock == old(clock) + if isEmpty then 0 else 1
    {
      hide Valid, Items, TableInv, Flat, Bytes, ItemsIn, EntryInv, AppendRewrite, ItemOf, EntryBytes, Within, LastUses;
      if isEmpty {
        var ignored := DeleteInternal(key);
        NotStamped(old(buckets), key);
      } else {
        Touch(i, j);
      }
    }

    /** kv_llen. */
    method LLen(key: bytes, env: Env) returns (reply: Reply)
      requires Valid() && CString(key) && clock + 1 < UINT64_MAX
      modifies this`buckets, this`size, this`allocBytes, this`clock
      ensures Valid() && |buckets| == old(|buckets|) && size <= old(size) && clock <= old(clock) + 1
      ensures StepOut(View(), reply) == Step(old(View()), LLenOp(key), env)
      ensures Used(old(buckets), old(clock), LLenOp(key), reply)
    {
      hide Valid, Items, TableInv, Flat, Bytes, ItemsIn, Step, EntryInv, Fetch, ItemOf, Within, LastUses;
      StepOther(View(), LLenOp(key), env);
      AppendNothing(rewrite);
      var i, j := FindEntry(key, env.now);
      NotStamped(old(buckets), key);
      ghost var mid := buckets;
      if j < 0 {
        return Int(0);
      }
      ListItem(buckets[i][j]);
      if !buckets[i][j].payload.PList? {
        return Code(WrongType);
      }
      reply := Int(|buckets[i][j].payload.items|);
      Touch(i, j);
      StampedThen(mid, old(clock), old(buckets), old(clock), key);
    }

    // ----- Sets (src/set.c) -----

    /** The duplicate check of kv_sadd and the search of kv_srem. */
    method FindNode(nodes: seq<seq<bytes>>, val: bytes) returns (s: nat, p: int)
      requires SetInv(nodes, hash)
      ensures s < SET_BUCKETS && s == hash(val) % SET_BUCKETS && -1 <= p < |nodes[s]|
      ensures p >= 0 ==> nodes[s][p] == val && val in Concat(nodes)
      ensures p < 0 ==> val !in Concat(nodes)
    {
      s := hash(val) % SET_BUCKETS;
      p := 0;
      InConcat(nodes, val);
      while p < |nodes[s]|
        invariant 0 <= p <= |nodes[s]|
        invariant val !in nodes[s][..p]
      {
        hide NoDup, Concat;
        if nodes[s][p] == val {
          return;
        }
        p := p + 1;
      }
      assert nodes[s][..p] == nodes[s];
      p := -1;
    }

    /** kv_sadd: the SADD step on what eviction left, with `dangling` as for LPush. */
    method SAdd(key: bytes, val: bytes, env: Env) returns (reply: Reply, dangling: bool, ghost gone: set<bytes>)
      requires Valid() && CString(key) && CString(val) && clock + 1 < UINT64_MAX
      modifies this`buckets, this`size, this`allocBytes, this`peakBytes, this`clock, this`rewrite, this`log, this`drawn
      ensures Valid() && |buckets| == old(|buckets|) && clock <= old(clock) + 1 && size <= old(size) + 1
      ensures !dangling && reply != Code(BudgetExceeded) ==>
                && gone <= old(Items()).Keys && key !in gone
                && StepOut(View(), reply) == Step(old(View()).(items := old(Items()) - gone), SAddOp(key, val), env)
                && Fair(old(buckets), gone,
                        Spare(budget, allocBytes, if reply == Int(1) then 0 else SetBytes(key) + SetNodeBytes(val)),
                        hash, |buckets|, key)
      ensures budget == 0 ==> StepOut(View(), reply) == Step(old(View()), SAddOp(key, val), env)
      ensures budget == 0 || old(allocBytes) + SetBytes(key) + SetNodeBytes(val) <= budget ==>
                !dangling && reply != Code(BudgetExceeded) && gone == {}
      ensures reply == Code(BudgetExceeded) ==>
                && size == 0 && allocBytes + SetBytes(key) + SetNodeBytes(val) > budget
                && log == old(log) && rewrite == old(rewrite)
      ensures dangling ==> key in gone && key !in Items() && log == old(log) && rewrite == old(rewrite)
      ensures budget == 0 || old(allocBytes) + SetBytes(key) + SetNodeBytes(val) <= budget ==>
                old(BelowLoadFactor()) ==>
                (BelowLoadFactor() <==> PushFits(old(Items()), |buckets|, maxCapacity, key, val, env))
      ensures old(WithinBudget()) ==> WithinBudget()
      ensures var guard := GoodArgs(key, val) && old(NewMember(key, val, env.now))
                           && old(EvictsItself(key, Value.Set({}), SetBytes(key), SetNodeBytes(val), env));
              && (dangling ==> guard)
              && (Hits(rng, |buckets|, hash(key) % |buckets|) && old(OpensInBucket(key, SetBytes(key), env.now)) ==>
                    (dangling <==> guard))
      ensures Used(old(buckets), old(clock), SAddOp(key, val), reply)
    {
      hide Valid, Items, TableInv, Flat, Bytes, ItemsIn, Format, Step, AppendLog, AppendRewrite, ValidateKey,
           ValidateValue, Spec.SAdd, OpensInBucket, EvictsItself, NewMember, Pressed, Fair, Hits, Fetch, PushFits,
           LastUses;
      ghost var before := View();
      EvictedNothing(before);
      StepPush(before, SAddOp(key, val), env);
      reply, dangling, gone := AddMember(key, val, env);
      ghost var kept := before.(items := before.items - gone);
      StepPush(kept, SAddOp(key, val), env);
      if !dangling && reply == Int(1) {
        var ignored, pos := WriteRecord(Rec(SADD, key, val), env);
        BufferRecord(Rec(SADD, key, val));
      }
    }

    /** The member is not there yet. */
    ghost predicate NewMember(key: bytes, val: bytes, now: int)
      reads this`buckets
    {
      var f := Fetch(Items(), key, now);
      key in f && f[key].value.Set? ==> val !in f[key].value.members
    }

    lemma NewWhenOpened(key: bytes, val: bytes, env: Env)
      ensures var f := Fetch(Items(), key, env.now);
              OpenStatus(f, maxCapacity, key, Value.Set({}), env) == Ok ==>
                (val !in Opened(f, key, Value.Set({}))[key].value.members <==> NewMember(key, val, env.now))
    {
      hide Fetch, Items;
    }

    /** kv_sadd without its log record. */
    method AddMember(key: bytes, val: bytes, env: Env) returns (reply: Reply, dangling: bool, ghost gone: set<bytes>)
      requires Valid() && CString(key) && CString(val) && clock + 1 < UINT64_MAX
      modifies this`buckets, this`size, this`allocBytes, this`peakBytes, this`clock, this`drawn
      ensures Valid() && |buckets| == old(|buckets|) && clock <= old(clock) + 1 && size <= old(size) + 1
      ensures !dangling && reply != Code(BudgetExceeded) ==>
                && gone <= old(Items()).Keys && key !in gone
                && Out(Items(), reply) == Spec.SAdd(old(Items()) - gone, maxCapacity, key, val, env)
                && Fair(old(buckets), gone,
                        Spare(budget, allocBytes, if reply == Int(1) then 0 else SetBytes(key) + SetNodeBytes(val)),
                        hash, |buckets|, key)
      ensures budget == 0 || old(allocBytes) + SetBytes(key) + SetNodeBytes(val) <= budget ==>
                !dangling && reply != Code(BudgetExceeded) && gone == {}
      ensures reply == Code(BudgetExceeded) ==> size == 0 && allocBytes + SetBytes(key) + SetNodeBytes(val) > budget
      ensures dangling ==> key in gone && key !in Items() && reply != Code(BudgetExceeded)
      ensures budget == 0 || old(allocBytes) + SetBytes(key) + SetNodeBytes(val) <= budget ==>
                old(BelowLoadFactor()) ==>
                (BelowLoadFactor() <==> PushFits(old(Items()), |buckets|, maxCapacity, key, val, env))
      ensures old(WithinBudget()) ==> WithinBudget()
      ensures var guard := GoodArgs(key, val) && old(NewMember(key, val, env.now))
                           && old(EvictsItself(key, Value.Set({}), SetBytes(key), SetNodeBytes(val), env));
              && (dangling ==> guard)
              && (Hits(rng, |buckets|, hash(key) % |buckets|) && old(OpensInBucket(key, SetBytes(key), env.now)) ==>
                    (dangling <==> guard))
      ensures Used(old(buckets), old(clock), SAddOp(key, val), reply)
    {
      hide Spec.SAdd, ValidateKey, ValidateValue, SetBytes, SetNodeBytes, Valid, Items, Pressed, Fair, Hits,
           OpensInBucket, EvictsItself, NewMember, Fetch, PushFits, Within, LastUses;
      dangling, gone := false, {};
      WithinItself(buckets);
      NotStamped(buckets, key);
      NothingFair(buckets, Spare(budget, allocBytes, SetBytes(key) + SetNodeBytes(val)), hash, |buckets|, key);
      assert Items() - {} == Items();
      BadPushArgs(Items(), maxCapacity, key, val, env);
      ArgCodes(key, val);
      CapacityMatches();
      if ValidateKey(key) != Ok {
        reply := Code(ValidateKey(key));
      } else if ValidateValue(val) != Ok {
        reply := Code(ValidateValue(val));
      } else {
        reply, dangling, gone := AddChecked(key, val, env);
      }
      CapacityMatches();
      if old(BelowLoadFactor()) && gone == {} && !dangling && reply != Code(BudgetExceeded) {
        LoadAfterPush(old(Items()), size, |buckets|, maxCapacity, key, val, env);
      }
    }

    /** kv_sadd behind its argument checks. */
    method AddChecked(key: bytes, val: bytes, env: Env) returns (reply: Reply, dangling: bool, ghost gone: set<bytes>)
      requires Valid() && ValidKey(key) && ValidValue(val) && clock + 1 < UINT64_MAX
      modifies this`buckets, this`size, this`allocBytes, this`peakBytes, this`clock, this`drawn
      ensures Valid() && |buckets| == old(|buckets|) && clock <= old(clock) + 1 && size <= old(size) + 1
      ensures !dangling && reply != Code(BudgetExceeded) ==>
                && gone <= old(Items()).Keys && key !in gone
                && Out(Items(), reply) == Spec.SAdd(old(Items()) - gone, maxCapacity, key, val, env)
                && Fair(old(buckets), gone,
                        Spare(budget, allocBytes, if reply == Int(1) then 0 else SetBytes(key) + SetNodeBytes(val)),
                        hash, |buckets|, key)
      ensures budget == 0 || old(allocBytes) + SetBytes(key) + SetNodeBytes(val) <= budget ==>
                !dangling && reply != Code(BudgetExceeded) && gone == {}
      ensures reply == Code(BudgetExceeded) ==> size == 0 && allocBytes + SetBytes(key) + SetNodeBytes(val) > budget
      ensures dangling ==> key in gone && key !in Items() && reply != Code(BudgetExceeded)
      ensures old(WithinBudget()) ==> WithinBudget()
      ensures var guard := old(NewMember(key, val, env.now))
                           && old(EvictsItself(key, Value.Set({}), SetBytes(key), SetNodeBytes(val), env));
              && (dangling ==> guard)
              && (Hits(rng, |buckets|, hash(key) % |buckets|) && old(OpensInBucket(key, SetBytes(key), env.now)) ==>
                    (dangling <==> guard))
      ensures Used(old(buckets), old(clock), SAddOp(key, val), reply)
    {
      hide Spec.SAdd, ValidateKey, ValidateValue, SetBytes, SetNodeBytes, Valid, Items, TableInv, Flat, Bytes,
           ItemsIn, EntryInv, OpenStatus, Opened, Fetch, ItemOf, PayloadBytes, Within, WithinBut, Pressed, Fair,
           MateBytes, Hits, JustUsed, SameKind, SetInv, ValueOf, NewMember, LastUses, Unique, Placed;
      ghost var m0 := Items();
      ItemsAre();
      Accounted();
      NewWhenOpened(key, val, env);
      EmptySetInv(key, clock + 1, hash);
      var st, i, j;
      st, i, j, gone := Open(key, EmptySet(), env);
      OpenedSame(Fetch(m0, key, env.now), gone, key, Value.Set({}));
      NoneEvicted(m0, gone, key, env.now);
      PushRefused(m0, maxCapacity, key, val, env, gone);
      OpenInternal(Fetch(m0, key, env.now) - gone, maxCapacity, key, Value.Set({}), env);
      if st != Ok {
        FairLess(old(buckets), gone, Spare(budget, allocBytes, SetBytes(key)),
                 Spare(budget, allocBytes, SetBytes(key) + SetNodeBytes(val)), hash, |buckets|, key);
        reply, dangling := Code(st), false;
      } else {
        ghost var more, mid, at := {}, buckets, clock;
        reply, dangling, more := AddOpened(i, j, key, val, env, m0, old(buckets), gone);
        StampedThen(mid, at, old(buckets), old(clock), key);
        gone := gone + more;
      }
    }

    /** The second half of kv_sadd, after an opening that lost `lost`, as a step of the map. */
    method AddOpened(i: nat, j: nat, key: bytes, val: bytes, env: Env,
               ghost m0: Items, ghost before: Buckets, ghost lost: set<bytes>)
      returns (reply: Reply, dangling: bool, ghost gone: set<bytes>)
      requires Valid() && JustUsed(i, j, key) && ValidKey(key) && ValidValue(val) && lost <= m0.Keys && key !in lost
      requires var m := Fetch(m0, key, env.now) - lost;
               OpenStatus(m, maxCapacity, key, Value.Set({}), env) == Ok && Items() == Opened(m, key, Value.Set({}))
      requires Fair(before, lost, Spare(budget, allocBytes, 0), hash, |buckets|, key) && WithinBut(buckets, before, key)
      requires m0 == ItemsIn(before) && Unique(Flat(before))
      modifies this`buckets, this`size, this`allocBytes, this`peakBytes, this`drawn
      ensures Valid() && |buckets| == old(|buckets|) && size <= old(size)
      ensures !dangling && reply != Code(BudgetExceeded) ==>
                && lost + gone <= m0.Keys && key !in gone
                && Out(Items(), reply) == Spec.SAdd(m0 - (lost + gone), maxCapacity, key, val, env)
                && Fair(before, lost + gone,
                        Spare(budget, allocBytes, if reply == Int(1) then 0 else SetBytes(key) + SetNodeBytes(val)),
                        hash, |buckets|, key)
      ensures budget == 0 || old(allocBytes) + SetNodeBytes(val) <= budget ==>
                reply != Code(BudgetExceeded) && gone == {}
      ensures reply == Code(BudgetExceeded) ==> !dangling && size == 0 && allocBytes + SetNodeBytes(val) > budget
      ensures dangling ==> key in gone && key !in Items() && reply == Code(Internal)
      ensures var guard := budget > 0 && Base() + SetNodeBytes(val) <= budget && val !in old(Items())[key].value.members
                           && Crowded(old(buckets), hash(key) % |buckets|, key, old(allocBytes),
                                      SetNodeBytes(val), budget);
              (dangling ==> guard) && (Hits(rng, |buckets|, hash(key) % |buckets|) ==> (dangling <==> guard))
      ensures old(WithinBudget()) ==> WithinBudget()
      ensures Stamped(old(buckets), clock, key)
      ensures key in Items() ==> reply.Int? || reply == Code(Internal)
    {
      hide Valid, Items, Spec.SAdd, ValidateKey, ValidateValue, OpenStatus, Opened, Fetch, JustUsed, WithinBut,
           Pressed, Fair, Crowded, Hits, SetBytes, SetNodeBytes, LastUses, ItemsIn, Unique, Flat;
      ItemsAre();
      OpenedKeys(m0, key, env.now, lost, Value.Set({}));
      OpenedKind(Fetch(m0, key, env.now) - lost, maxCapacity, key, Value.Set({}), env);
      reply, dangling, gone := AddNode(i, j, key, val, env.nodeOk);
      EmptyTable(key);
      if !dangling && reply != Code(BudgetExceeded) {
        SAdded(m0, maxCapacity, key, val, env, lost, gone, old(Items()));
        FairPush(before, lost, old(buckets), gone, key, hash, |buckets|, budget, old(allocBytes), allocBytes,
                    reply == Int(1), SetNodeBytes(val), SetBytes(key));
      }
    }

    /** The member is looked for, and linked when it is new. */
    method AddNode(i0: nat, j0: nat, key: bytes, val: bytes, nodeOk: bool)
      returns (reply: Reply, dangling: bool, ghost gone: set<bytes>)
      requires Valid() && JustUsed(i0, j0, key) && Items()[key].value.Set? && ValidValue(val)
      modifies this`buckets, this`size, this`allocBytes, this`peakBytes, this`drawn
      ensures Valid() && |buckets| == old(|buckets|) && size <= old(size)
      ensures gone <= old(Items()).Keys
      ensures budget == 0 || old(allocBytes) + SetNodeBytes(val) <= budget ==>
                reply != Code(BudgetExceeded) && gone == {}
      ensures reply == Code(BudgetExceeded) ==> !dangling && size == 0 && allocBytes + SetNodeBytes(val) > budget
      ensures var was := old(Items())[key];
              && (dangling ==> key in gone && key !in Items() && reply == Code(Internal))
              && (!dangling && reply != Code(BudgetExceeded) ==>
                    && key !in gone
                    && reply == (if val in was.value.members then Int(0) else if nodeOk then Int(1) else Code(Internal))
                    && Items() == if reply == Int(1)
                                  then (old(Items()) - gone)[
                                         key := Item(Value.Set(was.value.members + {val}), was.deadline)]
                                  else old(Items()) - gone)
      ensures gone == {} ==> allocBytes == old(allocBytes) + if reply == Int(1) then SetNodeBytes(val) else 0
      ensures Fair(old(buckets), gone, Spare(budget, allocBytes, if reply == Int(1) then 0 else SetNodeBytes(val)),
                   hash, |buckets|, key)
      ensures var guard := budget > 0 && Base() + SetNodeBytes(val) <= budget && val !in old(Items())[key].value.members
                           && Crowded(old(buckets), hash(key) % |buckets|, key, old(allocBytes),
                                      SetNodeBytes(val), budget);
              (dangling ==> guard) && (Hits(rng, |buckets|, hash(key) % |buckets|) ==> (dangling <==> guard))
      ensures old(WithinBudget()) ==> WithinBudget()
      ensures Stamped(old(buckets), clock, key)
    {
      hide Valid, Items, TableInv, Flat, Bytes, ItemsIn, EntryInv, ItemOf, PayloadBytes, SetInv, ValueOf, NoDup,
           Concat, Pressed, Fair, Crowded, Hits, SetNodeBytes, MateBytes, Within, LastUses;
      dangling, gone := false, {};
      WithinItself(buckets);
      NotStamped(buckets, key);
      assert Items() - {} == Items();
      NothingFair(buckets, Spare(budget, allocBytes, SetNodeBytes(val)), hash, |buckets|, key);
      SetItem(buckets[i0][j0], hash);
      var s, p := FindNode(buckets[i0][j0].payload.nodes, val);
      if p >= 0 {
        return Int(0), false, gone;
      }
      reply, dangling, gone := AddFresh(i0, j0, key, val, nodeOk);
    }

    /** Room for the node of a new member, and the node. */
    method AddFresh(i0: nat, j0: nat, key: bytes, val: bytes, nodeOk: bool)
      returns (reply: Reply, dangling: bool, ghost gone: set<bytes>)
      requires Valid() && JustUsed(i0, j0, key) && ValidValue(val)
      requires var was := Items()[key]; was.value.Set? && val !in was.value.members
      modifies this`buckets, this`size, this`allocBytes, this`peakBytes, this`drawn
      ensures Valid() && |buckets| == old(|buckets|) && size <= old(size)
      ensures gone <= old(Items()).Keys
      ensures budget == 0 || old(allocBytes) + SetNodeBytes(val) <= budget ==>
                reply != Code(BudgetExceeded) && gone == {}
      ensures reply == Code(BudgetExceeded) ==> !dangling && size == 0 && allocBytes + SetNodeBytes(val) > budget
      ensures var was := old(Items())[key];
              && (dangling ==> key in gone && key !in Items() && reply == Code(Internal))
              && (!dangling && reply != Code(BudgetExceeded) ==>
                    && key !in gone && reply == (if nodeOk then Int(1) else Code(Internal))
                    && Items() == if nodeOk
                                  then (old(Items()) - gone)[
                                         key := Item(Value.Set(was.value.members + {val}), was.deadline)]
                                  else old(Items()) - gone)
      ensures gone == {} ==> allocBytes == old(allocBytes) + if reply == Int(1) then SetNodeBytes(val) else 0
      ensures Fair(old(buckets), gone, Spare(budget, allocBytes, if reply == Int(1) then 0 else SetNodeBytes(val)),
                   hash, |buckets|, key)
      ensures var guard := budget > 0 && Base() + SetNodeBytes(val) <= budget
                           && Crowded(old(buckets), hash(key) % |buckets|, key, old(allocBytes),
                                      SetNodeBytes(val), budget);
              (dangling ==> guard) && (Hits(rng, |buckets|, hash(key) % |buckets|) ==> (dangling <==> guard))
      ensures old(WithinBudget()) ==> WithinBudget()
      ensures Stamped(old(buckets), clock, key)
    {
      hide Valid, Items, TableInv, Flat, Bytes, ItemsIn, EntryInv, ItemOf, PayloadBytes, SetInv, ValueOf, NoDup,
           Concat, Pressed, Fair, Crowded, Hits, SetNodeBytes, MateBytes, Within, LastUses, Evicted, Unique, Placed,
           OldestFirst;
      Accounted();
      ghost var was := Items()[key];
      var st, i, j;
      st, dangling, i, j, gone := RoomFor(key, i0, j0, SetNodeBytes(val));
      NotStamped(old(buckets), key);
      TakenFair(old(buckets), old(drawn), gone, key, Spare(budget, allocBytes, SetNodeBytes(val)));
      ghost var mid := buckets;
      if st != Ok {
        return Code(st), false, gone;
      }
      if dangling {
        return Code(Internal), true, gone;
      }
      assert Items()[key] == was;
      if !nodeOk {
        return Code(Internal), false, gone;
      }
      LinkNode(i, j, val);
      StampedThen(mid, clock, old(buckets), clock, key);
      reply := Int(1);
    }

    /** The new node at the head of its bucket. */
    method LinkNode(i: nat, j: nat, val: bytes)
      requires Valid() && i < |buckets| && j < |buckets[i]| && ValidValue(val) && EntryInv(buckets[i][j], hash)
      requires buckets[i][j].key in Items() && Items()[buckets[i][j].key] == ItemOf(buckets[i][j])
      requires ItemOf(buckets[i][j]).value.Set? && val !in ItemOf(buckets[i][j]).value.members
      modifies this`buckets, this`allocBytes, this`peakBytes
      ensures Valid() && |buckets| == old(|buckets|)
      ensures var key := old(buckets[i][j].key);
              var was := old(Items())[key];
              && was.value.Set?
              && Items() == old(Items())[key := Item(Value.Set(was.value.members + {val}), was.deadline)]
      ensures allocBytes == old(allocBytes) + SetNodeBytes(val)
      ensures old(WithinBudget()) && (budget > 0 ==> old(allocBytes) + SetNodeBytes(val) <= budget) ==> WithinBudget()
      ensures Stamped(old(buckets), clock, old(buckets[i][j].key))
    {
      hide Valid, Items, TableInv, Flat, Bytes, ItemsIn, EntryInv, ItemOf, PayloadBytes, SetInv, ValueOf, NoDup,
           Concat, LastUses;
      KindOfItem(buckets[i][j], EmptySet());
      EmptySetInv([], 0, hash);
      SetItem(buckets[i][j], hash);
      var nodes := buckets[i][j].payload.nodes;
      var s := hash(val) % SET_BUCKETS;
      assert SET_BUCKETS == |nodes| by { SetShape(nodes, hash); }
      AddedNode(buckets[i][j], hash, val);
      Rewrite(i, j, PSet(nodes[s := [val] + nodes[s]]), buckets[i][j].deadline);
    }

    /** kv_srem: removing the last member removes the key. */
    method SRem(key: bytes, val: bytes, env: Env) returns (reply: Reply)
      requires Valid() && CString(key) && CString(val) && clock + 1 < UINT64_MAX
      modifies this`buckets, this`size, this`allocBytes, this`peakBytes, this`clock, this`rewrite, this`log
      ensures Valid() && |buckets| == old(|buckets|) && size <= old(size) && clock <= old(clock) + 1
              && peakBytes == old(peakBytes)
      ensures StepOut(View(), reply) == Step(old(View()), SRemOp(key, val), env)
      ensures Used(old(buckets), old(clock), SRemOp(key, val), reply)
    {
      hide Valid, Items, TableInv, Flat, Bytes, ItemsIn, Format, Step, EntryInv, AppendLog, AppendRewrite, Fetch,
           ItemOf, PayloadBytes, EntryBytes, SetInv, ValueOf, NoDup, Concat, SetOf, Within, LastUses;
      ghost var before := View();
      AllItemsStorable();
      StepSRem(before, key, val, env);
      var i, j := FindEntry(key, env.now);
      NotStamped(old(buckets), key);
      ghost var mid := buckets;
      if j < 0 {
        return Int(0);
      }
      KindOfItem(buckets[i][j], EmptySet());
      EmptySetInv(key, 0, hash);
      if !buckets[i][j].payload.PSet? {
        return Code(WrongType);
      }
      SetItem(buckets[i][j], hash);
      var nodes := buckets[i][j].payload.nodes;
      var s, p := FindNode(nodes, val);
      if p < 0 {
        return Int(0);
      }
      RemovedNode(buckets[i][j], hash, s, p);
      var nodes' := nodes[s := nodes[s][..p] + nodes[s][p + 1..]];
      ShrinkContainer(key, i, j, PSet(nodes'), Concat(nodes') == [], Rec(SREM, key, val), env);
      StampedThen(mid, old(clock), old(buckets), old(clock), key);
      reply := Int(1);
    }

    /** kv_scard. */
    method SCard(key: bytes, env: Env) returns (reply: Reply)
      requires Valid() && CString(key) && clock + 1 < UINT64_MAX
      modifies this`buckets, this`size, this`allocBytes, this`clock
      ensures Valid() && |buckets| == old(|buckets|) && size <= old(size) && clock <= old(clock) + 1
      ensures StepOut(View(), reply) == Step(old(View()), SCardOp(key), env)
      ensures Used(old(buckets), old(clock), SCardOp(key), reply)
    {
      hide Valid, Items, TableInv, Flat, Bytes, ItemsIn, Step, EntryInv, Fetch, ItemOf, ValueOf, SetInv, NoDup,
           Concat, SetOf, Within, LastUses;
      StepOther(View(), SCardOp(key), env);
      AppendNothing(rewrite);
      var i, j := FindEntry(key, env.now);
      NotStamped(old(buckets), key);
      ghost var mid := buckets;
      if j < 0 {
        return Int(0);
      }
      KindOfItem(buckets[i][j], EmptySet());
      EmptySetInv(key, 0, hash);
      if !buckets[i][j].payload.PSet? {
        return Code(WrongType);
      }
      SetItem(buckets[i][j], hash);
      reply := Int(|Concat(buckets[i][j].payload.nodes)|);
      Touch(i, j);
      StampedThen(mid, old(clock), old(buckets), old(clock), key);
    }

    /** kv_smembers: every member once. */
    method SMembers(key: bytes, env: Env) returns (members: Option<seq<bytes>>)
      requires Valid() && CString(key) && clock + 1 < UINT64_MAX
      modifies this`buckets, this`size, this`allocBytes, this`clock
      ensures Valid() && |buckets| == old(|buckets|) && size <= old(size) && clock <= old(clock) + 1
      ensures StepOut(View(), if members.None? then Nil else Members(SetOf(members.value)))
              == Step(old(View()), SMembersOp(key), env)
      ensures members.Some? ==> NoDup(members.value)
      ensures var reply := if members.None? then Nil else Members(SetOf(members.value));
              Used(old(buckets), old(clock), SMembersOp(key), reply)
    {
      hide Valid, Items, TableInv, Flat, Bytes, ItemsIn, Step, EntryInv, Fetch, ItemOf, ValueOf, SetInv, NoDup,
           Concat, SetOf, Within, LastUses;
      StepOther(View(), SMembersOp(key), env);
      AppendNothing(rewrite);
      var i, j := FindEntry(key, env.now);
      NotStamped(old(buckets), key);
      ghost var mid := buckets;
      if j < 0 {
        return None;
      }
      KindOfItem(buckets[i][j], EmptySet());
      EmptySetInv(key, 0, hash);
      if !buckets[i][j].payload.PSet? {
        return None;
      }
      SetItem(buckets[i][j], hash);
      var nodes := buckets[i][j].payload.nodes;
      if Concat(nodes) == [] || !env.nodeOk {
        return None;
      }
      var out := Gather(nodes);
      Touch(i, j);
      StampedThen(mid, old(clock), old(buckets), old(clock), key);
      members := Some(out);
    }

    /** The copying loops of kv_smembers. */
    static method Gather(nodes: seq<seq<bytes>>) returns (out: seq<bytes>)
      ensures out == Concat(nodes)
    {
      out := [];
      var b := 0;
      while b < |nodes|
        invariant b <= |nodes| && out + Concat(nodes[b..]) == Concat(nodes)
      {
        assert nodes[b..][1..] == nodes[b + 1..];
        out := out + nodes[b];
        b := b + 1;
      }
      assert nodes[b..] == [] && out + [] == out;
    }

    // ----- Strings and deadlines -----

    /** kv_get. */
    method Get(key: bytes, env: Env) returns (reply: Reply)
      requires Valid() && CString(key) && clock + 1 < UINT64_MAX
      modifies this`buckets, this`size, this`allocBytes, this`clock
      ensures Valid() && |buckets| == old(|buckets|) && size <= old(size) && clock <= old(clock) + 1
      ensures StepOut(View(), reply) == Step(old(View()), GetOp(key), env)
      ensures Used(old(buckets), old(clock), GetOp(key), reply)
    {
      hide Valid, Items, TableInv, Flat, Bytes, ItemsIn, Step, EntryInv, Fetch, ItemOf, Within, LastUses;
      StepOther(View(), GetOp(key), env);
      AppendNothing(rewrite);
      var i, j := FindEntry(key, env.now);
      NotStamped(old(buckets), key);
      ghost var mid := buckets;
      if j < 0 {
        return Nil;
      }
      StringItem(buckets[i][j]);
      if !buckets[i][j].payload.PStr? {
        return Nil;
      }
      reply := Bulk(buckets[i][j].payload.s);
      Touch(i, j);
      StampedThen(mid, old(clock), old(buckets), old(clock), key);
    }

    /** kv_exists. */
    method Exists(key: bytes, env: Env) returns (reply: Reply)
      requires Valid() && CString(key)
      modifies this`buckets, this`size, this`allocBytes
      ensures Valid() && |buckets| == old(|buckets|) && size <= old(size)
      ensures StepOut(View(), reply) == Step(old(View()), ExistsOp(key), env)
      ensures Used(old(buckets), old(clock), ExistsOp(key), reply)
    {
      hide Valid, Items, TableInv, Flat, Bytes, ItemsIn, Step, EntryInv, Fetch, ItemOf, Within, LastUses;
      StepOther(View(), ExistsOp(key), env);
      AppendNothing(rewrite);
      var i, j := FindEntry(key, env.now);
      NotStamped(old(buckets), key);
      reply := Int(if j >= 0 then 1 else 0);
    }

    /** kv_pexpireat; kv_expire and kv_pexpire only add the clock to their argument. */
    method PExpireAt(key: bytes, deadline: int, env: Env) returns (reply: Reply)
      requires Valid() && CString(key) && Int64(deadline)
      modifies this`buckets, this`size, this`allocBytes, this`peakBytes, this`rewrite, this`log
      ensures Valid() && |buckets| == old(|buckets|) && size <= old(size) && peakBytes == old(peakBytes)
      ensures StepOut(View(), reply) == Step(old(View()), PExpireAtOp(key, deadline), env)
      ensures Used(old(buckets), old(clock), PExpireAtOp(key, deadline), reply)
    {
      hide Valid, Items, TableInv, Flat, Bytes, ItemsIn, Step, EntryInv, Fetch, ItemOf, PayloadBytes, PrintInt,
           AppendLog, AppendRewrite, Within, LastUses;
      StepPExpireAt(View(), key, deadline, env);
      var i, j := FindEntry(key, env.now);
      NotStamped(old(buckets), key);
      ghost var mid := buckets;
      if j < 0 {
        return Int(0);
      }
      ItemOfEntry(buckets[i][j]);
      Redated(buckets[i][j], hash, deadline);
      Rewrite(i, j, buckets[i][j].payload, deadline);
      StampedThen(mid, old(clock), old(buckets), old(clock), key);
      var r := Rec(PEXPIREAT, key, PrintInt(deadline));
      var ignored, pos := WriteRecord(r, env);
      BufferRecord(r);
      reply := Int(1);
    }

    /** kv_persist. */
    method Persist(key: bytes, env: Env) returns (reply: Reply)
      requires Valid() && CString(key)
      modifies this`buckets, this`size, this`allocBytes, this`peakBytes, this`rewrite, this`log
      ensures Valid() && |buckets| == old(|buckets|) && size <= old(size) && peakBytes == old(peakBytes)
      ensures StepOut(View(), reply) == Step(old(View()), PersistOp(key), env)
      ensures Used(old(buckets), old(clock), PersistOp(key), reply)
    {
      hide Valid, Items, TableInv, Flat, Bytes, ItemsIn, Step, EntryInv, Fetch, ItemOf, PayloadBytes, PrintInt,
           AppendLog, AppendRewrite, Within, LastUses;
      StepPersist(View(), key, env);
      var i, j := FindEntry(key, env.now);
      NotStamped(old(buckets), key);
      ghost var mid := buckets;
      if j < 0 {
        return Int(0);
      }
      ItemOfEntry(buckets[i][j]);
      if buckets[i][j].deadline == 0 {
        return Int(0);
      }
      Redated(buckets[i][j], hash, 0);
      Rewrite(i, j, buckets[i][j].payload, 0);
      StampedThen(mid, old(clock), old(buckets), old(clock), key);
      var r := Rec(PEXPIREAT, key, PrintInt(0));
      var ignored, pos := WriteRecord(r, env);
      BufferRecord(r);
      reply := Int(1);
    }

    /** kv_pttl. */
    method PTtl(key: bytes, env: Env) returns (reply: Reply)
      requires Valid() && CString(key)
      modifies this`buckets, this`size, this`allocBytes
      ensures Valid() && |buckets| == old(|buckets|) && size <= old(size)
      ensures StepOut(View(), reply) == Step(old(View()), PTtlOp(key), env)
      ensures Used(old(buckets), old(clock), PTtlOp(key), reply)
    {
      hide Valid, Items, TableInv, Flat, Bytes, ItemsIn, Step, EntryInv, Fetch, ItemOf, Within, LastUses;
      StepOther(View(), PTtlOp(key), env);
      AppendNothing(rewrite);
      var i, j := FindEntry(key, env.now);
      NotStamped(old(buckets), key);
      ghost var mid := buckets;
      if j < 0 {
        return Int(-2);
      }
      ItemOfEntry(buckets[i][j]);
      if buckets[i][j].deadline == 0 {
        return Int(-1);
      }
      var rem := buckets[i][j].deadline - env.later;
      reply := Int(if rem < 0 then 0 else rem);
    }

    // ----- Active expiry (kv_expire_sample_sweep) -----

    /** One chain of the sweep: drops expired entries until the cap is reached. */
    method SweepBucket(idx: nat, now: int, limit: nat) returns (deleted: nat, ghost gone: set<bytes>)
      requires Valid() && idx < |buckets|
      modifies this`buckets, this`size, this`allocBytes
      ensures Valid() && |buckets| == old(|buckets|) && size <= old(size)
      ensures SweptFrom(old(Items()), Items(), gone, now) && |gone| == deleted <= limit
      ensures deleted < limit ==> forall e | e in buckets[idx] :: !Expired(ItemOf(e), now)
      ensures forall i | 0 <= i < |buckets| && i != idx :: buckets[i] == old(buckets)[i]
      ensures Thinner(buckets, old(buckets))
    {
      hide Valid, Items, TableInv, Flat, Bytes, ItemsIn, EntryBytes, ValueOf, Thinner;
      deleted, gone := 0, {};
      ThinnerItself(buckets);
      assert Items() - {} == Items();
      var j := 0;
      while j < |buckets[idx]| && deleted < limit
        invariant Valid() && |buckets| == old(|buckets|) && size <= old(size)
        invariant 0 <= j <= |buckets[idx]| && deleted <= limit
        invariant SweptFrom(old(Items()), Items(), gone, now) && |gone| == deleted
        invariant forall t | 0 <= t < j :: !Expired(ItemOf(buckets[idx][t]), now)
        invariant forall i | 0 <= i < |buckets| && i != idx :: buckets[i] == old(buckets)[i]
        invariant Thinner(buckets, old(buckets))
        decreases |buckets[idx]| - j
      {
        if 0 < buckets[idx][j].deadline <= now {
          ghost var m, key := Items(), buckets[idx][j].key;
          Holds(idx, j);
          ghost var was := buckets;
          RemoveAt(idx, j);
          ThinnerRemoved(was, idx, j);
          ThinnerTrans(buckets, was, old(buckets));
          SweptOneMore(old(Items()), m, gone, now, key);
          gone := gone + {key};
          deleted := deleted + 1;
        } else {
          j := j + 1;
        }
      }
    }

    lemma Holds(i: nat, j: nat)
      requires Valid() && i < |buckets| && j < |buckets[i]|
      ensures var e := buckets[i][j]; e.key in Items() && Items()[e.key] == ItemOf(e)
    {
      LookupFound(buckets, hash, clock, i, j);
    }

    lemma NoneExpired(now: int)
      requires Valid()
      requires forall i, e | 0 <= i < |buckets| && e in buckets[i] :: !Expired(ItemOf(e), now)
      ensures forall k | k in Items() :: !Expired(Items()[k], now)
    {
      hide ItemOf;
      MapOfSpec(Flat(buckets));
      forall k | k in Items()
        ensures !Expired(Items()[k], now)
      {
        var e :| e in Flat(buckets) && e.key == k;
        InConcat(buckets, e);
      }
    }

    /** The full scan of the sweep. */
    method SweepAll(now: int, limit: nat) returns (deleted: nat, ghost gone: set<bytes>)
      requires Valid()
      modifies this`buckets, this`size, this`allocBytes
      ensures Valid() && |buckets| == old(|buckets|) && size <= old(size)
      ensures SweptFrom(old(Items()), Items(), gone, now) && |gone| == deleted <= limit
      ensures deleted < limit ==> forall k | k in Items() :: !Expired(Items()[k], now)
      ensures Thinner(buckets, old(buckets))
    {
      hide Valid, Items, TableInv, Flat, Bytes, ItemsIn, EntryBytes, ValueOf, Thinner;
      deleted, gone := 0, {};
      ThinnerItself(buckets);
      assert Items() - {} == Items();
      var idx := 0;
      while idx < |buckets| && deleted < limit && size > 0
        invariant Valid() && |buckets| == old(|buckets|) && size <= old(size) && idx <= |buckets|
        invariant SweptFrom(old(Items()), Items(), gone, now) && |gone| == deleted <= limit
        invariant Thinner(buckets, old(buckets))
        invariant deleted < limit ==>
                    forall i, e | 0 <= i < idx && e in buckets[i] :: !Expired(ItemOf(e), now)
      {
        ghost var m, was := Items(), buckets;
        var n, more := SweepBucket(idx, now, limit - deleted);
        ThinnerTrans(buckets, was, old(buckets));
        SweptTwice(old(Items()), m, Items(), gone, more, now);
        deleted, gone := deleted + n, gone + more;
        idx := idx + 1;
      }
      if deleted < limit {
        if idx == |buckets| {
          NoneExpired(now);
        } else {
          CapacityMatches();
        }
      }
    }

    /** The sampled pass of the sweep. */
    method SweepSampled(tries: nat, limit: nat, now: int) returns (deleted: nat, ghost gone: set<bytes>)
      requires Valid()
      modifies this`buckets, this`size, this`allocBytes, this`drawn
      ensures Valid() && |buckets| == old(|buckets|) && size <= old(size)
      ensures SweptFrom(old(Items()), Items(), gone, now) && |gone| == deleted <= limit
      ensures Thinner(buckets, old(buckets)) && old(drawn) <= drawn
      ensures deleted < limit && size > 0 ==> drawn == old(drawn) + tries
      ensures deleted < limit ==> SweptClean(buckets, rng, old(drawn), drawn, now)
    {
      hide Valid, Items, TableInv, Flat, Bytes, ItemsIn, EntryBytes, ItemOf, Thinner;
      deleted, gone := 0, {};
      assert Items() - {} == Items();
      ThinnerItself(buckets);
      var iter := 0;
      while iter < tries && deleted < limit && size > 0
        invariant Valid() && |buckets| == old(|buckets|) && size <= old(size)
        invariant SweptFrom(old(Items()), Items(), gone, now) && |gone| == deleted <= limit
        invariant drawn == old(drawn) + iter && iter <= tries && Thinner(buckets, old(buckets))
        invariant deleted < limit ==> SweptClean(buckets, rng, old(drawn), drawn, now)
      {
        var idx := rng(drawn) % |buckets|;        // xorshift32 % bucket_count
        drawn := drawn + 1;
        ghost var m, was := Items(), buckets;
        var n, more := SweepBucket(idx, now, limit - deleted);
        ThinnerTrans(buckets, was, old(buckets));
        SweptTwice(old(Items()), m, Items(), gone, more, now);
        deleted, gone := deleted + n, gone + more;
        if deleted < limit {
          SweptStill(buckets, was, rng, old(drawn), drawn - 1, now);
        }
        iter := iter + 1;
      }
    }

    /** kv_expire_sample_sweep: removes only expired entries, at most `limit`, and reports
        nothing to do only when there is nothing. */
    method Sweep(sample: nat, limit: nat, now: int) returns (deleted: nat, ghost gone: set<bytes>)
      requires Valid()
      modifies this`buckets, this`size, this`allocBytes, this`drawn
      ensures Valid() && |buckets| == old(|buckets|) && size <= old(size)
      ensures SweptFrom(old(Items()), Items(), gone, now) && |gone| == deleted <= limit
      ensures limit > 0 && deleted == 0 ==> forall k | k in Items() :: !Expired(Items()[k], now)
      ensures sample >= 100 && deleted < limit ==> forall k | k in Items() :: !Expired(Items()[k], now)
      ensures Within(buckets, old(buckets)) && old(drawn) <= drawn
      ensures deleted < limit && size > 0 ==> drawn == old(drawn) + if sample < 16 then 16 else sample
      ensures deleted < limit ==> SweptClean(buckets, rng, old(drawn), drawn, now)
    {
      hide Valid, Items, TableInv, Flat, Bytes, ItemsIn, EntryBytes, ItemOf, Within, Thinner;
      deleted, gone := 0, {};
      assert Items() - {} == Items();
      CapacityMatches();
      ThinnerItself(buckets);
      ThinnerIsWithin(buckets, buckets);
      if size == 0 {
        return;
      }
      var tries := if sample < 16 then 16 else sample;
      deleted, gone := SweepSampled(tries, limit, now);
      CapacityMatches();
      ThinnerIsWithin(buckets, old(buckets));
      if sample >= 100 || (deleted == 0 && size > 0) {
        ghost var m, was := Items(), buckets;
        var n, more := SweepAll(now, limit - deleted);
        ThinnerTrans(buckets, was, old(buckets));
        ThinnerIsWithin(buckets, old(buckets));
        if deleted + n < limit {
          SweptStill(buckets, was, rng, old(drawn), drawn, now);
        }
        SweptTwice(old(Items()), m, Items(), gone, more, now);
        deleted, gone := deleted + n, gone + more;
      }
    }

    // ----- Persistence (src/aof.c) -----

    /** kv_set_expire_at_ms_internal. */
    method SetExpireInternal(key: bytes, deadline: int)
      requires Valid() && Int64(deadline)
      modifies this`buckets, this`allocBytes, this`peakBytes
      ensures Valid() && |buckets| == old(|buckets|)
      ensures Items() == if key in old(Items()) then old(Items())[key := old(Items())[key].(deadline := deadline)]
                         else old(Items())
      ensures old(WithinBudget()) ==> WithinBudget()
    {
      hide Valid, Items, TableInv, Flat, Bytes, ItemsIn, EntryInv, ItemOf, PayloadBytes, ValueOf;
      var i, j := Find(key);
      if j >= 0 {
        ItemOfEntry(buckets[i][j]);
        Redated(buckets[i][j], hash, deadline);
        Rewrite(i, j, buckets[i][j].payload, deadline);
      }
    }

    /** The branches of replay_aof_log, on a store that is not logging yet. */
    method ReplayRecord(r: Rec, now: int) returns (dangling: bool)
      requires Valid() && CString(r.key) && CString(r.arg) && clock + 1 < UINT64_MAX
      requires !log.Appending? && rewrite.None?
      modifies this`buckets, this`size, this`allocBytes, this`peakBytes, this`clock, this`rewrite, this`log, this`drawn
      ensures Valid() && |buckets| == old(|buckets|) && clock <= old(clock) + 1
      ensures !dangling ==> log == old(log) && rewrite.None?
      ensures budget == 0 ==> !dangling && Items() == ApplyRec(old(Items()), maxCapacity, r, now)
      ensures old(WithinBudget()) ==> WithinBudget()
    {
      hide Valid, Items, TableInv, Flat, Bytes, ItemsIn, Spec.SetInternal, Spec.DeleteInternal, Spec.LPush, Spec.RPop,
           Spec.SAdd, Spec.SRem, Strtoll, Step, AfterSet, Pressed;
      dangling := false;
      if ValidateKey(r.key) != Ok || (HasArg(r.cmd) && r.cmd != PEXPIREAT && ValidateValue(r.arg) != Ok) {
        return;
      }
      var env := ReplayEnv(now);
      ghost var db := View();
      match r.cmd
      case SET =>
        var st, gone := SetInternal(r.key, r.arg, true);
      case DELETE =>
        var st := DeleteInternal(r.key);
      case LPUSH =>
        var reply, bad, gone := LPush(r.key, r.arg, env);
        dangling := bad;
        Unlogged(db, LPushOp(r.key, r.arg), env);
        Unlogged(db.(items := db.items - gone), LPushOp(r.key, r.arg), env);
      case RPOP =>
        Unlogged(db, RPopOp(r.key), env);
        var reply := RPop(r.key, env);
      case SADD =>
        var reply, bad, gone := SAdd(r.key, r.arg, env);
        dangling := bad;
        Unlogged(db, SAddOp(r.key, r.arg), env);
        Unlogged(db.(items := db.items - gone), SAddOp(r.key, r.arg), env);
      case SREM =>
        Unlogged(db, SRemOp(r.key, r.arg), env);
        var reply := SRem(r.key, r.arg, env);
      case PEXPIREAT =>
        SetExpireInternal(r.key, Strtoll(r.arg));
    }

    /** replay_aof_log: the line loop over a whole file.  Under a budget, replayed pushes may
        evict, and dangle, as they do when they are called. */
    method ReplayLog(file: bytes, now: int) returns (dangling: bool)
      requires Valid() && !log.Appending? && rewrite.None? && clock + |file| < UINT64_MAX
      modifies this`buckets, this`size, this`allocBytes, this`peakBytes, this`clock, this`rewrite, this`log, this`drawn
      ensures Valid() && |buckets| == old(|buckets|)
      ensures !dangling ==> log == old(log) && rewrite.None?
      ensures budget == 0 ==> !dangling && Items() == Replay(old(Items()), maxCapacity, file, now)
      ensures old(WithinBudget()) ==> WithinBudget()
    {
      hide Valid, Items, TableInv, Flat, Bytes, ItemsIn, ApplyRec, ParseLine;
      var rest := file;
      dangling := false;
      while rest != [] && !dangling
        invariant Valid() && |buckets| == old(|buckets|)
        invariant !dangling ==> log == old(log) && rewrite.None?
        invariant clock + |rest| < UINT64_MAX
        invariant budget == 0 ==> !dangling
        invariant budget == 0 ==>
                    Replay(Items(), maxCapacity, rest, now) == Replay(old(Items()), maxCapacity, file, now)
        invariant old(WithinBudget()) ==> WithinBudget()
        decreases |rest|
      {
        var n := FgetsLen(rest);
        var line := Strip(CStr(rest[..n]));
        var parsed := ParseLine(line);
        if parsed.Some? {
          ParsedParts(line, parsed.value);
          LineIsCString(rest[..n]);
          dangling := ReplayRecord(parsed.value, now);
        }
        rest := rest[n..];
      }
    }

    /** kv_init_full: `path` names the log if there is one, `file` is what it holds.  Opening
        a log that mirrors some map brings exactly that map back. */
    static method InitFull(hash: Hash, rng: nat -> nat, count: nat, cap: nat, budget: nat, path: Option<bytes>,
                           file: bytes, now: int, tableOk: bool, locksOk: bool, pathOk: bool, openOk: bool)
      returns (st: Status, s: KvStore?, dangling: bool)
      requires |file| < UINT64_MAX
      ensures !dangling ==>
                st == if count == 0 then InvalidParam
                      else if 0 < budget < SIZEOF_POINTER * count then BudgetExceeded
                      else if !tableOk || !locksOk then Internal
                      else if path.Some? && 0 < budget < SIZEOF_POINTER * count + |path.value| + 1 then BudgetExceeded
                      else if path.Some? && !pathOk then Internal
                      else if path.Some? && !openOk then Io else Ok
      ensures budget == 0 ==> !dangling
      ensures st != Ok || dangling ==> s == null
      ensures st == Ok && !dangling ==>
                && s != null && fresh(s) && s.Valid() && |s.buckets| == count && s.maxCapacity == cap
                && s.budget == budget && s.WithinBudget()
                && s.log == (if path.Some? then Appending(file) else NoLog) && s.rewrite.None?
                && s.hash == hash && s.rng == rng && s.autoResize
                && s.pathBytes == (if path.Some? then |path.value| + 1 else 0)
                && s.allocBytes == 8 * count + s.pathBytes + Bytes(Flat(s.buckets))
                && (path.None? ==> s.Items() == map[] && s.allocBytes == s.peakBytes && s.clock == 0)
                && (path.Some? && budget == 0 ==> s.Items() == Replay(map[], cap, file, now))
      ensures st == Ok && !dangling && path.Some? && budget == 0 ==>
                forall m, T | Mirrors(file, m, cap, T) && now <= T :: s.Items() == m
    {
      hide KvStore.Valid, KvStore.Items, Replay, TableInv, Flat, Bytes;
      dangling := false;
      if count == 0 {
        return InvalidParam, null, false;
      }
      if budget > 0 && SIZEOF_POINTER * count > budget {
        return BudgetExceeded, null, false;
      }
      if !tableOk || !locksOk {
        return Internal, null, false;
      }
      s := new KvStore(hash, rng, count, cap, budget);
      if path.Some? {
        if budget > 0 && s.allocBytes + |path.value| + 1 > budget {
          return BudgetExceeded, null, false;
        }
        if !pathOk {
          return Internal, null, false;
        }
        s.ChargePath(|path.value| + 1);
        s.log := Detached(file);
        dangling := s.ReplayLog(file, now);
        if dangling {
          return Internal, null, true;
        }
        if !openOk {
          return Io, null, false;
        }
        s.log := Appending(file);
      }
      s.Accounted();
      st := Ok;
    }

    method ChargePath(n: nat)
      requires Valid() && pathBytes == 0
      modifies this`pathBytes, this`allocBytes, this`peakBytes
      ensures Valid() && pathBytes == n && allocBytes == old(allocBytes) + n
      ensures peakBytes == if allocBytes > old(peakBytes) then allocBytes else old(peakBytes)
    {
      pathBytes := n;
      allocBytes := allocBytes + n;
      if allocBytes > peakBytes {
        peakBytes := allocBytes;
      }
    }

    /** The forked child's loops in kv_bgrewriteaof. */
    method DumpTable(now: int) returns (file: bytes)
      ensures file == Dump(Flat(buckets), now)
    {
      hide DumpRecs, FormatAll;
      file := [];
      var i := 0;
      DumpNothing(now);
      while i < |buckets|
        invariant i <= |buckets|
        invariant file == Dump(Concat(buckets[..i]), now)
      {
        var j := 0;
        assert Concat(buckets[..i]) + buckets[i][..0] == Concat(buckets[..i]);
        while j < |buckets[i]|
          invariant j <= |buckets[i]|
          invariant file == Dump(Concat(buckets[..i]) + buckets[i][..j], now)
        {
          hide Concat;
          ghost var done := Concat(buckets[..i]) + buckets[i][..j];
          assert done + [buckets[i][j]] == Concat(buckets[..i]) + buckets[i][..j + 1];
          DumpOneMore(done, buckets[i][j], now);
          if !(0 < buckets[i][j].deadline <= now) {
            var text := DumpEntry(buckets[i][j]);
            file := file + text;
          }
          j := j + 1;
        }
        assert buckets[i][..j] == buckets[i];
        ConcatSnoc(buckets, i);
        i := i + 1;
      }
      assert buckets[..i] == buckets;
    }

    static method DumpEntry(e: Entry) returns (text: bytes)
      ensures text == FormatAll(EntryRecs(e))
    {
      hide FormatAll, Format, PrintInt, PushRecs, AddRecs;
      match e.payload {
        case PStr(v) =>
          text := Format(Rec(SET, e.key, v));
          FormatSingle(Rec(SET, e.key, v));
        case PList(items) =>
          text := DumpList(e.key, items);
        case PSet(nodes) =>
          text := DumpSet(e.key, nodes);
      }
      assert text == FormatAll(PayloadRecs(e));
      FormatAllAppend(PayloadRecs(e), DeadlineRecs(e));
      if e.deadline > 0 {
        var r := Rec(PEXPIREAT, e.key, PrintInt(e.deadline));
        FormatSingle(r);
        text := text + Format(r);
      } else {
        assert PayloadRecs(e) + [] == PayloadRecs(e);
      }
    }

    /** From the tail to the head, so that replayed pushes restore the order. */
    static method DumpList(key: bytes, items: seq<bytes>) returns (text: bytes)
      ensures text == FormatAll(PushRecs(key, items))
    {
      hide Format;
      text := [];
      var k := |items|;
      while k > 0
        invariant 0 <= k <= |items|
        invariant text == FormatAll(PushRecs(key, items[k..]))
      {
        k := k - 1;
        var r := Rec(LPUSH, key, items[k]);
        assert items[k..][1..] == items[k + 1..];
        FormatAllAppend(PushRecs(key, items[k + 1..]), [r]);
        FormatSingle(r);
        text := text + Format(r);
      }
      assert items[0..] == items;
    }

    static method DumpSet(key: bytes, nodes: seq<seq<bytes>>) returns (text: bytes)
      ensures text == FormatAll(AddRecs(key, Concat(nodes)))
    {
      hide Format;
      var all := Gather(nodes);
      text := [];
      var p := 0;
      while p < |all|
        invariant p <= |all|
        invariant text == FormatAll(AddRecs(key, all[..p]))
      {
        var r := Rec(SADD, key, all[p]);
        AddRecsSnoc(key, all[..p], all[p]);
        assert all[..p + 1] == all[..p] + [all[p]];
        FormatAllAppend(AddRecs(key, all[..p]), [r]);
        FormatSingle(r);
        text := text + Format(r);
        p := p + 1;
      }
      assert all[..p] == all;
    }

    /** kv_bgrewriteaof: fork copies the table, so the child dumps this very state.  It needs a
        log path, not an open log.  `saving` says whether a background save is running. */
    method BgRewriteAof(now: int, saving: bool, forkOk: bool) returns (st: Status)
      requires Valid()
      modifies this`rewrite
      ensures st == if log == NoLog then InvalidParam
                    else if saving || old(rewrite).Some? then Again
                    else if forkOk then Ok else Io
      ensures View() == if st == Ok then Next(old(View()), BgRewrite(Flat(buckets), now)) else old(View())
      ensures Unique(Flat(buckets)) && MapOf(Flat(buckets)) == Items()
    {
      if log == NoLog {
        return InvalidParam;
      }
      if saving || rewrite.Some? {
        return Again;
      }
      if !forkOk {
        return Io;
      }
      var dump := DumpTable(now);
      rewrite := Some(Durability.Rewrite(dump, []));
      st := Ok;
    }

    /** kv_merge_aof_rewrite for the child that finished, with or without a log open. */
    method MergeAofRewrite(outcome: MergeOutcome) returns (st: Status)
      requires Valid()
      modifies this`rewrite, this`log
      ensures View() == Next(old(View()), Merge(outcome))
      ensures st == if old(log) == NoLog || old(rewrite).None? then InvalidParam
                    else if outcome == Merged then Ok else Io
    {
      hide Replay;
      if log == NoLog || rewrite.None? {
        return InvalidParam;
      }
      if outcome == TempFileLost {
        rewrite := None;
        return Io;
      }
      var merged := rewrite.value.dump + rewrite.value.buf;
      log := Detached(log.file);
      if outcome == RenameFailed {
        rewrite := None;
        return Io;
      }
      log := Detached(merged);
      rewrite := None;
      if outcome == ReopenFailed {
        return Io;
      }
      log := Appending(merged);
      st := Ok;
    }

    /** kv_discard_aof_rewrite. */
    method DiscardAofRewrite()
      modifies this`rewrite
      ensures View() == Next(old(View()), Discard)
    {
      rewrite := None;
    }

    // ----- Snapshots (src/snapshot.c) -----

    /** write_bytes: appends a block and carries the checksum along. */
    static method WriteBlock(file0: bytes, sum0: nat, block: bytes) returns (file: bytes, sum: nat)
      requires sum0 == Adler32(1, file0)
      ensures file == file0 + block && sum == Adler32(1, file)
    {
      BlockByBlock(1, file0, block);
      hide Adler32;
      sum := ComputeAdler32(sum0, block);
      file := file0 + block;
    }

    static method WriteString(file0: bytes, sum0: nat, v: bytes) returns (file: bytes, sum: nat)
      requires sum0 == Adler32(1, file0)
      ensures file == file0 + EncodeString(v) && sum == Adler32(1, file)
    {
      hide Adler32, LittleEndian;
      var n := WriteUint(|v|, 4);
      file, sum := WriteBlock(file0, sum0, n);
      file, sum := WriteBlock(file, sum, v);
      assert file0 + n + v == file0 + (n + v);
    }

    /** A list is walked from its tail to its head. */
    static method WriteList(file0: bytes, sum0: nat, items: seq<bytes>) returns (file: bytes, sum: nat)
      requires sum0 == Adler32(1, file0)
      ensures file == file0 + EncodeAll(Reverse(items)) && sum == Adler32(1, file)
    {
      hide Adler32, EncodeString;
      file, sum := file0, sum0;
      var k := |items|;
      assert file0 + [] == file0;
      while k > 0
        invariant 0 <= k <= |items| && sum == Adler32(1, file)
        invariant file == file0 + EncodeAll(Reverse(items[k..]))
      {
        k := k - 1;
        assert items[k..][1..] == items[k + 1..];
        EncodeAllSnoc(Reverse(items[k + 1..]), items[k]);
        file, sum := WriteString(file, sum, items[k]);
      }
      assert items[0..] == items;
    }

    static method WriteSet(file0: bytes, sum0: nat, nodes: seq<seq<bytes>>) returns (file: bytes, sum: nat)
      requires sum0 == Adler32(1, file0)
      ensures file == file0 + EncodeAll(Concat(nodes)) && sum == Adler32(1, file)
    {
      hide Adler32, EncodeString;
      var all := Gather(nodes);
      file, sum := file0, sum0;
      var k := 0;
      assert file0 + [] == file0;
      while k < |all|
        invariant k <= |all| && sum == Adler32(1, file)
        invariant file == file0 + EncodeAll(all[..k])
      {
        assert all[..k + 1] == all[..k] + [all[k]];
        EncodeAllSnoc(all[..k], all[k]);
        file, sum := WriteString(file, sum, all[k]);
        k := k + 1;
      }
      assert all[..k] == all;
    }

    static method WritePayload(file0: bytes, sum0: nat, p: Payload) returns (file: bytes, sum: nat)
      requires sum0 == Adler32(1, file0)
      ensures file == file0 + EncodePayload(p) && sum == Adler32(1, file)
    {
      hide Adler32, EncodeString, EncodeAll, LittleEndian;
      if p.PStr? {
        StringPayload(p.s);
        file, sum := WriteString(file0, sum0, p.s);
      } else {
        var n := WriteUint(if p.PList? then |p.items| else |Concat(p.nodes)|, 4);
        file, sum := WriteBlock(file0, sum0, n);
        if p.PList? {
          file, sum := WriteList(file, sum, p.items);
        } else {
          file, sum := WriteSet(file, sum, p.nodes);
        }
        assert file0 + n + EncodeAll(Elements(p)) == file0 + (n + EncodeAll(Elements(p)));
      }
    }

    static method WriteEntry(file0: bytes, sum0: nat, e: Entry) returns (file: bytes, sum: nat)
      requires sum0 == Adler32(1, file0)
      ensures file == file0 + EncodeEntry(e) && sum == Adler32(1, file)
    {
      hide Adler32, EncodeString, EncodePayload, LittleEndian;
      var d := WriteUint(e.deadline % TWO64, 8);
      file, sum := WriteBlock(file0, sum0, d);
      file, sum := WriteString(file, sum, e.key);
      var kind := [TypeByte(e.payload)];
      file, sum := WriteBlock(file, sum, kind);
      file, sum := WritePayload(file, sum, e.payload);
      ghost var k, p := EncodeString(e.key), EncodePayload(e.payload);
      assert file0 + d + k + kind + p == file0 + (d + (k + (kind + p)));
    }

    /** One chain of the table, behind the entries `done` of those before it. */
    static method SaveChain(file0: bytes, sum0: nat, chain: Chain, now: int, ghost done: seq<Entry>)
      returns (file: bytes, sum: nat)
      requires sum0 == Adler32(1, file0) && file0 == MAGIC + EncodeEntries(done, now)
      ensures sum == Adler32(1, file) && file == MAGIC + EncodeEntries(done + chain, now)
    {
      hide Adler32, EncodeEntry, EncodeEntries;
      file, sum := file0, sum0;
      var j := 0;
      assert done + chain[..0] == done;
      while j < |chain|
        invariant j <= |chain| && sum == Adler32(1, file)
        invariant file == MAGIC + EncodeEntries(done + chain[..j], now)
      {
        var e := chain[j];
        assert done + chain[..j] + [e] == done + chain[..j + 1];
        EncodeOneMore(done + chain[..j], e, now);
        if e.deadline == 0 || e.deadline > now {
          file, sum := WriteEntry(file, sum, e);
        }
        j := j + 1;
      }
      assert chain[..j] == chain;
    }

    /** kv_save_internal_unlocked. */
    method SaveSnapshot(now: int) returns (file: bytes)
      ensures file == Save(Flat(buckets), now)
    {
      hide Adler32, LittleEndian, EncodeEntry, EncodeEntries, Concat;
      var sum := 1;
      file := [];
      AdlerOfNothing();
      file, sum := WriteBlock(file, sum, MAGIC);
      var i := 0;
      EncodeNoEntries(now);
      assert [] + MAGIC == MAGIC && MAGIC + [] == MAGIC;
      assert Concat(buckets[..0]) == [] by { EmptyConcat(buckets); }
      while i < |buckets|
        invariant i <= |buckets| && sum == Adler32(1, file)
        invariant file == MAGIC + EncodeEntries(Concat(buckets[..i]), now)
      {
        file, sum := SaveChain(file, sum, buckets[i], now, Concat(buckets[..i]));
        ConcatSnoc(buckets, i);
        i := i + 1;
      }
      assert buckets[..i] == buckets;
      var marker := WriteUint(MARKER, 8);
      file, sum := WriteBlock(file, sum, marker);
      var check := WriteUint(sum, 4);
      file := file + check;
    }

    /** read_bytes of `n` bytes that are there. */
    static method ReadBlock(c0: Cursor, n: nat) returns (block: bytes, c: Cursor)
      requires n <= |c0.rest|
      ensures block == c0.rest[..n] && c == Skip(c0, n)
    {
      hide Adler32;
      block := c0.rest[..n];
      var sum := ComputeAdler32(c0.sum, block);
      c := Cursor(c0.rest[n..], sum);
    }

    static method ReadNumber(c0: Cursor, n: nat) returns (v: nat, c: Cursor)
      requires n <= |c0.rest|
      ensures v == Number(c0, n) && c == Skip(c0, n)
    {
      hide Skip, FromLittleEndian;
      var block;
      block, c := ReadBlock(c0, n);
      v := ReadUint(block);
    }

    /** A length-prefixed element; `ok` is false after a short read or an oversized length. */
    static method ReadElement(c0: Cursor) returns (ok: bool, val: bytes, c: Cursor)
      ensures ok == (|c0.rest| >= 4 && Number(c0, 4) <= MAX_VALUE_LEN && 4 + Number(c0, 4) <= |c0.rest|)
      ensures ok ==> val == CStr(Skip(c0, 4).rest[..Number(c0, 4)]) && c == Skip(Skip(c0, 4), Number(c0, 4))
    {
      hide Adler32, FromLittleEndian, CStr;
      ok, val, c := false, [], c0;
      if |c0.rest| < 4 {
        return;
      }
      var n, block;
      n, c := ReadNumber(c0, 4);
      if n > MAX_VALUE_LEN || |c.rest| < n {
        return;
      }
      block, c := ReadBlock(c, n);
      ok, val := true, CStr(block);
    }

    /** Neither a budget nor an open log: every element of a file is stored as it is read. */
    ghost predicate Quiet()
      reads this`budget, this`log
    {
      budget == 0 && !log.Appending?
    }

    /** The element loop for lists and sets.  `m` is what a quiet store would hold before it, and
        `m'` what it would hold afterwards; the file is read alike on any store. */
    method LoadContainer(c0: Cursor, count: nat, kind: byte, key: bytes, live: bool, now: int, ghost m: Spec.Items)
      returns (ok: bool, dangling: bool, c: Cursor, ghost m': Spec.Items)
      requires Valid() && CString(key)
      requires clock + |c0.rest| < UINT64_MAX && (kind == 1 || kind == 2)
      modifies this`buckets, this`size, this`allocBytes, this`peakBytes, this`clock, this`rewrite, this`log, this`drawn
      ensures Valid() && (budget == 0 ==> !dangling)
      ensures !dangling ==>
                Loaded(m', if ok then Some(c) else None)
                == LoadElements(m, maxCapacity, c0, count, kind, key, live, now)
      ensures old(Quiet()) ==> Quiet() && (old(Items()) == m ==> Items() == m')
      ensures !dangling && ok ==> clock + |c.rest| <= old(clock) + |c0.rest|
      ensures old(WithinBudget()) ==> WithinBudget()
    {
      hide Valid, Items, TableInv, Flat, Bytes, ItemsIn, Put, CStr, Adler32, FromLittleEndian;
      c, m', dangling := c0, m, false;
      var left: nat := count;
      while left > 0
        invariant Valid() && left <= count && !dangling
        invariant clock + |c.rest| <= old(clock) + |c0.rest|
        invariant LoadElements(m', maxCapacity, c, left, kind, key, live, now)
                  == LoadElements(m, maxCapacity, c0, count, kind, key, live, now)
        invariant old(Quiet()) ==> Quiet() && (old(Items()) == m ==> Items() == m')
        invariant old(WithinBudget()) ==> WithinBudget()
        decreases left
      {
        var val;
        ghost var before := c;
        ok, val, c := ReadElement(c);
        if !ok {
          return;
        }
        assert |c.rest| + 4 <= |before.rest|;
        if live {
          dangling := PutElement(kind, key, val, now);
          m' := Put(m', maxCapacity, kind, key, val, now);
          if dangling {
            return;
          }
        }
        left := left - 1;
      }
      ok := true;
    }

    /** kv_lpush or kv_sadd of a loaded element. */
    method PutElement(kind: byte, key: bytes, val: bytes, now: int) returns (dangling: bool)
      requires Valid() && CString(key) && CString(val)
      requires clock + 1 < UINT64_MAX && (kind == 1 || kind == 2)
      modifies this`buckets, this`size, this`allocBytes, this`peakBytes, this`clock, this`rewrite, this`log, this`drawn
      ensures Valid() && clock <= old(clock) + 1 && (budget == 0 ==> !dangling)
      ensures old(Quiet()) ==> Quiet() && Items() == Put(old(Items()), maxCapacity, kind, key, val, now)
      ensures old(WithinBudget()) ==> WithinBudget()
    {
      hide Valid, Items, TableInv, Flat, Bytes, ItemsIn, Spec.LPush, Spec.SAdd, Step;
      var env, reply := ReplayEnv(now), Nil;
      ghost var gone;
      if kind == 1 {
        StepPush(View(), LPushOp(key, val), env);
        reply, dangling, gone := LPush(key, val, env);
      } else {
        StepPush(View(), SAddOp(key, val), env);
        reply, dangling, gone := SAdd(key, val, env);
      }
    }

    /** The string branch of kv_load_snapshot. */
    method LoadString(c0: Cursor, key: bytes, expire: nat, now: int, ghost m: Spec.Items)
      returns (ok: bool, c: Cursor, ghost m': Spec.Items)
      requires Valid() && CString(key) && expire < TWO64
      requires clock + |c0.rest| < UINT64_MAX
      modifies this`buckets, this`size, this`allocBytes, this`peakBytes, this`clock, this`rewrite, this`log, this`drawn
      ensures Valid()
      ensures Loaded(m', if ok then Some(c) else None) == LoadPayload(m, maxCapacity, c0, 0, key, expire, now)
      ensures old(Quiet()) ==> Quiet() && (old(Items()) == m ==> Items() == m')
      ensures ok ==> clock + |c.rest| <= old(clock) + |c0.rest|
      ensures old(WithinBudget()) ==> WithinBudget()
    {
      hide Valid, Items, TableInv, Flat, Bytes, ItemsIn, Spec.SetInternal, Step, AfterSet, LoadPayload, CStr, Adler32,
           FromLittleEndian;
      StringCase(m, maxCapacity, c0, key, expire, now);
      m' := LoadPayload(m, maxCapacity, c0, 0, key, expire, now).items;
      var val;
      ok, val, c := ReadElement(c0);
      if ok && (expire == 0 || ToInt64(expire) > now) {
        var env := ReplayEnv(now);
        if Quiet() {
          SetUnlogged(View(), key, val, env);
        }
        var st, gone := Set(key, val, env);
        if st == Ok && expire != 0 {
          SetExpireInternal(key, ToInt64(expire));
        }
      }
    }

    /** One record of kv_load_snapshot. */
    method LoadRecord(c0: Cursor, expire: nat, now: int, ghost m: Spec.Items)
      returns (ok: bool, dangling: bool, c: Cursor, ghost m': Spec.Items)
      requires Valid() && expire < TWO64
      requires clock + |c0.rest| < UINT64_MAX
      modifies this`buckets, this`size, this`allocBytes, this`peakBytes, this`clock, this`rewrite, this`log, this`drawn
      ensures Valid() && (budget == 0 ==> !dangling)
      ensures !dangling ==> Loaded(m', if ok then Some(c) else None) == LoadEntry(m, maxCapacity, c0, expire, now)
      ensures old(Quiet()) ==> Quiet() && (old(Items()) == m ==> Items() == m')
      ensures !dangling && ok ==> clock + |c.rest| <= old(clock) + |c0.rest|
      ensures old(WithinBudget()) ==> WithinBudget()
    {
      hide Valid, Items, TableInv, Flat, Bytes, ItemsIn, LoadPayload, CStr, Adler32, FromLittleEndian;
      ok, dangling, c, m' := false, false, c0, m;
      if |c.rest| < 4 {
        return;
      }
      var klen, block, kind;
      klen, c := ReadNumber(c, 4);
      if klen > MAX_KEY_LEN || |c.rest| < klen + 1 {
        return;
      }
      block, c := ReadBlock(c, klen);
      var key := CStr(block);
      kind, c := ReadBlock(c, 1);
      ok, dangling, c, m' := LoadByKind(c, kind[0], key, expire, now, m);
    }

    method LoadByKind(c0: Cursor, kind: byte, key: bytes, expire: nat, now: int, ghost m: Spec.Items)
      returns (ok: bool, dangling: bool, c: Cursor, ghost m': Spec.Items)
      requires Valid() && CString(key) && expire < TWO64
      requires clock + |c0.rest| < UINT64_MAX
      modifies this`buckets, this`size, this`allocBytes, this`peakBytes, this`clock, this`rewrite, this`log, this`drawn
      ensures Valid() && (budget == 0 ==> !dangling)
      ensures !dangling ==>
                Loaded(m', if ok then Some(c) else None) == LoadPayload(m, maxCapacity, c0, kind, key, expire, now)
      ensures old(Quiet()) ==> Quiet() && (old(Items()) == m ==> Items() == m')
      ensures !dangling && ok ==> clock + |c.rest| <= old(clock) + |c0.rest|
      ensures old(WithinBudget()) ==> WithinBudget()
    {
      hide Valid, Items, TableInv, Flat, Bytes, ItemsIn, LoadElements, Adler32, FromLittleEndian, SetSucceeded;
      ok, dangling, c, m' := true, false, c0, m;
      if kind == 0 {
        ok, c, m' := LoadString(c0, key, expire, now, m);
      } else if kind == 1 || kind == 2 {
        ok := false;
        if |c.rest| < 4 {
          return;
        }
        var count;
        count, c := ReadNumber(c, 4);
        ok, dangling, c, m' := LoadContainer(c, count, kind, key, Live(expire, now), now, m);
        if !dangling && ok && Live(expire, now) && count > 0 && expire != 0 {
          SetExpireInternal(key, ToInt64(expire));
          m' := SetDeadline(m', key, expire);
        }
      }
    }

    /** kv_load_snapshot: the status depends on the file alone; what is stored, on a quiet store, too. */
    method LoadSnapshot(file: bytes, now: int) returns (st: Status, dangling: bool)
      requires Valid() && clock + |file| < UINT64_MAX
      modifies this`buckets, this`size, this`allocBytes, this`peakBytes, this`clock, this`rewrite, this`log, this`drawn
      ensures Valid() && (budget == 0 ==> !dangling)
      ensures !dangling ==> st == Load(old(Items()), maxCapacity, file, now).status
      ensures old(Quiet()) ==> Quiet() && Items() == Load(old(Items()), maxCapacity, file, now).items
      ensures old(WithinBudget()) ==> WithinBudget()
    {
      hide Valid, Items, TableInv, Flat, Bytes, ItemsIn, LoadEntry, Adler32, FromLittleEndian;
      if |file| < |MAGIC| {
        return Io, false;
      }
      var magic, c := ReadBlock(Cursor(file, 1), |MAGIC|);
      if magic != MAGIC {
        return Io, false;
      }
      dangling := false;
      ghost var start, m, m' := c, Items(), Items();
      while true
        invariant Valid() && !dangling && clock + |c.rest| < UINT64_MAX
        invariant LoadEntries(m', maxCapacity, c, now) == LoadEntries(m, maxCapacity, start, now)
        invariant old(Quiet()) ==> Quiet() && Items() == m'
        invariant old(WithinBudget()) ==> WithinBudget()
        decreases |c.rest|
      {
        if |c.rest| < 8 {
          return Io, false;
        }
        var expire;
        NumberBound(c);
        expire, c := ReadNumber(c, 8);
        if expire == MARKER {
          break;
        }
        var ok;
        ok, dangling, c, m' := LoadRecord(c, expire, now, m');
        if dangling {
          return Internal, true;
        }
        if !ok {
          return Io, false;
        }
      }
      if |c.rest| < 4 {
        return Io, false;
      }
      var expected := ReadUint(c.rest[..4]);
      st := if c.sum == expected then Ok else Io;
    }
  }
}
