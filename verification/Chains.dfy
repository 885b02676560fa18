/** The pointer structures behind the table, updated in place: collision chains of
    kv_entry_t (insert at the head, unlink behind a predecessor, relink on resize).
    Sequences of nodes in ghost fields say what the pointers mean; acyclicity follows
    from the nodes being distinct. */
module Chains {
  import opened Common
  import opened Table

  class ChainNode {
    var entry: Entry
    var next: ChainNode?

    constructor (entry: Entry)
      ensures this.entry == entry && next == null
    {
      this.entry := entry;
      next := null;
    }
  }

  ghost function Successor(nodes: seq<ChainNode>, i: nat): ChainNode? {
    if i + 1 < |nodes| then nodes[i + 1] else null
  }

  /** Following `next` from `head` visits exactly `nodes` and then ends. */
  ghost predicate Linked(head: ChainNode?, nodes: seq<ChainNode>)
    reads nodes
  {
    && (nodes == [] ==> head == null)
    && (nodes != [] ==> head == nodes[0])
    && forall i | 0 <= i < |nodes| :: nodes[i].next == Successor(nodes, i)
  }

  /** The nodes carry the entries of the chain `c`. */
  ghost predicate Carry(nodes: seq<ChainNode>, c: Chain)
    reads nodes
  {
    |nodes| == |c| && forall i | 0 <= i < |nodes| :: nodes[i].entry == c[i]
  }

  /** One bucket: its head pointer, its nodes and its entries fit together. */
  ghost predicate Slot(head: ChainNode?, c: seq<ChainNode>, es: Chain)
    reads c
  {
    Linked(head, c) && Carry(c, es)
  }

  ghost predicate Among(c: seq<ChainNode>, all: set<ChainNode>) {
    forall x | x in c :: x in all
  }

  lemma SlotFacts(head: ChainNode?, c: seq<ChainNode>, es: Chain)
    requires Slot(head, c, es)
    ensures |c| == |es|
    ensures head == if c == [] then null else c[0]
    ensures forall t | 0 <= t < |c| :: c[t].next == Successor(c, t) && c[t].entry == es[t]
  {
  }

  /** In duplicate-free chains a node occurs at one place only. */
  lemma OnePlace(cs: seq<seq<ChainNode>>, i: nat, j: nat)
    requires NoDup(Concat(cs)) && i < |cs| && j < |cs[i]|
    ensures cs[i][j] !in cs[i][..j] && cs[i][j] !in cs[i][j + 1..]
    ensures forall k | 0 <= k < |cs| && k != i :: cs[i][j] !in cs[k]
  {
    var pre, post := Concat(cs[..i]) + cs[i][..j], cs[i][j + 1..] + Concat(cs[i + 1..]);
    ConcatAt(cs, i, cs[i]);
    assert cs[i] == cs[i][..j] + [cs[i][j]] + cs[i][j + 1..];
    assert Concat(cs) == pre + [cs[i][j]] + post;
    OnceAround(pre, cs[i][j], post);
    forall k | 0 <= k < |cs| && k != i
      ensures cs[i][j] !in cs[k]
    {
      if k < i {
        SubChain(cs[..i], k);
      } else {
        SubChain(cs[i + 1..], k - i - 1);
      }
    }
  }

  lemma SubChain(cs: seq<seq<ChainNode>>, k: nat)
    requires k < |cs|
    ensures forall x | x in cs[k] :: x in Concat(cs)
  {
    forall x | x in cs[k]
      ensures x in Concat(cs)
    {
      InConcat(cs, x);
    }
  }

  lemma OnceAround(pre: seq<ChainNode>, x: ChainNode, post: seq<ChainNode>)
    requires NoDup(pre + [x] + post)
    ensures x !in pre && x !in post && NoDup(pre + post)
  {
    var s, t := pre + [x] + post, pre + post;
    assert s[|pre|] == x;
    assert forall i | 0 <= i < |pre| :: s[i] == pre[i];
    assert forall i | 0 <= i < |post| :: s[|pre| + 1 + i] == post[i];
    assert forall i | 0 <= i < |t| :: t[i] == s[if i < |pre| then i else i + 1];
  }

  class ChainTable {
    const hash: Hash
    var heads: array<ChainNode?>
    ghost var chains: seq<seq<ChainNode>>
    ghost var nodes: set<ChainNode>
    ghost var table: Buckets             // what the pointers represent

    ghost predicate Valid()
      reads this, heads, nodes
    {
      && heads.Length == |chains| == |table| > 0
      && NoDup(Concat(chains))
      && (forall i | 0 <= i < |chains| :: Among(chains[i], nodes))
      && (forall i | 0 <= i < |chains| :: Slot(heads[i], chains[i], table[i]))
    }

    constructor (hash: Hash, n: nat)
      requires n > 0
      ensures Valid() && fresh(heads) && nodes == {} && table == seq(n, _ => [])
    {
      this.hash := hash;
      heads := new ChainNode?[n](_ => null);
      chains, nodes, table := seq(n, _ => []), {}, seq(n, _ => []);
      new;
      assert Concat(chains) == [] by { ConcatEmpty(chains); }
    }

    /** entry->next = buckets[i]; buckets[i] = entry. */
    method Insert(i: nat, e: Entry)
      requires Valid() && i < |table|
      modifies this`chains, this`nodes, this`table, heads
      ensures Valid() && heads == old(heads) && fresh(nodes - old(nodes))
      ensures table == Inserted(old(table), i, e)
    {
      hide Concat, NoDup, Slot;
      var x := new ChainNode(e);
      ghost var c, all := chains[i], nodes;
      SlotFacts(heads[i], c, table[i]);
      ghost var cs := chains;
      assert forall k, y | 0 <= k < |cs| && y in cs[k] :: y in all by {
        assert forall k | 0 <= k < |cs| :: Among(cs[k], all);
      }
      InsertKeepsDistinct(cs, i, x, all);
      x.next := heads[i];
      heads[i] := x;
      chains := chains[i := [x] + c];
      nodes := nodes + {x};
      table := Inserted(table, i, e);
      SlotWith(x, c, old(table)[i]);
      forall k | 0 <= k < |chains| && k != i
        ensures Slot(heads[k], chains[k], table[k])
      {
        assert Slot(old(heads[k]), cs[k], old(table)[k]);
      }
    }

    /** Unlinking the node behind `prev`, or the head when there is none. */
    method Unlink(i: nat, prev: ChainNode?, x: ChainNode, ghost j: nat)
      requires Valid() && i < |table| && j < |chains[i]| && x == chains[i][j]
      requires prev == if j == 0 then null else chains[i][j - 1]
      modifies this`chains, this`table, heads, nodes
      ensures Valid() && heads == old(heads)
      ensures table == Removed(old(table), i, j)
    {
      if prev == null {
        UnlinkHead(i);
      } else {
        UnlinkAfter(i, prev, x, j);
      }
    }

    method UnlinkHead(i: nat)
      requires Valid() && i < |table| && chains[i] != []
      modifies this`chains, this`table, heads
      ensures Valid() && heads == old(heads)
      ensures table == Removed(old(table), i, 0)
    {
      hide Concat, NoDup, Slot;
      RemoveKeepsDistinct(chains, i, 0);
      ghost var c := chains[i];
      SlotFacts(heads[i], c, table[i]);
      heads[i] := heads[i].next;
      SlotWithout(heads[i], c, table[i], 0);
      chains := chains[i := c[..0] + c[1..]];
      table := Removed(table, i, 0);
      forall k | 0 <= k < |chains| && k != i
        ensures Slot(heads[k], chains[k], table[k])
      {
        assert Slot(old(heads[k]), old(chains)[k], old(table)[k]);
      }
    }

    method UnlinkAfter(i: nat, prev: ChainNode, x: ChainNode, ghost j: nat)
      requires Valid() && i < |table| && 0 < j < |chains[i]| && x == chains[i][j] && prev == chains[i][j - 1]
      modifies this`chains, this`table, prev
      ensures Valid() && heads == old(heads)
      ensures table == Removed(old(table), i, j)
    {
      hide Concat, NoDup, Slot;
      RemoveKeepsDistinct(chains, i, j);
      OnePlace(chains, i, j - 1);
      ghost var c := chains[i];
      SlotFacts(heads[i], c, table[i]);
      Apart(c, j - 1);
      prev.next := x.next;
      SlotWithout(heads[i], c, table[i], j);
      chains := chains[i := c[..j] + c[j + 1..]];
      table := Removed(table, i, j);
      forall k | 0 <= k < |chains| && k != i
        ensures Slot(heads[k], chains[k], table[k])
      {
        assert old(Slot(heads[k], chains[k], table[k]));
      }
    }

    /** The cursor walk of the lookups: returns the node and its predecessor. */
    method Find(key: bytes) returns (prev: ChainNode?, x: ChainNode?, ghost j: nat)
      requires Valid()
      ensures var i := hash(key) % |table|;
              && (x == null <==> forall e | e in table[i] :: e.key != key)
              && (x != null ==> x.entry.key == key && x.entry in table[i])
              && (x != null ==> j < |chains[i]| && x == chains[i][j] && x.entry == table[i][j]
                                && prev == if j == 0 then null else chains[i][j - 1])
    {
      hide NoDup, Concat, Slot;
      var i := hash(key) % heads.Length;
      prev, x, j := null, heads[i], 0;
      SlotFacts(heads[i], chains[i], table[i]);
      while x != null
        invariant j <= |chains[i]|
        invariant x == if j < |chains[i]| then chains[i][j] else null
        invariant prev == if j == 0 then null else chains[i][j - 1]
        invariant forall k | 0 <= k < j :: table[i][k].key != key
        decreases |chains[i]| - j
      {
        SlotFacts(heads[i], chains[i], table[i]);
        if x.entry.key == key {
          assert table[i][j] in table[i];
          return;
        }
        prev, x, j := x, x.next, j + 1;
      }
    }

    /** The pools of nodes while chain `i` is being relinked into `target`: first the new
        buckets, then the old ones, of which those before `i` are already empty and the
        `i`th is reachable only through the cursor. */
    ghost function PoolHead(target: array<ChainNode?>, cursor: ChainNode?, i: nat, k: nat): ChainNode?
      requires k < target.Length + heads.Length
      reads this, heads, target
    {
      if k < target.Length then target[k]
      else if k == target.Length + i then cursor
      else heads[k - target.Length]
    }

    ghost predicate Relinking(target: array<ChainNode?>, cursor: ChainNode?, i: nat,
                              pool: seq<seq<ChainNode>>, es: Buckets)
      reads this, heads, target, nodes
    {
      && target != heads && 0 < target.Length && i <= heads.Length
      && |pool| == |es| == target.Length + heads.Length
      && NoDup(Concat(pool))
      && (forall k | 0 <= k < |pool| :: Among(pool[k], nodes))
      && (forall k | target.Length <= k < target.Length + i :: es[k] == [] && pool[k] == [])
      && (forall k | 0 <= k < |pool| && (k < target.Length || target.Length + i <= k) ::
            Slot(PoolHead(target, cursor, i, k), pool[k], es[k]))
    }

    /** One turn of the inner loop: the cursor's node moves to the front of its new bucket. */
    method MoveOne(target: array<ChainNode?>, x: ChainNode, ghost i: nat,
                   ghost pool: seq<seq<ChainNode>>, ghost es: Buckets)
      returns (next: ChainNode?, ghost pool': seq<seq<ChainNode>>, ghost es': Buckets)
      requires i < heads.Length && Relinking(target, x, i, pool, es)
      modifies target, x
      ensures Relinking(target, next, i, pool', es')
      ensures var from := es[target.Length + i];
              from != [] && es' == Inserted(Removed(es, target.Length + i, 0), hash(from[0].key) % target.Length,
                                            from[0])
    {
      hide Concat, NoDup, Slot, Among;
      ghost var from := target.Length + i;
      DetachFirst(target, x, i, pool, es);
      next := x.next;
      var to := hash(x.entry.key) % target.Length;
      assert Slot(target[to], pool[to], es[to]) by { assert PoolHead(target, x, i, to) == target[to]; }
      SlotFacts(target[to], pool[to], es[to]);
      MovedDistinct(pool, from, to, nodes);
      x.next := target[to];
      target[to] := x;
      SlotWith(x, pool[to], es[to]);
      pool' := pool[from := pool[from][1..]][to := [x] + pool[to]];
      es' := Inserted(Removed(es, from, 0), to, es[from][0]);
      forall k | 0 <= k < |pool| && (k < target.Length || from <= k)
        ensures Slot(PoolHead(target, next, i, k), pool'[k], es'[k])
      {
        assert old(Slot(PoolHead(target, x, i, k), pool[k], es[k]));
      }
    }

    /** What the cursor's node is, and the chain that is left behind it. */
    lemma DetachFirst(target: array<ChainNode?>, x: ChainNode, i: nat, pool: seq<seq<ChainNode>>, es: Buckets)
      requires i < heads.Length && Relinking(target, x, i, pool, es)
      ensures var k := target.Length + i;
              && pool[k] != [] && pool[k][0] == x && es[k] != [] && es[k][0] == x.entry
              && Removed(es, k, 0) == es[k := es[k][1..]]
              && Slot(x.next, pool[k][1..], es[k][1..])
              && x !in pool[k][1..] && (forall m | 0 <= m < |pool| && m != k :: x !in pool[m])
    {
      hide Concat, NoDup, Slot;
      var k := target.Length + i;
      var c := pool[k];
      assert Slot(x, c, es[k]) by { assert PoolHead(target, x, i, k) == x; }
      SlotFacts(x, c, es[k]);
      OnePlace(pool, k, 0);
      SlotWithout(x.next, c, es[k], 0);
      assert c[..0] + c[1..] == c[1..] && es[k][..0] + es[k][1..] == es[k][1..];
    }

    /** The inner loop: one old chain is emptied, front first. */
    method Drain(target: array<ChainNode?>, ghost i: nat, head: ChainNode?,
                 ghost pool: seq<seq<ChainNode>>, ghost es: Buckets)
      returns (ghost pool': seq<seq<ChainNode>>, ghost es': Buckets)
      requires i < heads.Length && Relinking(target, head, i, pool, es)
      requires PlacedUpTo(es, target.Length)
      modifies target, nodes
      ensures Relinking(target, null, i, pool', es')
      ensures PlacedUpTo(es', target.Length) && multiset(Flat(es')) == multiset(Flat(es))
    {
      hide Concat, NoDup, Slot, Flat, Relinking, PlacedUpTo;
      var entry := head;
      pool', es' := pool, es;
      while entry != null
        invariant Relinking(target, entry, i, pool', es') && PlacedUpTo(es', target.Length)
        invariant multiset(Flat(es')) == multiset(Flat(es))
        decreases PoolSize(es', target.Length + i)
      {
        CursorFacts(target, entry, i, pool', es');
        ghost var was: Buckets := es';
        entry, pool', es' := MoveOne(target, entry, i, pool', es');
        MovedSame(was, target.Length + i, hash(was[target.Length + i][0].key) % target.Length);
        MovedPlaced(was, target.Length + i, target.Length);
      }
    }

    ghost function PoolSize(es: Buckets, k: nat): nat {
      if k < |es| then |es[k]| else 0
    }

    lemma CursorFacts(target: array<ChainNode?>, x: ChainNode?, i: nat, pool: seq<seq<ChainNode>>, es: Buckets)
      requires i < heads.Length && Relinking(target, x, i, pool, es)
      ensures |pool| == |es| == target.Length + heads.Length && target.Length > 0
      ensures x == null <==> pool[target.Length + i] == []
      ensures x == null <==> es[target.Length + i] == []
      ensures x != null ==> x in nodes
    {
      hide NoDup;
      var k := target.Length + i;
      assert Slot(x, pool[k], es[k]) by { assert PoolHead(target, x, i, k) == x; }
      assert Among(pool[k], nodes);
      SlotFacts(x, pool[k], es[k]);
    }

    /** Once the cursor has run off chain `i`, it may be set to the head of the next one. */
    lemma NextChain(target: array<ChainNode?>, i: nat, pool: seq<seq<ChainNode>>, es: Buckets)
      requires i < heads.Length && Relinking(target, null, i, pool, es)
      ensures Relinking(target, if i + 1 < heads.Length then heads[i + 1] else null, i + 1, pool, es)
    {
      hide NoDup, Slot, Among;
      CursorFacts(target, null, i, pool, es);
      var next := if i + 1 < heads.Length then heads[i + 1] else null;
      forall k | 0 <= k < |pool| && (k < target.Length || target.Length + i + 1 <= k)
        ensures Slot(PoolHead(target, next, i + 1, k), pool[k], es[k])
      {
        assert Slot(PoolHead(target, null, i, k), pool[k], es[k]);
      }
    }

    lemma MovedPlaced(es: Buckets, from: nat, n: nat)
      requires PlacedUpTo(es, n) && n <= from < |es| && es[from] != []
      ensures PlacedUpTo(Inserted(Removed(es, from, 0), hash(es[from][0].key) % n, es[from][0]), n)
    {
    }

    /** The outer loop, over the old buckets. */
    method DrainAll(target: array<ChainNode?>, ghost pool: seq<seq<ChainNode>>, ghost es: Buckets)
      returns (ghost pool': seq<seq<ChainNode>>, ghost es': Buckets)
      requires heads.Length > 0 && Relinking(target, heads[0], 0, pool, es) && PlacedUpTo(es, target.Length)
      modifies target, nodes
      ensures Relinking(target, null, heads.Length, pool', es')
      ensures PlacedUpTo(es', target.Length) && multiset(Flat(es')) == multiset(Flat(es))
    {
      hide Concat, NoDup, Slot, Flat, PlacedUpTo, Relinking;
      pool', es' := pool, es;
      assert target != heads by { Separate(target, heads[0], 0, pool, es); }
      var i := 0;
      while i < heads.Length
        invariant 0 <= i <= heads.Length
        invariant Relinking(target, if i < heads.Length then heads[i] else null, i, pool', es')
        invariant PlacedUpTo(es', target.Length) && multiset(Flat(es')) == multiset(Flat(es))
      {
        pool', es' := Drain(target, i, heads[i], pool', es');
        NextChain(target, i, pool', es');
        i := i + 1;
      }
    }

    lemma Separate(target: array<ChainNode?>, x: ChainNode?, i: nat, pool: seq<seq<ChainNode>>, es: Buckets)
      requires Relinking(target, x, i, pool, es)
      ensures target != heads && |pool| == |es| == target.Length + heads.Length
    {
    }

    /** The relinking of kv_resize_unlocked: no node is copied, each is moved to the front of
        the bucket its key hashes to, and the table holds the same entries. */
    method Relink(n: nat)
      requires Valid() && n > 0
      modifies this, nodes
      ensures Valid() && fresh(heads) && nodes == old(nodes)
      ensures |table| == n && Placed(table, hash)
      ensures multiset(Flat(table)) == multiset(Flat(old(table)))
    {
      hide Concat, NoDup, Slot, Flat;
      var target := new ChainNode?[n](_ => null);
      ghost var pool := seq(n, _ => []) + chains;
      ghost var es: Buckets := seq(n, _ => []) + table;
      PoolStart(n, chains, table);
      PoolReady(target, pool, es);
      pool, es := DrainAll(target, pool, es);
      PoolEnd(n, pool, es);
      PoolDone(target, pool, es);
      heads := target;
      chains, table := pool[..n], es[..n];
    }

    lemma PoolReady(target: array<ChainNode?>, pool: seq<seq<ChainNode>>, es: Buckets)
      requires Valid() && target != heads && target.Length > 0
      requires forall k | 0 <= k < target.Length :: target[k] == null
      requires pool == seq(target.Length, _ => []) + chains && es == seq(target.Length, _ => []) + table
      requires NoDup(Concat(pool))
      ensures Relinking(target, heads[0], 0, pool, es) && PlacedUpTo(es, target.Length)
    {
      hide NoDup, Slot;
      forall k | 0 <= k < |pool|
        ensures Slot(PoolHead(target, heads[0], 0, k), pool[k], es[k]) && Among(pool[k], nodes)
      {
        if k < target.Length {
          EmptySlot();
        } else {
          assert Slot(heads[k - target.Length], chains[k - target.Length], table[k - target.Length]);
          assert Among(chains[k - target.Length], nodes);
        }
      }
    }

    lemma PoolDone(target: array<ChainNode?>, pool: seq<seq<ChainNode>>, es: Buckets)
      requires Relinking(target, null, heads.Length, pool, es)
      ensures forall k | 0 <= k < target.Length :: Slot(target[k], pool[k], es[k])
      ensures forall k | target.Length <= k < |pool| :: pool[k] == [] && es[k] == []
    {
      hide NoDup, Slot;
      forall k | 0 <= k < target.Length
        ensures Slot(target[k], pool[k], es[k])
      {
        assert Slot(PoolHead(target, null, heads.Length, k), pool[k], es[k]);
      }
    }

    ghost predicate PlacedUpTo(es: Buckets, n: nat) {
      0 < n <= |es| && forall i, e | 0 <= i < n && e in es[i] :: hash(e.key) % n == i
    }
  }

  lemma EmptySlot()
    ensures Slot(null, [], [])
  {
  }

  lemma PoolStart(n: nat, cs: seq<seq<ChainNode>>, b: Buckets)
    ensures Concat(seq(n, _ => []) + cs) == Concat(cs)
    ensures Flat(seq(n, _ => []) + b) == Flat(b)
  {
    var none: seq<seq<ChainNode>>, nothing: Buckets := seq(n, _ => []), seq(n, _ => []);
    ConcatAppend(none, cs);
    ConcatEmpty(none);
    ConcatAppend(nothing, b);
    ConcatEmpty(nothing);
  }

  lemma PoolEnd(n: nat, pool: seq<seq<ChainNode>>, es: Buckets)
    requires n <= |pool| && n <= |es|
    requires forall k | n <= k < |pool| :: pool[k] == []
    requires forall k | n <= k < |es| :: es[k] == []
    ensures Concat(pool[..n]) == Concat(pool) && Flat(es[..n]) == Flat(es)
  {
    assert pool == pool[..n] + pool[n..] && es == es[..n] + es[n..];
    ConcatAppend(pool[..n], pool[n..]);
    ConcatEmpty(pool[n..]);
    ConcatAppend(es[..n], es[n..]);
    ConcatEmpty(es[n..]);
  }

  /** Moving the first node of one chain to the front of another keeps the chains apart. */
  lemma MovedDistinct(pool: seq<seq<ChainNode>>, from: nat, to: nat, nodes: set<ChainNode>)
    requires from < |pool| && to < |pool| && from != to && pool[from] != [] && NoDup(Concat(pool))
    requires forall k | 0 <= k < |pool| :: Among(pool[k], nodes)
    ensures var pool' := pool[from := pool[from][1..]][to := [pool[from][0]] + pool[to]];
            NoDup(Concat(pool')) && forall k | 0 <= k < |pool'| :: Among(pool'[k], nodes)
  {
    hide Concat, NoDup;
    var c := pool[from];
    var less := pool[from := c[..0] + c[1..]];
    assert c[..0] + c[1..] == c[1..];
    OnePlace(pool, from, 0);
    RemoveKeepsDistinct(pool, from, 0);
    InsertKeepsDistinct(less, to, c[0], nodes - {c[0]});
  }

  /** Moving an entry from one bucket to another keeps the entries as a whole. */
  lemma MovedSame(b: Buckets, i: nat, k: nat)
    requires i < |b| && k < |b| && b[i] != []
    ensures multiset(Flat(Inserted(Removed(b, i, 0), k, b[i][0]))) == multiset(Flat(b))
  {
    hide Concat;
    var e, less := b[i][0], Removed(b, i, 0);
    var pre, post := Concat(b[..i]), b[i][1..] + Concat(b[i + 1..]);
    ConcatAt(b, i, b[i][..0] + b[i][1..]);
    assert Flat(b) == pre + [e] + post && Flat(less) == pre + post;
    MoveKeepsEntries(less, k, e, []);
    assert multiset(pre + [e] + post) == multiset(pre + post) + multiset([e] + []);
  }

  /** With the predecessor (or the head) pointing past node `j`, the rest is linked. */
  lemma SlotWithout(head: ChainNode?, c: seq<ChainNode>, es: Chain, j: nat)
    requires j < |c| == |es|
    requires forall t | 0 <= t < |c| :: c[t].entry == es[t]
    requires forall t | 0 <= t < |c| && t != j - 1 :: c[t].next == Successor(c, t)
    requires if j == 0 then head == Successor(c, 0) else head == c[0] && c[j - 1].next == Successor(c, j)
    ensures Slot(head, c[..j] + c[j + 1..], es[..j] + es[j + 1..])
  {
    var d := c[..j] + c[j + 1..];
    forall t | 0 <= t < |d|
      ensures d[t].next == Successor(d, t) && d[t].entry == (es[..j] + es[j + 1..])[t]
    {
      assert d[t] == c[if t < j then t else t + 1];
    }
  }

  lemma SlotWith(x: ChainNode, c: seq<ChainNode>, es: Chain)
    requires |c| == |es|
    requires x.next == if c == [] then null else c[0]
    requires forall t | 0 <= t < |c| :: c[t].next == Successor(c, t) && c[t].entry == es[t]
    ensures Slot(x, [x] + c, [x.entry] + es)
  {
    var d := [x] + c;
    forall t | 0 <= t < |d|
      ensures d[t].next == Successor(d, t) && d[t].entry == ([x.entry] + es)[t]
    {
      if t > 0 {
        assert d[t] == c[t - 1];
      }
    }
  }

  lemma Apart(c: seq<ChainNode>, j: nat)
    requires j < |c| && c[j] !in c[..j] && c[j] !in c[j + 1..]
    ensures forall t | 0 <= t < |c| && t != j :: c[t] != c[j]
  {
    forall t | 0 <= t < |c| && t != j
      ensures c[t] != c[j]
    {
      if t < j {
        assert c[..j][t] == c[t];
      } else {
        assert c[j + 1..][t - j - 1] == c[t];
      }
    }
  }

  lemma InsertKeepsDistinct(cs: seq<seq<ChainNode>>, i: nat, x: ChainNode, nodes: set<ChainNode>)
    requires NoDup(Concat(cs)) && i < |cs| && x !in nodes
    requires forall k, y | 0 <= k < |cs| && y in cs[k] :: y in nodes
    ensures NoDup(Concat(cs[i := [x] + cs[i]]))
  {
    hide Concat, NoDup;
    var pre, post := Concat(cs[..i]), cs[i] + Concat(cs[i + 1..]);
    ConcatAt(cs, i, [x] + cs[i]);
    InConcat(cs, x);
    assert Concat(cs) == pre + post;
    OnceMore(pre, x, post);
    assert Concat(cs[i := [x] + cs[i]]) == pre + [x] + post;
  }

  lemma OnceMore(pre: seq<ChainNode>, x: ChainNode, post: seq<ChainNode>)
    requires NoDup(pre + post) && x !in pre + post
    ensures NoDup(pre + [x] + post)
  {
    var s, t := pre + [x] + post, pre + post;
    assert forall k | 0 <= k < |s| && k != |pre| :: s[k] == t[if k < |pre| then k else k - 1];
    assert s[|pre|] == x;
  }

  lemma RemoveKeepsDistinct(cs: seq<seq<ChainNode>>, i: nat, j: nat)
    requires NoDup(Concat(cs)) && i < |cs| && j < |cs[i]|
    ensures NoDup(Concat(cs[i := cs[i][..j] + cs[i][j + 1..]]))
  {
    var rest := cs[i][..j] + cs[i][j + 1..];
    var pre, post := Concat(cs[..i]) + cs[i][..j], cs[i][j + 1..] + Concat(cs[i + 1..]);
    ConcatAt(cs, i, rest);
    assert cs[i] == cs[i][..j] + [cs[i][j]] + cs[i][j + 1..];
    assert Concat(cs) == pre + [cs[i][j]] + post;
    assert Concat(cs[i := rest]) == pre + post;
    OnceAround(pre, cs[i][j], post);
  }
}
