/** LPUSH and RPOP make a key a first-in first-out queue, over whole runs: whatever happens to
    other keys, and whichever allocations fail. */
module Queues {
  import opened Common
  import opened Spec
  import opened Snapshot

  type Call = (Op, Env)

  function Contents(m: Items, key: bytes): seq<bytes> {
    if key in m && m[key].value.List? then m[key].value.items else []
  }

  predicate IsQueue(m: Items, key: bytes) {
    key in m ==> m[key].value.List? && m[key].deadline == 0
  }

  /** The command pushes to or pops from the key, reads it, or is about another key. */
  predicate QueueOp(op: Op, key: bytes) {
    op.key == key ==>
      || op.LPushOp? || op.RPopOp?
      || op.GetOp? || op.ExistsOp? || op.LLenOp? || op.SCardOp? || op.SMembersOp? || op.PTtlOp?
  }

  function Run(m: Items, cap: nat, calls: seq<Call>): Items
    decreases |calls|
  {
    if calls == [] then m else Run(Apply(m, cap, calls[0].0, calls[0].1).items, cap, calls[1..])
  }

  /** What one call adds to the queue, and what it answers from it. */
  function Pushed(op: Op, out: Out, key: bytes): seq<bytes> {
    if op.LPushOp? && op.key == key && out.reply.Int? then [op.val] else []
  }

  function Popped(op: Op, out: Out, key: bytes): seq<bytes> {
    if op.RPopOp? && op.key == key && out.reply.Bulk? then [out.reply.v] else []
  }

  function AllPushed(m: Items, cap: nat, calls: seq<Call>, key: bytes): seq<bytes>
    decreases |calls|
  {
    if calls == [] then []
    else
      var out := Apply(m, cap, calls[0].0, calls[0].1);
      Pushed(calls[0].0, out, key) + AllPushed(out.items, cap, calls[1..], key)
  }

  function AllPopped(m: Items, cap: nat, calls: seq<Call>, key: bytes): seq<bytes>
    decreases |calls|
  {
    if calls == [] then []
    else
      var out := Apply(m, cap, calls[0].0, calls[0].1);
      Popped(calls[0].0, out, key) + AllPopped(out.items, cap, calls[1..], key)
  }

  lemma {:induction false} ReverseLast(vs: seq<bytes>)
    requires vs != []
    ensures Reverse(vs) == [vs[|vs| - 1]] + Reverse(vs[..|vs| - 1])
  {
    if |vs| > 1 {
      ReverseLast(vs[1..]);
      assert vs[1..][..|vs| - 2] == vs[..|vs| - 1][1..];
    }
  }

  lemma OtherKey(m: Items, cap: nat, op: Op, env: Env, key: bytes)
    requires op.key != key
    ensures key in Apply(m, cap, op, env).items <==> key in m
    ensures key in m ==> Apply(m, cap, op, env).items[key] == m[key]
  {
    hide ValidateKey, ValidateValue, Full;
  }

  /** One call: what it takes from the front and adds at the back accounts for the change. */
  lemma CallKeepsOrder(m: Items, cap: nat, op: Op, env: Env, key: bytes)
    requires IsQueue(m, key) && QueueOp(op, key)
    ensures var out := Apply(m, cap, op, env);
            && IsQueue(out.items, key)
            && Reverse(Contents(m, key)) + Pushed(op, out, key)
               == Popped(op, out, key) + Reverse(Contents(out.items, key))
  {
    hide ValidateKey, ValidateValue, Full, Reverse;
    if op.key != key {
      OtherKey(m, cap, op, env, key);
    } else if op.LPushOp? {
      PushAtBack(op.val, Contents(m, key));
    } else if op.RPopOp? && Contents(m, key) != [] {
      ReverseLast(Contents(m, key));
      NothingReversed();
    }
  }

  lemma PushAtBack(v: bytes, vs: seq<bytes>)
    ensures Reverse([v] + vs) == Reverse(vs) + [v]
  {
    assert ([v] + vs)[1..] == vs;
  }

  lemma NothingReversed()
    ensures Reverse([]) == []
  {
  }

  /** Over any run, the elements in the queue at the start followed by those pushed are, in order,
      those popped followed by the elements in the queue at the end. */
  lemma {:induction false} FirstInFirstOut(m: Items, cap: nat, calls: seq<Call>, key: bytes)
    requires IsQueue(m, key) && forall c | c in calls :: QueueOp(c.0, key)
    ensures var end := Run(m, cap, calls);
            && IsQueue(end, key)
            && Reverse(Contents(m, key)) + AllPushed(m, cap, calls, key)
               == AllPopped(m, cap, calls, key) + Reverse(Contents(end, key))
    decreases |calls|
  {
    hide Apply, Pushed, Popped, Reverse, Contents, IsQueue, QueueOp;
    if calls != [] {
      var op, env := calls[0].0, calls[0].1;
      assert calls[0] in calls;
      var out := Apply(m, cap, op, env);
      CallKeepsOrder(m, cap, op, env, key);
      FirstInFirstOut(out.items, cap, calls[1..], key);
      Chain(Reverse(Contents(m, key)), Pushed(op, out, key), Popped(op, out, key), Reverse(Contents(out.items, key)),
            AllPushed(out.items, cap, calls[1..], key), AllPopped(out.items, cap, calls[1..], key),
            Reverse(Contents(Run(m, cap, calls), key)));
    }
  }

  lemma Chain(start: seq<bytes>, p: seq<bytes>, q: seq<bytes>, mid: seq<bytes>,
              ps: seq<bytes>, qs: seq<bytes>, end: seq<bytes>)
    requires start + p == q + mid && mid + ps == qs + end
    ensures start + (p + ps) == (q + qs) + end
  {
    assert start + (p + ps) == (start + p) + ps;
    assert (q + qs) + end == q + (qs + end);
    assert (q + mid) + ps == q + (mid + ps);
  }
}
