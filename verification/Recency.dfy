/** Who was used when: what the operations do to the stamps of the entries (last_accessed_time),
    and what that makes of the least recently used entry over whole runs. */
module Recency {
  import opened Common
  import opened Spec
  import opened Table
  import opened Eviction

  /** A call that answers so has used its key, if it left the key in the table: SET, GET, LLEN, SCARD
      and SMEMBERS hits, RPOP and SREM hits, and any push that found or made its container. */
  predicate Uses(op: Op, reply: Reply) {
    match op
    case SetOp(_, _) => reply == Code(Ok)
    case GetOp(_) => reply.Bulk?
    case LPushOp(_, _) => reply.Int? || reply == Code(Internal)
    case SAddOp(_, _) => reply.Int? || reply == Code(Internal)
    case RPopOp(_) => reply.Bulk?
    case SRemOp(_, _) => reply == Int(1)
    case LLenOp(_) => reply.Int?
    case SCardOp(_) => reply.Int?
    case SMembersOp(_) => reply.Members?
    case _ => false
  }

  ghost predicate HasStamp(b: Buckets, key: bytes, stamp: nat) {
    exists e :: e in Flat(b) && e.key == key && e.stamp == stamp
  }

  /** Every entry of `after` has the stamp it had before, except that the one under `key`, if it was
      used, has the stamp `clock`. */
  ghost predicate LastUses(after: Buckets, before: Buckets, key: bytes, used: bool, clock: nat) {
    forall e | e in Flat(after) ::
      if used && e.key == key then e.stamp == clock else HasStamp(before, e.key, e.stamp)
  }

  lemma StampIs(b: Buckets, e: Entry)
    requires e in Flat(b)
    ensures HasStamp(b, e.key, e.stamp)
  {
    hide Flat;
  }

  /** Whatever only removes or moves entries restamps none. */
  lemma WithinLastUses(after: Buckets, before: Buckets, key: bytes, clock: nat)
    requires Within(after, before)
    ensures LastUses(after, before, key, false, clock)
  {
    hide Flat;
    forall e | e in Flat(after)
      ensures HasStamp(before, e.key, e.stamp)
    {
      StampIs(before, e);
    }
  }

  /** One after the other: the later use counts. */
  lemma LastUsesTrans(c: Buckets, b: Buckets, a: Buckets, key: bytes, used: bool, clock: nat, used': bool, clock': nat)
    requires LastUses(b, a, key, used, clock) && LastUses(c, b, key, used', clock')
    ensures LastUses(c, a, key, used || used', if used' then clock' else clock)
  {
    hide Flat;
  }

  /** An entry written in place: a new stamp is a use, and with the old stamp nothing was used. */
  lemma ReplacedStamps(b: Buckets, i: nat, j: nat, e: Entry, clock: nat)
    requires i < |b| && j < |b[i]| && e.key == b[i][j].key && Unique(Flat(b))
    ensures LastUses(Replaced(b, i, j, e), b, e.key, true, e.stamp)
    ensures e.stamp == b[i][j].stamp ==> LastUses(Replaced(b, i, j, e), b, e.key, false, clock)
  {
    hide Concat;
    FlatReplaced(b, i, j, e);
    FlatAround(b, i, j);
    var pre, post := Pre(b, i, j), Post(b, i, j + 1);
    hide Pre, Post, Flat;
    AloneAround(pre, b[i][j], post);
    forall x | x in Flat(Replaced(b, i, j, e))
      ensures if x.key == e.key then x == e else HasStamp(b, x.key, x.stamp)
    {
      if x.key != e.key {
        assert x in Flat(b);
        StampIs(b, x);
      }
    }
    StampIs(b, b[i][j]);
  }

  lemma AloneAround(pre: seq<Entry>, e: Entry, post: seq<Entry>)
    requires Unique(pre + [e] + post)
    ensures forall x | x in pre || x in post :: x.key != e.key
  {
    var all := pre + [e] + post;
    forall x | x in pre || x in post
      ensures x.key != e.key
    {
      if x in pre {
        var k :| 0 <= k < |pre| && pre[k] == x;
        assert all[k] == x && all[|pre|] == e;
      } else {
        var k :| 0 <= k < |post| && post[k] == x;
        assert all[|pre|] == e && all[|pre| + 1 + k] == x;
      }
    }
  }

  /** A new entry is a use of its key. */
  lemma InsertedStamps(b: Buckets, i: nat, e: Entry)
    requires i < |b| && forall x | x in Flat(b) :: x.key != e.key
    ensures LastUses(Inserted(b, i, e), b, e.key, true, e.stamp)
  {
    hide Concat;
    FlatInserted(b, i, e);
    hide Pre, Post, Flat;
    forall x | x in Flat(Inserted(b, i, e))
      ensures if x.key == e.key then x.stamp == e.stamp else HasStamp(b, x.key, x.stamp)
    {
      if x.key != e.key {
        StampIs(b, x);
      }
    }
  }

  // ----- Whole runs -----

  /** One call of a run, as far as uses are concerned: a command with its answer, or something that
      uses no key. */
  datatype Turn = Answered(op: Op, reply: Reply) | Other

  /** The last turn that used `key`, or -1. */
  function LastUse(turns: seq<Turn>, key: bytes): (i: int)
    ensures -1 <= i < |turns|
    ensures i >= 0 ==> turns[i].Answered? && turns[i].op.key == key && Uses(turns[i].op, turns[i].reply)
  {
    if turns == [] then -1
    else
      var n := |turns| - 1;
      if turns[n].Answered? && turns[n].op.key == key && Uses(turns[n].op, turns[n].reply) then n
      else LastUse(turns[..n], key)
  }

  /** Since the table was `b0` and the clock `clock0`, the stamps are in the order of the last uses;
      keys that no turn used have their stamps from then, below all others. */
  ghost predicate ByUse(b: Buckets, b0: Buckets, clock0: nat, turns: seq<Turn>) {
    && (forall e | e in Flat(b) ::
          if LastUse(turns, e.key) < 0 then HasStamp(b0, e.key, e.stamp) && e.stamp <= clock0 else e.stamp > clock0)
    && (forall e, f | e in Flat(b) && f in Flat(b) && LastUse(turns, e.key) < LastUse(turns, f.key) ::
          e.stamp < f.stamp)
  }

  lemma ByUseStart(b: Buckets, clock: nat)
    requires Stamps(Flat(b), clock)
    ensures ByUse(b, b, clock, [])
  {
    hide Flat;
    forall e | e in Flat(b)
      ensures HasStamp(b, e.key, e.stamp)
    {
      StampIs(b, e);
    }
  }

  lemma OneMoreTurn(turns: seq<Turn>, t: Turn, key: bytes)
    ensures LastUse(turns + [t], key)
            == if t.Answered? && t.op.key == key && Uses(t.op, t.reply) then |turns| else LastUse(turns, key)
  {
    assert (turns + [t])[..|turns|] == turns;
  }

  /** A turn that uses nothing, and leaves every stamp. */
  lemma ByUseOther(b': Buckets, b: Buckets, b0: Buckets, clock0: nat, turns: seq<Turn>)
    requires ByUse(b, b0, clock0, turns) && Within(b', b)
    ensures ByUse(b', b0, clock0, turns + [Other])
  {
    hide Flat, HasStamp, LastUse;
    forall key
      ensures LastUse(turns + [Other], key) == LastUse(turns, key)
    {
      OneMoreTurn(turns, Other, key);
    }
  }

  /** A command: the key it used is now the newest entry. */
  lemma ByUseCommand(b': Buckets, b: Buckets, b0: Buckets, clock0: nat, turns: seq<Turn>, op: Op, reply: Reply,
                     clock: nat)
    requires ByUse(b, b0, clock0, turns) && Stamps(Flat(b), clock) && clock0 <= clock
    requires var used := op.key in Keys(Flat(b')) && Uses(op, reply);
             LastUses(b', b, op.key, used, clock + 1)
    ensures ByUse(b', b0, clock0, turns + [Answered(op, reply)])
  {
    hide Flat, HasStamp, LastUse;
    var t := Answered(op, reply);
    forall key
      ensures LastUse(turns + [t], key) == if key == op.key && Uses(op, reply) then |turns| else LastUse(turns, key)
    {
      OneMoreTurn(turns, t, key);
    }
    forall e | e in Flat(b')
      ensures if e.key == op.key && Uses(op, reply) then e.stamp == clock + 1
              else exists x :: x in Flat(b) && x.key == e.key && x.stamp == e.stamp
    {
      assert e.key in Keys(Flat(b'));
      Had(b, e.key, e.stamp);
    }
  }

  lemma Had(b: Buckets, key: bytes, stamp: nat)
    ensures HasStamp(b, key, stamp) ==> exists x :: x in Flat(b) && x.key == key && x.stamp == stamp
  {
  }

  /** Whatever eviction takes was used before what it leaves in the same bucket. */
  lemma TakenUsedBefore(b: Buckets, b0: Buckets, clock0: nat, turns: seq<Turn>, gone: set<bytes>, hash: Hash, n: nat,
                        key: bytes, e: Entry, f: Entry)
    requires ByUse(b, b0, clock0, turns) && n > 0 && OldestFirst(b, gone, hash, n, key)
    requires e in Flat(b) && f in Flat(b) && e.key in gone && f.key !in gone && f.key != key
    requires hash(e.key) % n == hash(f.key) % n
    ensures LastUse(turns, e.key) < LastUse(turns, f.key) || (LastUse(turns, e.key) == LastUse(turns, f.key) == -1)
  {
    hide Flat, HasStamp;
    assert e.stamp < f.stamp;
  }

  /** The victim of one eviction was used before everything else in the buckets considered. */
  lemma VictimUsedFirst(b: Buckets, b0: Buckets, clock0: nat, turns: seq<Turn>, seen: set<nat>, v: Entry, s: nat,
                        f: Entry)
    requires ByUse(b, b0, clock0, turns) && LeastRecent(b, seen, v)
    requires s in seen && s < |b| && f in b[s] && f.key != v.key
    ensures LastUse(turns, v.key) < LastUse(turns, f.key) || (LastUse(turns, v.key) == LastUse(turns, f.key) == -1)
  {
    var t :| t in seen && 0 <= t < |b| && v in b[t];
    InFlat(b, t, v);
    InFlat(b, s, f);
    hide Flat, HasStamp;
  }
}
