/** What a failed allocation leaves in the rewrite buffer, and what the next merge makes of it.
    Records are appended piece by piece (src/kv.c:611-615), so the pieces behind the failed one, and
    all later records, are buffered again. */
module TornBuffer {
  import opened Common
  import opened Spec
  import opened LogText
  import opened Durability
  import opened Table
  import opened Compaction
  import opened RewriteBuffer

  /** The arguments of the calls that append one record.  PERSIST appends its last three bytes in
      one call, so the ways to cut its record are among these. */
  function Pieces(r: Rec): seq<bytes> {
    if HasArg(r.cmd) then [Tag(r.cmd) + [TAB], r.key, [TAB], r.arg, [NL]] else [Tag(r.cmd) + [TAB], r.key, [NL]]
  }

  /** What stays of a record when the last piece lost is number `cut - 1`. */
  function Leftover(r: Rec, cut: nat): bytes
    requires cut <= |Pieces(r)|
  {
    Concat(Pieces(r)[cut..])
  }

  // ----- How the buffer comes to hold it -----

  /** The contents after appending `pieces`, with `oks` saying which of them were kept. */
  function AfterPieces(buf: bytes, pieces: seq<bytes>, oks: seq<bool>): bytes
    requires |pieces| == |oks|
    decreases |pieces|
  {
    if pieces == [] then buf
    else AfterPieces(if oks[0] then buf + pieces[0] else [], pieces[1..], oks[1..])
  }

  /** Everything is there, or a proper suffix of the pieces and nothing before them. */
  lemma {:induction false} PiecesKept(buf: bytes, pieces: seq<bytes>, oks: seq<bool>) returns (cut: nat)
    requires |pieces| == |oks|
    ensures cut <= |pieces|
    ensures AfterPieces(buf, pieces, oks) == if cut == 0 then buf + Concat(pieces) else Concat(pieces[cut..])
    ensures (forall i | 0 <= i < |oks| :: oks[i]) ==> cut == 0
    decreases |pieces|
  {
    cut := 0;
    if pieces == [] {
      assert buf + [] == buf;
    } else {
      var first := if oks[0] then buf + pieces[0] else [];
      var rest := PiecesKept(first, pieces[1..], oks[1..]);
      if rest > 0 {
        cut := rest + 1;
        assert pieces[cut..] == pieces[1..][rest..];
      } else if oks[0] {
        assert (buf + pieces[0]) + Concat(pieces[1..]) == buf + Concat(pieces);
      } else {
        cut := 1;
        assert [] + Concat(pieces[1..]) == Concat(pieces[1..]);
      }
    }
  }

  lemma ConcatFirst(p: seq<bytes>)
    ensures p == [] ==> Concat(p) == []
    ensures p != [] ==> Concat(p) == p[0] + Concat(p[1..])
  {
  }

  lemma ConcatTwo(a: bytes, b: bytes)
    ensures Concat([a, b]) == a + b && Concat([b]) == b
  {
    ConcatFirst([a, b]);
    ConcatFirst([b]);
    assert [a, b][1..] == [b] && |[b][1..]| == 0;
    ConcatFirst([b][1..]);
    assert b + [] == b;
  }

  lemma ConcatFive(a: bytes, b: bytes, c: bytes, d: bytes, e: bytes)
    ensures Concat([c, d, e]) == c + d + e
    ensures Concat([b, c, d, e]) == b + c + d + e
    ensures Concat([a, b, c, d, e]) == a + b + c + d + e
  {
    hide Concat;
    ConcatTwo(d, e);
    ConcatFirst([c, d, e]);
    ConcatFirst([b, c, d, e]);
    ConcatFirst([a, b, c, d, e]);
    assert [c, d, e][1..] == [d, e] && [b, c, d, e][1..] == [c, d, e] && [a, b, c, d, e][1..] == [b, c, d, e];
  }

  lemma PiecesAreFormat(r: Rec)
    ensures Concat(Pieces(r)) == Format(r)
  {
    hide Tag, Concat;
    ConcatFive(Tag(r.cmd) + [TAB], r.key, [TAB], r.arg, [NL]);
    ConcatFive([], [], Tag(r.cmd) + [TAB], r.key, [NL]);
  }

  /** The contents after appending whole records. */
  function AfterRecs(buf: bytes, recs: seq<Rec>, oks: seq<seq<bool>>): bytes
    requires |recs| == |oks| && forall i | 0 <= i < |recs| :: |oks[i]| == |Pieces(recs[i])|
    decreases |recs|
  {
    if recs == [] then buf
    else AfterRecs(AfterPieces(buf, Pieces(recs[0]), oks[0]), recs[1..], oks[1..])
  }

  /** Since the last loss the buffer holds the leftover of one record and every later record. */
  ghost predicate Torn(buf: bytes, recs: seq<Rec>, n: nat, cut: nat) {
    && n < |recs| && 1 <= cut <= |Pieces(recs[n])|
    && buf == Leftover(recs[n], cut) + FormatAll(recs[n + 1..])
  }

  lemma {:induction false} RecsKept(buf: bytes, recs: seq<Rec>, oks: seq<seq<bool>>)
    returns (whole: bool, n: nat, cut: nat)
    requires |recs| == |oks| && forall i | 0 <= i < |recs| :: |oks[i]| == |Pieces(recs[i])|
    ensures var after := AfterRecs(buf, recs, oks);
            if whole then after == buf + FormatAll(recs) else Torn(after, recs, n, cut)
    decreases |recs|
  {
    hide Pieces, Format;
    whole, n, cut := true, 0, 0;
    if recs == [] {
      assert buf + [] == buf;
    } else {
      var r := recs[0];
      var first := AfterPieces(buf, Pieces(r), oks[0]);
      var cut0 := PiecesKept(buf, Pieces(r), oks[0]);
      whole, n, cut := RecsKept(first, recs[1..], oks[1..]);
      if !whole {
        n := n + 1;
        assert recs[1..][n..] == recs[n + 1..];
      } else if cut0 == 0 {
        PiecesAreFormat(r);
        assert (buf + Format(r)) + FormatAll(recs[1..]) == buf + FormatAll(recs);
      } else {
        whole, n, cut := false, 0, cut0;
      }
    }
  }

  /** The calls themselves, on the growing array: `mem` says which allocations would succeed. */
  method AppendRecord(b: GrowingBuffer, r: Rec, mem: seq<bool>) returns (ghost oks: seq<bool>)
    requires b.Valid() && |mem| == |Pieces(r)|
    modifies b, b.buf
    ensures b.Valid() && (b.buf == old(b.buf) || b.buf == null || fresh(b.buf))
    ensures |oks| == |Pieces(r)| && b.Contents() == AfterPieces(old(b.Contents()), Pieces(r), oks)
    ensures forall i | 0 <= i < |mem| :: mem[i] ==> oks[i]
  {
    hide Pieces;
    var pieces := Pieces(r);
    oks := [];
    var i := 0;
    AfterNothing(b.Contents());
    while i < |pieces|
      invariant 0 <= i <= |pieces| && |oks| == i
      invariant b.Valid() && (b.buf == old(b.buf) || b.buf == null || fresh(b.buf))
      invariant b.Contents() == AfterPieces(old(b.Contents()), pieces[..i], oks)
      invariant forall k | 0 <= k < i :: mem[k] ==> oks[k]
    {
      ghost var before := b.Contents();
      b.Append(pieces[i], mem[i]);
      ghost var ok := b.Contents() == before + pieces[i];
      AfterOneMore(old(b.Contents()), pieces[..i], oks, pieces[i], ok);
      assert pieces[..i] + [pieces[i]] == pieces[..i + 1];
      assert before + [] == before;
      oks := oks + [ok];
      i := i + 1;
    }
    assert pieces[..i] == pieces;
  }

  lemma AfterNothing(buf: bytes)
    ensures AfterPieces(buf, [], []) == buf
  {
  }

  lemma {:induction false} AfterOneMore(buf: bytes, pieces: seq<bytes>, oks: seq<bool>, p: bytes, ok: bool)
    requires |pieces| == |oks|
    ensures AfterPieces(buf, pieces + [p], oks + [ok])
            == if ok then AfterPieces(buf, pieces, oks) + p else []
    decreases |pieces|
  {
    if pieces == [] {
      assert (pieces + [p])[1..] == [] && (oks + [ok])[1..] == [];
      assert AfterPieces(buf, [p], [ok]) == AfterPieces(if ok then buf + p else [], [p][1..], [ok][1..]);
    } else {
      assert (pieces + [p])[1..] == pieces[1..] + [p] && (oks + [ok])[1..] == oks[1..] + [ok];
      AfterOneMore(if oks[0] then buf + pieces[0] else [], pieces[1..], oks[1..], p, ok);
    }
  }

  // ----- How replay reads it -----

  /** The line a torn record leaves, without its newline. */
  function TornText(r: Rec, cut: nat): bytes {
    if !HasArg(r.cmd) then if cut == 1 then r.key else []
    else if cut == 1 then r.key + [TAB] + r.arg
    else if cut == 2 then [TAB] + r.arg
    else if cut == 3 then r.arg
    else []
  }

  lemma LeftoverIsLine(r: Rec, cut: nat)
    requires WellFormed(r) && 1 <= cut <= |Pieces(r)|
    ensures Leftover(r, cut) == if cut == |Pieces(r)| then [] else TornText(r, cut) + [NL]
    ensures PlainLine(TornText(r, cut))
  {
    hide Tag, Concat, WellFormed, PlainLine;
    TornTextPlain(r, cut);
    var p: seq<bytes> := Pieces(r);
    assert |p[|p|..]| == 0;
    ConcatFirst(p[|p|..]);
    if HasArg(r.cmd) {
      ConcatFive([], r.key, [TAB], r.arg, [NL]);
      ConcatTwo(r.arg, [NL]);
      assert p[1..] == [r.key, [TAB], r.arg, [NL]] && p[2..] == [[TAB], r.arg, [NL]];
      assert p[3..] == [r.arg, [NL]] && p[4..] == [[NL]];
    } else {
      ConcatTwo(r.key, [NL]);
      assert p[1..] == [r.key, [NL]] && p[2..] == [[NL]];
    }
  }

  lemma TornTextPlain(r: Rec, cut: nat)
    requires WellFormed(r)
    ensures PlainLine(TornText(r, cut))
  {
    var b := TornText(r, cut);
    assert r.key[|r.key| - 1] in r.key;
    if HasArg(r.cmd) && 1 <= cut <= 2 {
      assert b[|b| - 1] == (if r.arg == [] then TAB else r.arg[|r.arg| - 1]);
    }
  }

  /** Only what follows the tag, or what follows the second tab, can be taken for a record: when the
      key is itself a command name, or the value starts with one. */
  lemma CutsThatParse(r: Rec, cut: nat)
    requires WellFormed(r) && 1 <= cut <= |Pieces(r)| && ParseLine(TornText(r, cut)).Some?
    ensures HasArg(r.cmd)
    ensures var x := ParseLine(TornText(r, cut)).value;
            (cut == 1 && r.key == Tag(x.cmd)) || (cut == 3 && Tagged(r.arg, x.cmd))
  {
    hide CommandOf, IndexOf, Tag, Tagged;
    var b := TornText(r, cut);
    ParsedIsTagged(b);
    KeyHasNoSpace(r.key);
    var c := CommandOf(b).value;
    assert ParseArgs(b, c).value.cmd == c;
    NotTagged(b, c);
    if cut == 1 {
      NameBeforeTab(r.key, b, c);
    }
  }

  lemma NotTagged(b: bytes, c: Cmd)
    requires Tagged(b, c)
    ensures b != [] && b[0] != TAB
  {
    TagHasNoSpace(c);
    hide Tag;
    assert b[0] == b[..|Tag(c)|][0] && Tag(c)[0] in Tag(c);
  }

  /** A line that is a word, or starts with one and a tab, has that word for its tag. */
  lemma NameBeforeTab(key: bytes, b: bytes, c: Cmd)
    requires Tagged(b, c) && TAB !in key && SPACE !in key
    requires key <= b && (|b| > |key| ==> b[|key|] == TAB)
    ensures key == Tag(c) && |b| > |key|
  {
    TagHasNoSpace(c);
    hide Tag;
    var n := |Tag(c)|;
    assert forall k | 0 <= k < n :: b[k] == b[..n][k] && Tag(c)[k] in Tag(c);
    assert forall k | 0 <= k < |key| :: b[k] == key[k] && key[k] in key;
  }

  lemma TagHasNoSpace(c: Cmd)
    ensures |Tag(c)| > 0 && TAB !in Tag(c)
  {
  }

  /** What replay makes of a torn record: nothing, unless its remains parse. */
  function ApplyTorn(m: Items, cap: nat, r: Rec, cut: nat, now: int): Items {
    if cut == |Pieces(r)| then m else ApplyText(m, cap, TornText(r, cut), now)
  }

  lemma ReplayTorn(m: Items, cap: nat, r: Rec, cut: nat, later: seq<Rec>, now: int)
    requires WellFormed(r) && 1 <= cut <= |Pieces(r)| && forall x | x in later :: WellFormed(x)
    ensures Replay(m, cap, Leftover(r, cut) + FormatAll(later), now)
            == ReplayRecs(ApplyTorn(m, cap, r, cut, now), cap, later, now)
  {
    hide Pieces, Leftover, TornText, ApplyText, Replay, PlainLine, WellFormed;
    LeftoverIsLine(r, cut);
    var rest := FormatAll(later);
    if cut == |Pieces(r)| {
      assert [] + rest == rest;
    } else {
      ReplayLine(m, cap, TornText(r, cut), rest, now);
    }
    ReplayFormatAll(ApplyTorn(m, cap, r, cut, now), cap, later, now);
  }

  // ----- What the merge makes of it -----

  /** A merge of a torn buffer is faithful if and only if, at every clock of the period, the remains
      of the torn record and the later records take the map at the fork to the live map. */
  lemma LostBufferIff(db: Db, atFork: Items, recs: seq<Rec>, n: nat, cut: nat, T: int)
    requires Fresh(db.items, T) && WithinCap(db) && db.log != NoLog && db.rewrite.Some?
    requires Mirrors(db.rewrite.value.dump, atFork, db.cap, T)
    requires Torn(db.rewrite.value.buf, recs, n, cut) && forall r | r in recs :: WellFormed(r)
    ensures Recoverable(Next(db, Merge(Merged)), T)
            <==> forall now | now <= T ::
                   ReplayRecs(ApplyTorn(atFork, db.cap, recs[n], cut, now), db.cap, recs[n + 1..], now) == db.items
  {
    hide Fresh, Replay, Pieces, Leftover, WellFormed, ReplayRecs, ApplyTorn, FormatAll;
    var dump, buf, later := db.rewrite.value.dump, db.rewrite.value.buf, recs[n + 1..];
    TornWhole(recs[n], cut, later);
    forall now | now <= T
      ensures Replay(map[], db.cap, dump + buf, now)
              == ReplayRecs(ApplyTorn(atFork, db.cap, recs[n], cut, now), db.cap, later, now)
    {
      ReplayAppend(map[], db.cap, dump, buf, now);
      assert Replay(map[], db.cap, dump, now) == atFork;
      ReplayTorn(atFork, db.cap, recs[n], cut, later, now);
    }
  }

  lemma TornWhole(r: Rec, cut: nat, later: seq<Rec>)
    requires WellFormed(r) && 1 <= cut <= |Pieces(r)|
    ensures WholeLines(Leftover(r, cut) + FormatAll(later))
    ensures forall dump | WholeLines(dump) :: WholeLines(dump + (Leftover(r, cut) + FormatAll(later)))
  {
    hide Pieces, Leftover, FormatAll, TornText;
    LeftoverIsLine(r, cut);
    FormatAllWhole(later);
  }

  /** Where nothing can be taken for a record, the loss is harmless if and only if the later records
      alone make up the difference. */
  lemma LossWithoutRecord(db: Db, atFork: Items, recs: seq<Rec>, n: nat, cut: nat, T: int)
    requires Fresh(db.items, T) && WithinCap(db) && db.log != NoLog && db.rewrite.Some?
    requires Mirrors(db.rewrite.value.dump, atFork, db.cap, T)
    requires Torn(db.rewrite.value.buf, recs, n, cut) && forall r | r in recs :: WellFormed(r)
    requires (forall c :: recs[n].key != Tag(c)) && (forall c :: !Tagged(recs[n].arg, c))
    ensures Recoverable(Next(db, Merge(Merged)), T)
            <==> var later := recs[n + 1..]; forall now | now <= T :: ReplayRecs(atFork, db.cap, later, now) == db.items
  {
    hide Pieces, Tag, Tagged, ParseLine, TornText, Mirrors, Fresh, Recoverable, ReplayRecs, FormatAll, Leftover,
         WellFormed, Next, WithinCap;
    LostBufferIff(db, atFork, recs, n, cut, T);
    if ParseLine(TornText(recs[n], cut)).Some? {
      CutsThatParse(recs[n], cut);
    }
    var later := recs[n + 1..];
    forall now
      ensures ReplayRecs(ApplyTorn(atFork, db.cap, recs[n], cut, now), db.cap, later, now)
              == ReplayRecs(atFork, db.cap, later, now)
    {
      assert ApplyTorn(atFork, db.cap, recs[n], cut, now) == atFork;
    }
  }

  /** Two keys, the first named like a command, and the SET that changes nothing. */
  const COMMAND_KEY: bytes := Tag(DELETE)
  const OTHER_KEY: bytes := [102]
  const TWO_KEYS: Items := map[COMMAND_KEY := Item(Str(OTHER_KEY), 0), OTHER_KEY := Item(Str([120]), 0)]
  const IDLE_SET: Rec := Rec(SET, COMMAND_KEY, OTHER_KEY)

  lemma ExampleKeys()
    ensures ValidKey(COMMAND_KEY) && ValidKey(OTHER_KEY) && COMMAND_KEY != OTHER_KEY
    ensures WellFormed(IDLE_SET) && WellFormed(Rec(DELETE, OTHER_KEY, []))
  {
    assert forall c | c in COMMAND_KEY :: 65 <= c <= 90;
    assert forall c | c in OTHER_KEY :: c == 102;
  }

  /** Its record, torn behind the tag, reads as the DELETE of the other key. */
  lemma TornSetDeletes()
    ensures Idle(TWO_KEYS, 0, SetOp(COMMAND_KEY, OTHER_KEY), ReplayEnv(0))
    ensures Leftover(IDLE_SET, 1) == Format(Rec(DELETE, OTHER_KEY, []))
    ensures ApplyTorn(TWO_KEYS, 0, IDLE_SET, 1, 0) == map[COMMAND_KEY := Item(Str(OTHER_KEY), 0)]
  {
    hide ValidateKey, IndexOf, ParseLine, Strtoll;
    ExampleKeys();
    var del := Rec(DELETE, OTHER_KEY, []);
    LeftoverIsLine(IDLE_SET, 1);
    assert TornText(IDLE_SET, 1) == Body(del);
    ParseBody(del);
  }

  /** Forked as it is, that SET with its first piece lost, merged and restarted: the key is gone. */
  lemma TornSetLosesKey(dump: bytes, T: int)
    requires 0 <= T && Mirrors(dump, TWO_KEYS, 0, T)
    ensures var db := Db(TWO_KEYS, 0, Appending(dump), Some(Rewrite(dump, Leftover(IDLE_SET, 1))));
            Next(Next(db, Merge(Merged)), Restart(0)).items == map[COMMAND_KEY := Item(Str(OTHER_KEY), 0)]
  {
    hide Leftover, WellFormed, Replay, ApplyTorn, Idle, Step, Dump, Format;
    ExampleKeys();
    TornSetDeletes();
    ReplayTorn(TWO_KEYS, 0, IDLE_SET, 1, [], 0);
    ReplayAppend(map[], 0, dump, Leftover(IDLE_SET, 1), 0);
    assert Replay(map[], 0, dump, 0) == TWO_KEYS;
    assert FormatAll([]) == [] && Leftover(IDLE_SET, 1) + [] == Leftover(IDLE_SET, 1);
  }
}
