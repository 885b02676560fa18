/** What is written down elsewhere in names, in numbers: the layout of the snapshot file, what an
    entry is charged, and the limits of the sampling and of the buffers. */
module Formats {
  import opened Common
  import opened Spec
  import opened Table
  import opened Payloads
  import opened Adler
  import opened Snapshot
  import opened Eviction
  import opened Framing
  import opened Sharding

  /** The bytes of saved entries: deadline, key, type and contents, least significant byte first; lists
      from the tail. */
  lemma SavedEntries()
    ensures EncodeEntry(Entry([107], PStr([118]), 258, 1))
            == [2, 1, 0, 0, 0, 0, 0, 0] + ([1, 0, 0, 0, 107] + ([0] + [1, 0, 0, 0, 118]))
    ensures EncodeEntry(Entry([107], PList([[118], [119]]), 0, 1))
            == [0, 0, 0, 0, 0, 0, 0, 0]
               + ([1, 0, 0, 0, 107] + ([1] + ([2, 0, 0, 0] + ([1, 0, 0, 0, 119] + [1, 0, 0, 0, 118]))))
    ensures EncodeEntry(Entry([107], PSet([[[118]]]), 0, 1))
            == [0, 0, 0, 0, 0, 0, 0, 0] + ([1, 0, 0, 0, 107] + ([2] + ([1, 0, 0, 0] + [1, 0, 0, 0, 118])))
  {
    hide LittleEndian, EncodeString, EncodeAll, Reverse, Concat;
    Numbers();
    OneByteString(107);
    OneByteString(118);
    OneByteString(119);
    Contents();
  }

  lemma Numbers()
    ensures LittleEndian(1, 4) == [1, 0, 0, 0] && LittleEndian(2, 4) == [2, 0, 0, 0]
    ensures LittleEndian(258, 8) == [2, 1, 0, 0, 0, 0, 0, 0] && LittleEndian(0, 8) == [0, 0, 0, 0, 0, 0, 0, 0]
  {
    hide LittleEndian;
    FirstByte(1, 3);
    FirstByte(2, 3);
    FirstByte(258, 7);
    FirstByte(1, 6);
    Zeros(3);
    Zeros(6);
    Zeros(8);
  }

  lemma FirstByte(n: nat, width: nat)
    ensures LittleEndian(n, width + 1) == [n % 256] + LittleEndian(n / 256, width)
  {
  }

  lemma {:induction false} Zeros(width: nat)
    ensures LittleEndian(0, width) == seq(width, _ => 0)
  {
    if width > 0 {
      Zeros(width - 1);
    }
  }

  lemma OneByteString(b: byte)
    ensures EncodeString([b]) == [1, 0, 0, 0, b]
  {
    Numbers();
    hide LittleEndian;
  }

  lemma Contents()
    ensures EncodeAll([[118]]) == EncodeString([118])
    ensures EncodeAll([[119], [118]]) == EncodeString([119]) + EncodeString([118])
    ensures Reverse([[118], [119]]) == [[119], [118]] && Concat<bytes>([[[118]]]) == [[118]]
  {
    hide EncodeString;
    assert [[118]][1..] == [] && [[119], [118]][1..] == [[118]] && [[118], [119]][1..] == [[119]];
    assert [[119]][1..] == [] && [[[118]]][1..] == [];
  }

  lemma FoldFirst(s: Sums, buf: bytes)
    requires buf != []
    ensures var s1 := (s.s1 + buf[0]) % 65521;
            Fold(s, buf) == Fold(Sums(s1, (s.s2 + s1) % 65521), buf[1..])
  {
  }

  lemma FoldByte(s1: nat, s2: nat, b: byte, rest: bytes)
    requires s1 + b < 65521 && s2 + s1 + b < 65521
    ensures Fold(Sums(s1, s2), [b] + rest) == Fold(Sums(s1 + b, s2 + s1 + b), rest)
  {
    hide Fold;
    var buf := [b] + rest;
    assert buf[0] == b && buf[1..] == rest;
    FoldFirst(Sums(s1, s2), buf);
  }

  lemma MarkerBytes()
    ensures LittleEndian(MARKER, 8) == [255, 255, 255, 255, 255, 255, 255, 255]
  {
  }

  /** The file of an empty table: "MINIKV01", the end marker, the checksum. */
  lemma EmptyFile(now: int)
    ensures Save([], now)
            == [77, 73, 78, 73, 75, 86, 48, 49, 255, 255, 255, 255, 255, 255, 255, 255] + [40, 10, 203, 63]
  {
    hide Fold, LittleEndian;
    MarkerBytes();
    var body: bytes := [77, 73, 78, 73, 75, 86, 48, 49, 255, 255, 255, 255, 255, 255, 255, 255];
    assert SaveBody([], now) == body;
    FileSums();
    assert body == [77, 73, 78, 73] + ([75, 86, 48, 49] + ([255, 255, 255, 255] + ([255, 255, 255, 255] + [])));
    assert Adler32(1, body) == 1070271016;
    FirstByte(1070271016, 3);
    FirstByte(4180746, 2);
    FirstByte(16331, 1);
    FirstByte(63, 0);
    assert LittleEndian(1070271016, 4) == [40, 10, 203, 63];
  }

  lemma FoldFour(s1: nat, s2: nat, a: byte, b: byte, c: byte, d: byte, rest: bytes)
    requires s1 + a + b + c + d < 65521 && s2 + 4 * s1 + 4 * a + 3 * b + 2 * c + d < 65521
    ensures Fold(Sums(s1, s2), [a, b, c, d] + rest)
            == Fold(Sums(s1 + a + b + c + d, s2 + 4 * s1 + 4 * a + 3 * b + 2 * c + d), rest)
  {
    hide Fold;
    FoldByte(s1, s2, a, [b, c, d] + rest);
    FoldByte(s1 + a, s2 + s1 + a, b, [c, d] + rest);
    FoldByte(s1 + a + b, s2 + 2 * s1 + 2 * a + b, c, [d] + rest);
    FoldByte(s1 + a + b + c, s2 + 3 * s1 + 3 * a + 2 * b + c, d, rest);
    assert [a, b, c, d] + rest == [a] + ([b, c, d] + rest) && [b, c, d] + rest == [b] + ([c, d] + rest);
    assert [c, d] + rest == [c] + ([d] + rest);
  }

  lemma FileSums()
    ensures Fold(Sums(1, 0),
                 [77, 73, 78, 73] + ([75, 86, 48, 49] + ([255, 255, 255, 255] + ([255, 255, 255, 255] + []))))
            == Sums(2600, 16331)
  {
    hide Fold;
    var ff: bytes := [255, 255, 255, 255];
    FoldFour(1, 0, 77, 73, 78, 73, [75, 86, 48, 49] + (ff + (ff + [])));
    FoldFour(302, 760, 75, 86, 48, 49, ff + (ff + []));
    FoldFour(560, 2671, 255, 255, 255, 255, ff + []);
    FoldFour(1580, 7461, 255, 255, 255, 255, []);
    FoldNothing(Sums(2600, 16331));
  }

  lemma FoldNothing(s: Sums)
    ensures Fold(s, []) == s
  {
  }

  /** What an entry is charged. */
  lemma EntryCosts(key: bytes, val: bytes, deadline: int, stamp: nat)
    ensures EntryBytes(Entry(key, PStr(val), deadline, stamp)) == 48 + (|key| + 1) + (|val| + 1)
    ensures EntryBytes(Entry(key, PList([]), deadline, stamp)) == 48 + (|key| + 1) + 24
    ensures EntryBytes(Entry(key, PList([val]), deadline, stamp)) == 48 + (|key| + 1) + 24 + (24 + |val| + 1)
    ensures EntryBytes(Entry(key, EmptySet(), deadline, stamp)) == 48 + (|key| + 1) + 24 + 16 * 8
    ensures SetNodeBytes(val) == 16 + |val| + 1 && ListNodeBytes(val) == 24 + |val| + 1
    ensures StringBytes(key, val) == 48 + (|key| + 1) + (|val| + 1)
    ensures SetBytes(key) == 48 + (|key| + 1) + 24 + 16 * 8 && ListBytes(key) == 48 + (|key| + 1) + 24
  {
    EmptySetInv(key, stamp, _ => 0);
    assert [val][1..] == [];
  }

  /** Sampling asks for at most 64 values and stops behind the sixteenth that hits. */
  lemma SampleLimits(b: Buckets, rng: nat -> nat, at: nat)
    requires |b| > 0
    ensures |Draws(rng, at)| == 64
    ensures (forall i | 0 <= i < |b| :: b[i] != []) ==> SampleLength(b, Draws(rng, at), 0) == 16
    ensures (forall i | 0 <= i < |b| :: b[i] == []) ==> SampleLength(b, Draws(rng, at), 0) == 64
  {
    if forall i | 0 <= i < |b| :: b[i] != [] {
      AllHit(b, Draws(rng, at), 0);
    } else if forall i | 0 <= i < |b| :: b[i] == [] {
      NoneHit(b, Draws(rng, at));
    }
  }

  lemma {:induction false} AllHit(b: Buckets, draws: seq<nat>, hits: nat)
    requires |b| > 0 && (forall i | 0 <= i < |b| :: b[i] != []) && hits <= 16 <= hits + |draws|
    ensures SampleLength(b, draws, hits) == 16 - hits
    decreases |draws|
  {
    if hits < 16 {
      AllHit(b, draws[1..], hits + 1);
    }
  }

  lemma {:induction false} NoneHit(b: Buckets, draws: seq<nat>)
    requires |b| > 0 && forall i | 0 <= i < |b| :: b[i] == []
    ensures SampleLength(b, draws, 0) == |draws|
    decreases |draws|
  {
    if draws != [] {
      NoneHit(b, draws[1..]);
    }
  }

  /** The client buffer holds 16384 bytes, of which one stays free; a line has at most 8192. */
  lemma BufferLimits(held: bytes, line: bytes)
    requires NL !in held && NL !in line
    ensures Accepts(held, line) <==> |held| + |line| < 8192
    ensures Accepts([], line + [NL]) <==> |line| <= 8192
  {
    assert NL !in held + line;
    NoNewline(held + line);
    var s := line + [NL];
    assert [] + s == s && s[..|line|] == line && s[|line| + 1..] == [];
    IndexOfUnique(s, NL, |line|);
    FirstLine(s);
    NoNewline([]);
    hide IndexOf, Lines, Tail;
  }

  /** A burst that fills the buffer is refused whatever is in it. */
  lemma FullBufferRefused(held: bytes, arrived: bytes)
    ensures |held| + |arrived| >= 16384 ==> !Accepts(held, arrived)
    ensures |held| + |arrived| < 16384 ==>
              (Accepts(held, arrived)
               <==> (forall l | l in Lines(held + arrived) :: |l| <= 8192) && |Tail(held + arrived)| < 8192)
  {
  }

  /** Stores of fewer than 32 buckets get 32 locks, those of more than 64 get 64. */
  lemma LockCounts(n: nat)
    ensures 32 <= NumLocks(n) <= 64 && (32 <= n <= 64 ==> NumLocks(n) == n)
    ensures (n < 32 ==> NumLocks(n) == 32) && (n > 64 ==> NumLocks(n) == 64)
  {
  }
}
