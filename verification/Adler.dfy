/** The snapshot checksum (adler32 of src/snapshot.c) against its definition in
    section 2.2 of RFC 1950, and the little-endian integers it is stored with. */
module Adler {
  import opened Common

  const BASE: nat := 65521
  const HALF: nat := 0x1_0000
  const WORD: nat := 0x1_0000_0000

  /** The two running halves. */
  datatype Sums = Sums(s1: nat, s2: nat)

  function Unpack(adler: nat): Sums {
    Sums(adler % HALF, adler / HALF % HALF)
  }

  function Pack(s: Sums): nat {
    s.s2 * HALF + s.s1
  }

  function Fold(s: Sums, buf: bytes): (r: Sums)
    ensures s.s1 < HALF && s.s2 < HALF ==> r.s1 < HALF && r.s2 < HALF
    decreases |buf|
  {
    if buf == [] then s
    else
      var s1 := (s.s1 + buf[0]) % BASE;
      Fold(Sums(s1, (s.s2 + s1) % BASE), buf[1..])
  }

  /** adler32: unpack, run over the bytes, pack. */
  function Adler32(adler: nat, buf: bytes): (r: nat)
    ensures r < WORD
  {
    Pack(Fold(Unpack(adler), buf))
  }

  /** The loop of adler32. */
  method ComputeAdler32(adler: nat, buf: bytes) returns (r: nat)
    ensures r == Adler32(adler, buf)
  {
    var s1: nat, s2: nat := adler % HALF, adler / HALF % HALF;
    var n := 0;
    while n < |buf|
      invariant n <= |buf|
      invariant Fold(Sums(s1, s2), buf[n..]) == Fold(Unpack(adler), buf)
    {
      assert buf[n..][1..] == buf[n + 1..];
      s1 := (s1 + buf[n]) % BASE;
      s2 := (s2 + s1) % BASE;
      n := n + 1;
    }
    assert buf[n..] == [];
    r := s2 * HALF + s1;
  }

  // ----- Block by block equals all at once -----

  lemma {:induction false} FoldAppend(s: Sums, a: bytes, b: bytes)
    ensures Fold(Fold(s, a), b) == Fold(s, a + b)
    decreases |a|
  {
    if a == [] {
      assert a + b == b;
    } else {
      assert (a + b)[1..] == a[1..] + b;
      var s1 := (s.s1 + a[0]) % BASE;
      FoldAppend(Sums(s1, (s.s2 + s1) % BASE), a[1..], b);
    }
  }

  lemma UnpackPack(s: Sums)
    requires s.s1 < HALF && s.s2 < HALF
    ensures Unpack(Pack(s)) == s
  {
  }

  lemma PackUnpack(a: nat)
    requires a < WORD
    ensures Pack(Unpack(a)) == a
  {
  }

  /** Threading the checksum through any split of the data gives the checksum of the whole. */
  lemma BlockByBlock(adler: nat, a: bytes, b: bytes)
    ensures Adler32(Adler32(adler, a), b) == Adler32(adler, a + b)
  {
    UnpackPack(Fold(Unpack(adler), a));
    FoldAppend(Unpack(adler), a, b);
  }

  lemma EmptyBlock(adler: nat)
    requires adler < WORD
    ensures Adler32(adler, []) == adler
  {
    PackUnpack(adler);
  }

  // ----- Section 2.2 of RFC 1950 -----

  function Total(data: bytes): nat {
    if data == [] then 0 else Total(data[..|data| - 1]) + data[|data| - 1]
  }

  /** "s1 is the sum of all bytes" plus one, modulo 65521. */
  function S1(data: bytes): nat {
    (1 + Total(data)) % BASE
  }

  /** "s2 is the sum of all s1 values", modulo 65521. */
  function S2(data: bytes): nat {
    if data == [] then 0 else (S2(data[..|data| - 1]) + S1(data)) % BASE
  }

  lemma {:induction false} FoldIsRfc1950(data: bytes)
    ensures Fold(Sums(1, 0), data) == Sums(S1(data), S2(data))
    decreases |data|
  {
    if data != [] {
      var init, last := data[..|data| - 1], data[|data| - 1];
      assert data == init + [last];
      FoldIsRfc1950(init);
      FoldAppend(Sums(1, 0), init, [last]);
      FoldOne(Sums(S1(init), S2(init)), last);
      ModAdd(1 + Total(init), last);
    }
  }

  lemma FoldOne(s: Sums, c: byte)
    ensures Fold(s, [c]) == Sums((s.s1 + c) % BASE, (s.s2 + (s.s1 + c) % BASE) % BASE)
  {
    assert [c][1..] == [];
  }

  lemma ModAdd(x: nat, y: nat)
    ensures (x % BASE + y) % BASE == (x + y) % BASE
  {
    assert x == BASE * (x / BASE) + x % BASE;
    assert x + y == BASE * (x / BASE) + (x % BASE + y);
    ModShift(x / BASE, x % BASE + y);
  }

  lemma {:induction false} ModShift(q: nat, r: nat)
    ensures (BASE * q + r) % BASE == r % BASE
  {
    if q > 0 {
      ModShift(q - 1, r);
      assert BASE * q + r == BASE * (q - 1) + r + BASE;
      assert (BASE * (q - 1) + r + BASE) % BASE == (BASE * (q - 1) + r) % BASE;
    }
  }

  /** The checksum the source computes is the standard's, and both halves stay below 65521. */
  lemma AdlerIsRfc1950(data: bytes)
    ensures Adler32(1, data) == S2(data) * HALF + S1(data)
    ensures S1(data) < BASE && S2(data) < BASE
  {
    FoldIsRfc1950(data);
    assert Unpack(1) == Sums(1, 0);
  }

  // ----- One altered byte -----

  lemma {:induction false} TotalAppend(a: bytes, b: bytes)
    ensures Total(a + b) == Total(a) + Total(b)
    decreases |b|
  {
    if b == [] {
      assert a + b == a;
    } else {
      assert (a + b)[..|a + b| - 1] == a + b[..|b| - 1];
      TotalAppend(a, b[..|b| - 1]);
    }
  }

  lemma TotalAt(data: bytes, p: nat, c: byte)
    requires p < |data|
    ensures Total(data[p := c]) + data[p] == Total(data) + c
  {
    assert data == data[..p] + [data[p]] + data[p + 1..];
    assert data[p := c] == data[..p] + [c] + data[p + 1..];
    TotalAppend(data[..p] + [data[p]], data[p + 1..]);
    TotalAppend(data[..p], [data[p]]);
    TotalAppend(data[..p] + [c], data[p + 1..]);
    TotalAppend(data[..p], [c]);
    assert forall x: byte :: Total([x]) == Total([]) + x by {
      assert forall x: byte :: [x][..0] == [];
    }
  }

  lemma ModDiffers(x: nat, y: nat)
    requires x % BASE == y % BASE && x <= y < x + BASE
    ensures x == y
  {
    assert y - x == BASE * (y / BASE) - BASE * (x / BASE);
  }

  /** Changing one byte always changes the checksum. */
  lemma OneByteDetected(data: bytes, p: nat, c: byte)
    requires p < |data| && c != data[p]
    ensures Adler32(1, data[p := c]) != Adler32(1, data)
  {
    AdlerIsRfc1950(data);
    AdlerIsRfc1950(data[p := c]);
    TotalAt(data, p, c);
    var x, y := 1 + Total(data), 1 + Total(data[p := c]);
    if x % BASE == y % BASE {
      if x <= y {
        ModDiffers(x, y);
      } else {
        ModDiffers(y, x);
      }
    }
    hide Adler32;
    if Adler32(1, data[p := c]) == Adler32(1, data) {
      SameHalves(S1(data), S2(data), S1(data[p := c]), S2(data[p := c]));
    }
  }

  lemma SameHalves(a: nat, b: nat, c: nat, d: nat)
    requires a < HALF && c < HALF && b * HALF + a == d * HALF + c
    ensures a == c
  {
  }

  // ----- Little-endian integers -----

  function Pow256(n: nat): nat {
    if n == 0 then 1 else 256 * Pow256(n - 1)
  }

  function LittleEndian(v: nat, n: nat): (r: bytes)
    ensures |r| == n
  {
    if n == 0 then [] else [v % 256] + LittleEndian(v / 256, n - 1)
  }

  function FromLittleEndian(buf: bytes): (v: nat)
    ensures v < Pow256(|buf|)
  {
    if buf == [] then 0 else buf[0] + 256 * FromLittleEndian(buf[1..])
  }

  /** write_uint32 then read_uint32 (and the 64-bit pair) give the number back. */
  lemma {:induction false} LittleEndianRoundTrip(v: nat, n: nat)
    requires v < Pow256(n)
    ensures FromLittleEndian(LittleEndian(v, n)) == v
  {
    if n > 0 {
      LittleEndianRoundTrip(v / 256, n - 1);
      assert LittleEndian(v, n)[1..] == LittleEndian(v / 256, n - 1);
    }
  }

  /** The byte loop of write_uint32 and write_uint64. */
  method WriteUint(v: nat, n: nat) returns (buf: bytes)
    ensures buf == LittleEndian(v, n)
  {
    buf := [];
    var val, i := v, 0;
    while i < n
      invariant i <= n
      invariant buf + LittleEndian(val, n - i) == LittleEndian(v, n)
    {
      buf := buf + [val % 256];
      val := val / 256;
      i := i + 1;
    }
    assert buf + [] == buf;
  }

  /** The byte loop of read_uint32 and read_uint64. */
  method ReadUint(buf: bytes) returns (v: nat)
    ensures v == FromLittleEndian(buf)
  {
    v := 0;
    var i: nat, shift: nat := 0, 1;
    while i < |buf|
      invariant i <= |buf|
      invariant v + shift * FromLittleEndian(buf[i..]) == FromLittleEndian(buf)
    {
      assert buf[i..][1..] == buf[i + 1..];
      ShiftStep(v, shift, buf[i], FromLittleEndian(buf[i + 1..]), FromLittleEndian(buf));
      hide FromLittleEndian;
      v := v + shift * buf[i];
      shift := shift * 256;
      i := i + 1;
    }
    assert buf[i..] == [];
  }

  lemma ShiftStep(v: nat, shift: nat, c: byte, rest: nat, total: nat)
    requires v + shift * (c + 256 * rest) == total
    ensures v + shift * c + shift * 256 * rest == total
  {
  }
}
