/** Splitting byte streams into lines: the client read buffer (client_handle_read of
    src/server.c).  Bytes arrive in arbitrary chunks; commands must not depend on them. */
module Framing {
  import opened Common

  const READ_BUF_SIZE: nat := 16384
  const MAX_LINE_LEN: nat := 8192

  // ----- Whole-stream splitting -----

  /** The complete lines of a stream, without their newlines. */
  function Lines(s: bytes): seq<bytes>
    decreases |s|
  {
    var nl := IndexOf(s, NL);
    if nl == |s| then [] else [s[..nl]] + Lines(s[nl + 1..])
  }

  /** What follows the last newline. */
  function Tail(s: bytes): (t: bytes)
    ensures NL !in t && |t| <= |s|
    decreases |s|
  {
    var nl := IndexOf(s, NL);
    if nl == |s| then
      assert s[..nl] == s;
      s
    else Tail(s[nl + 1..])
  }

  lemma IndexOfAppend(a: bytes, b: bytes)
    ensures NL in a ==> IndexOf(a + b, NL) == IndexOf(a, NL) < |a|
  {
    hide IndexOf;
    if NL in a {
      var i := IndexOf(a, NL);
      assert a[..|a|] == a;
      assert (a + b)[..i] == a[..i];
      IndexOfUnique(a + b, NL, i);
    }
  }

  lemma NoNewline(a: bytes)
    requires NL !in a
    ensures IndexOf(a, NL) == |a| && Lines(a) == [] && Tail(a) == a
  {
    assert a[..|a|] == a;
    IndexOfUnique(a, NL, |a|);
  }

  lemma PeelLine(a: bytes, b: bytes)
    requires NL in a
    ensures var i := IndexOf(a, NL);
            && i < |a|
            && Lines(a) == [a[..i]] + Lines(a[i + 1..]) && Tail(a) == Tail(a[i + 1..])
            && Lines(a + b) == [a[..i]] + Lines(a[i + 1..] + b) && Tail(a + b) == Tail(a[i + 1..] + b)
  {
    hide IndexOf, Lines, Tail;
    var i := IndexOf(a, NL);
    IndexOfAppend(a, b);
    assert (a + b)[..i] == a[..i] && (a + b)[i + 1..] == a[i + 1..] + b;
    FirstLine(a);
    FirstLine(a + b);
  }

  /** A stream can be split in two pieces if the unfinished line is carried over. */
  lemma {:induction false} SplitInTwo(a: bytes, b: bytes)
    ensures Lines(a + b) == Lines(a) + Lines(Tail(a) + b)
    ensures Tail(a + b) == Tail(Tail(a) + b)
    decreases |a|
  {
    hide IndexOf, Lines, Tail;
    if NL in a {
      PeelLine(a, b);
      var rest := a[IndexOf(a, NL) + 1..];
      SplitInTwo(rest, b);
      Associate([a[..IndexOf(a, NL)]], Lines(rest), Lines(Tail(rest) + b));
    } else {
      NoNewline(a);
      assert [] + Lines(a + b) == Lines(a + b);
    }
  }

  lemma Associate(x: seq<bytes>, y: seq<bytes>, z: seq<bytes>)
    ensures x + (y + z) == x + y + z
  {
  }

  /** Each line followed by `end`. */
  function Sent(lines: seq<bytes>, end: bytes): bytes {
    if lines == [] then [] else lines[0] + end + Sent(lines[1..], end)
  }

  predicate NoNewlines(lines: seq<bytes>) {
    forall l | l in lines :: NL !in l
  }

  /** Splitting loses nothing: the lines with their newlines, and the rest, are the stream. */
  lemma {:induction false} LinesExact(s: bytes)
    ensures NoNewlines(Lines(s)) && NL !in Tail(s) && Sent(Lines(s), [NL]) + Tail(s) == s
    decreases |s|
  {
    hide IndexOf, Lines, Tail;
    if NL in s {
      PeelLine(s, []);
      var i := IndexOf(s, NL);
      LinesExact(s[i + 1..]);
      assert s == s[..i] + [NL] + s[i + 1..];
      assert Lines(s)[1..] == Lines(s[i + 1..]);
    } else {
      NoNewline(s);
    }
  }

  /** Lines sent with newlines are the lines split off, and nothing is left over. */
  lemma {:induction false} LinesOfSent(lines: seq<bytes>)
    requires NoNewlines(lines)
    ensures Lines(Sent(lines, [NL])) == lines && Tail(Sent(lines, [NL])) == []
    decreases |lines|
  {
    hide IndexOf, Lines, Tail;
    if lines == [] {
      NoNewline([]);
    } else {
      var s, n := Sent(lines, [NL]), |lines[0]|;
      assert s == lines[0] + [NL] + Sent(lines[1..], [NL]);
      assert s[..n] == lines[0] && s[n] == NL && s[n + 1..] == Sent(lines[1..], [NL]);
      IndexOfUnique(s, NL, n);
      FirstLine(s);
      LinesOfSent(lines[1..]);
    }
  }

  function Join(chunks: seq<bytes>): bytes {
    if chunks == [] then [] else chunks[0] + Join(chunks[1..])
  }

  // ----- One call of client_handle_read -----

  /** One trailing carriage return is not part of the command. */
  function Clean(line: bytes): bytes {
    if line != [] && line[|line| - 1] == CR then line[..|line| - 1] else line
  }

  /** Exactly one carriage return goes, and only from the end. */
  lemma CleanExact(line: bytes)
    ensures Clean(line + [CR]) == line
    ensures (forall l :: line != l + [CR]) ==> Clean(line) == line
  {
    if line != [] && line[|line| - 1] == CR {
      assert line == line[..|line| - 1] + [CR];
    }
  }

  function CleanAll(lines: seq<bytes>): (r: seq<bytes>)
    ensures |r| == |lines|
  {
    if lines == [] then [] else [Clean(lines[0])] + CleanAll(lines[1..])
  }

  /** The call returns 0: the buffer never filled, and no line was too long. */
  predicate Accepts(held: bytes, arrived: bytes) {
    && |held| + |arrived| < READ_BUF_SIZE
    && (forall l | l in Lines(held + arrived) :: |l| <= MAX_LINE_LEN)
    && |Tail(held + arrived)| < MAX_LINE_LEN
  }

  /** Commands enqueued over a sequence of calls, starting with `held` in the buffer. */
  function Commands(held: bytes, chunks: seq<bytes>): seq<bytes>
    decreases |chunks|
  {
    if chunks == [] then []
    else CleanAll(Lines(held + chunks[0])) + Commands(Tail(held + chunks[0]), chunks[1..])
  }

  predicate AcceptsAll(held: bytes, chunks: seq<bytes>)
    decreases |chunks|
  {
    chunks == [] || (Accepts(held, chunks[0]) && AcceptsAll(Tail(held + chunks[0]), chunks[1..]))
  }

  lemma {:induction false} CleanAllAppend(a: seq<bytes>, b: seq<bytes>)
    ensures CleanAll(a + b) == CleanAll(a) + CleanAll(b)
  {
    hide Clean;
    if a == [] {
      assert a + b == b;
    } else {
      assert (a + b)[1..] == a[1..] + b;
      CleanAllAppend(a[1..], b);
    }
  }

  /** The commands are exactly the stream split at newlines, whatever the chunk boundaries. */
  lemma {:induction false} ChunksDoNotMatter(held: bytes, chunks: seq<bytes>)
    requires NL !in held
    ensures Commands(held, chunks) == CleanAll(Lines(held + Join(chunks)))
    decreases |chunks|
  {
    hide CleanAll;
    if chunks == [] {
      assert held + [] == held;
      NoNewline(held);
      assert CleanAll([]) == [] by { CleanAllNothing(); }
    } else {
      var a, rest := held + chunks[0], Join(chunks[1..]);
      assert held + Join(chunks) == a + rest;
      SplitInTwo(a, rest);
      ChunksDoNotMatter(Tail(a), chunks[1..]);
      CleanAllAppend(Lines(a), Lines(Tail(a) + rest));
    }
  }

  function WithCr(lines: seq<bytes>): (r: seq<bytes>)
    ensures |r| == |lines| && (NoNewlines(lines) ==> NoNewlines(r))
  {
    if lines == [] then [] else [lines[0] + [CR]] + WithCr(lines[1..])
  }

  lemma {:induction false} CleanWithCr(lines: seq<bytes>)
    ensures CleanAll(WithCr(lines)) == lines
    ensures Sent(WithCr(lines), [NL]) == Sent(lines, [CR, NL])
    decreases |lines|
  {
    hide Clean;
    if lines != [] {
      CleanExact(lines[0]);
      CleanWithCr(lines[1..]);
      assert WithCr(lines)[1..] == WithCr(lines[1..]);
      assert lines[0] + [CR] + [NL] == lines[0] + [CR, NL];
    }
  }

  lemma {:induction false} CleanAlready(lines: seq<bytes>)
    requires forall l | l in lines :: l == [] || l[|l| - 1] != CR
    ensures CleanAll(lines) == lines
    decreases |lines|
  {
    if lines != [] {
      CleanAlready(lines[1..]);
    }
  }

  /** Lines sent with CRLF, in any chunks, enqueue exactly those lines, carriage returns of their own
      included; so do lines sent with a newline only if none of them ends in a carriage return. */
  lemma SentLinesEnqueued(lines: seq<bytes>, chunks: seq<bytes>)
    requires NoNewlines(lines)
    ensures Join(chunks) == Sent(lines, [CR, NL]) ==> Commands([], chunks) == lines
    ensures Join(chunks) == Sent(lines, [NL]) && (forall l | l in lines :: l == [] || l[|l| - 1] != CR) ==>
              Commands([], chunks) == lines
  {
    hide Lines, Tail, Clean, Commands, Sent;
    ChunksDoNotMatter([], chunks);
    assert [] + Join(chunks) == Join(chunks);
    CleanWithCr(lines);
    LinesOfSent(WithCr(lines));
    LinesOfSent(lines);
    if forall l | l in lines :: l == [] || l[|l| - 1] != CR {
      CleanAlready(lines);
    }
  }

  lemma CleanAllNothing()
    ensures CleanAll([]) == []
  {
  }

  /** Two arrival patterns of the same bytes give the same commands. */
  lemma ArrivalIndependent(one: seq<bytes>, other: seq<bytes>)
    requires Join(one) == Join(other)
    ensures Commands([], one) == Commands([], other)
  {
    ChunksDoNotMatter([], one);
    ChunksDoNotMatter([], other);
  }

  /** The tail after a prefix is the beginning of the next line, or of the final tail. */
  lemma {:induction false} TailExtends(a: bytes, b: bytes)
    ensures |Tail(a)| <= |Tail(a + b)| || exists l :: l in Lines(a + b) && |Tail(a)| <= |l|
    decreases |a|
  {
    hide IndexOf;
    SplitInTwo(a, b);
    var t := Tail(a);
    if NL in t + b {
      var i := IndexOf(t + b, NL);
      assert t + b == (t + b)[..i] + (t + b)[i..];
      assert i < |t + b| by { assert (t + b)[..|t + b|] == t + b; }
      assert i >= |t| by { assert (t + b)[i] == NL; }
      assert Lines(t + b)[0] == (t + b)[..i];
      assert (t + b)[..i] in Lines(a + b);
    } else {
      NoNewline(t + b);
    }
  }

  /** No call finds the buffer full. */
  predicate NeverFills(held: bytes, chunks: seq<bytes>)
    decreases |chunks|
  {
    chunks == [] || (|held| + |chunks[0]| < READ_BUF_SIZE && NeverFills(Tail(held + chunks[0]), chunks[1..]))
  }

  /** Short lines are never refused as long as no burst fills the buffer. */
  lemma {:induction false} ShortLinesAccepted(held: bytes, chunks: seq<bytes>)
    requires NL !in held
    requires forall l | l in Lines(held + Join(chunks)) :: |l| < MAX_LINE_LEN
    requires |Tail(held + Join(chunks))| < MAX_LINE_LEN
    requires NeverFills(held, chunks)
    ensures AcceptsAll(held, chunks)
    decreases |chunks|
  {
    hide IndexOf, Lines, Tail;
    if chunks != [] {
      var a, rest := held + chunks[0], Join(chunks[1..]);
      assert held + Join(chunks) == a + rest;
      SplitInTwo(a, rest);
      TailExtends(a, rest);
      assert forall l | l in Lines(a) :: l in Lines(a + rest);
      assert forall l | l in Lines(Tail(a) + rest) :: l in Lines(a + rest);
      ShortLinesAccepted(Tail(a), chunks[1..]);
    }
  }

  /** At exactly 8192 bytes the chunks do matter: the line is taken together with its newline, and
      refused when the newline is still to come. */
  lemma LongestLineNeedsItsNewline(line: bytes)
    requires |line| == MAX_LINE_LEN && NL !in line
    ensures AcceptsAll([], [line + [NL]]) && !AcceptsAll([], [line, [NL]])
    ensures Join([line + [NL]]) == Join([line, [NL]])
  {
    var s := line + [NL];
    IndexOfUnique(s, NL, |line|);
    FirstLine(s);
    NoNewline(line);
    NoNewline([]);
    hide IndexOf, Lines, Tail;
    assert s[..|line|] == line && s[|line| + 1..] == [] && [] + s == s && [] + line == line;
    assert Join([line, [NL]]) == line + Join([[NL]]);
  }

  // ----- The buffers in place -----

  /** A fixed array of which the first `len` bytes are unread. */
  class LineBuffer {
    const data: array<byte>
    var len: nat

    ghost predicate Valid()
      reads this
    {
      len <= data.Length
    }

    ghost function Contents(): bytes
      requires Valid()
      reads this, data
    {
      data[..len]
    }

    constructor (size: nat)
      ensures Valid() && fresh(data) && data.Length == size && Contents() == []
    {
      data := new byte[size](_ => 0);
      len := 0;
    }

    /** recv into the free part. */
    method Receive(chunk: bytes)
      requires Valid() && len + |chunk| <= data.Length
      modifies this`len, data
      ensures Valid() && Contents() == old(Contents()) + chunk
    {
      var i := 0;
      while i < |chunk|
        invariant i <= |chunk| && len == old(len)
        invariant data[..len] == old(data[..len])
        invariant data[len..len + i] == chunk[..i]
      {
        data[len + i] := chunk[i];
        assert data[len..len + i + 1] == data[len..len + i] + [chunk[i]];
        i := i + 1;
      }
      assert chunk[..i] == chunk;
      assert data[..len + i] == data[..len] + data[len..len + i];
      len := len + |chunk|;
    }

    /** memchr or strchr for the next newline at or after `from`. */
    method FindNewline(from: nat) returns (nl: nat)
      requires Valid() && from <= len
      ensures nl == from + IndexOf(Contents()[from..], NL)
    {
      hide IndexOf;
      nl := from;
      while nl < len && data[nl] != NL
        invariant from <= nl <= len && NL !in data[from..nl]
      {
        assert data[from..nl + 1] == data[from..nl] + [data[nl]];
        nl := nl + 1;
      }
      assert Contents()[from..][..nl - from] == data[from..nl];
      IndexOfUnique(Contents()[from..], NL, nl - from);
    }

    /** memmove of what is left to the front. */
    method Consume(n: nat)
      requires Valid() && n <= len
      modifies this`len, data
      ensures Valid() && Contents() == old(Contents())[n..]
    {
      var i := 0;
      while i < len - n
        invariant i <= len - n && len == old(len)
        invariant data[..i] == old(data[n..n + i])
        invariant forall k | n + i <= k < len :: data[k] == old(data[k])
      {
        data[i] := data[n + i];
        assert data[..i + 1] == data[..i] + [data[i]];
        i := i + 1;
      }
      len := len - n;
    }
  }

  /** The reading side of a client. */
  class ClientReader {
    const buffer: LineBuffer
    var commands: seq<bytes>        // the cmd_queue_head .. cmd_queue_tail list

    ghost predicate Valid()
      reads this, buffer
    {
      buffer.Valid() && buffer.data.Length == READ_BUF_SIZE
    }

    constructor ()
      ensures Valid() && fresh(buffer) && fresh(buffer.data) && buffer.Contents() == [] && commands == []
    {
      buffer := new LineBuffer(READ_BUF_SIZE);
      commands := [];
    }

    /** client_handle_read for everything the socket delivers before it would block. */
    method HandleRead(arrived: bytes) returns (ok: bool)
      requires Valid()
      modifies this`commands, buffer`len, buffer.data
      ensures Valid()
      ensures ok <==> Accepts(old(buffer.Contents()), arrived)
      ensures ok ==> commands == old(commands) + CleanAll(Lines(old(buffer.Contents()) + arrived))
      ensures ok ==> buffer.Contents() == Tail(old(buffer.Contents()) + arrived)
      ensures ok ==> forall lines | NoNewlines(lines) && Sent(lines, [CR, NL]) == old(buffer.Contents()) + arrived ::
                       commands == old(commands) + lines && buffer.Contents() == []
    {
      hide Lines, Tail, CleanAll, Sent, WithCr;
      forall lines | NoNewlines(lines) && Sent(lines, [CR, NL]) == buffer.Contents() + arrived
        ensures CleanAll(Lines(buffer.Contents() + arrived)) == lines && Tail(buffer.Contents() + arrived) == []
      {
        CleanWithCr(lines);
        LinesOfSent(WithCr(lines));
      }
      if buffer.len + |arrived| >= READ_BUF_SIZE {
        return false;       // the receive loop finds no space left
      }
      buffer.Receive(arrived);
      ok := ExtractLines();
    }

    /** The line loop of client_handle_read. */
    method ExtractLines() returns (ok: bool)
      requires Valid()
      modifies this`commands, buffer`len, buffer.data
      ensures Valid()
      ensures var s := old(buffer.Contents());
              && (ok <==> (forall l | l in Lines(s) :: |l| <= MAX_LINE_LEN) && |Tail(s)| < MAX_LINE_LEN)
              && (ok ==> commands == old(commands) + CleanAll(Lines(s)))
              && (ok ==> buffer.Contents() == Tail(s))
    {
      hide Lines, Tail, CleanAll, Clean, IndexOf;
      ghost var s := buffer.Contents();
      ghost var taken: seq<bytes> := [];
      CleanAllNothing();
      while true
        invariant Valid()
        invariant Lines(s) == taken + Lines(buffer.Contents()) && Tail(s) == Tail(buffer.Contents())
        invariant commands == old(commands) + CleanAll(taken)
        invariant forall l | l in taken :: |l| <= MAX_LINE_LEN
        decreases buffer.len
      {
        var nl := buffer.FindNewline(0);
        ghost var c := buffer.Contents();
        assert c[0..] == c;
        if nl == buffer.len {
          LastPiece(c);
          assert taken + [] == taken;
          ok := buffer.len < MAX_LINE_LEN;
          return;
        }
        FirstLine(c);
        if nl > MAX_LINE_LEN {
          assert c[..nl] in Lines(s);
          return false;
        }
        var line := buffer.data[..nl];
        assert line == c[..nl];
        CleanAllAppend(taken, [line]);
        OneCommand(line);
        buffer.Consume(nl + 1);
        commands := commands + [Clean(line)];
        assert taken + ([line] + Lines(buffer.Contents())) == (taken + [line]) + Lines(buffer.Contents());
        taken := taken + [line];
      }
    }
  }

  lemma FirstLine(c: bytes)
    requires IndexOf(c, NL) < |c|
    ensures var nl := IndexOf(c, NL);
            Lines(c) == [c[..nl]] + Lines(c[nl + 1..]) && Tail(c) == Tail(c[nl + 1..])
  {
    hide IndexOf;
  }

  lemma LastPiece(c: bytes)
    requires IndexOf(c, NL) == |c|
    ensures Lines(c) == [] && Tail(c) == c
  {
    hide IndexOf;
    assert c[..|c|] == c;
  }

  lemma OneCommand(line: bytes)
    ensures CleanAll([line]) == [Clean(line)]
  {
    assert [line][1..] == [];
  }
}
