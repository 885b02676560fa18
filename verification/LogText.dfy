/** The append-only log as text: how records are printed (write_aof_record,
    append_aof_rewrite_buffer) and how replay_aof_log reads them back. */
module LogText {
  import opened Common
  import opened Spec

  datatype Cmd = SET | DELETE | LPUSH | RPOP | SADD | SREM | PEXPIREAT

  /** The argument of a one-argument record is []; PEXPIREAT's is the printed deadline. */
  datatype Rec = Rec(cmd: Cmd, key: bytes, arg: bytes)

  const LINE_BUF: nat := 8192      // char line[8192] of replay_aof_log
  const RECORD_BUF: nat := 4096    // char buf[4096] of write_aof_record

  function Tag(c: Cmd): bytes {
    match c
    case SET => [83, 69, 84]
    case DELETE => [68, 69, 76, 69, 84, 69]
    case LPUSH => [76, 80, 85, 83, 72]
    case RPOP => [82, 80, 79, 80]
    case SADD => [83, 65, 68, 68]
    case SREM => [83, 82, 69, 77]
    case PEXPIREAT => [80, 69, 88, 80, 73, 82, 69, 65, 84]
  }

  predicate HasArg(c: Cmd) {
    c != DELETE && c != RPOP
  }

  function Body(r: Rec): bytes {
    Tag(r.cmd) + [TAB] + r.key + (if HasArg(r.cmd) then [TAB] + r.arg else [])
  }

  /** One record: the tag, its arguments separated by tabs, a newline. */
  function Format(r: Rec): bytes {
    Body(r) + [NL]
  }

  function FormatAll(rs: seq<Rec>): bytes {
    if rs == [] then [] else Format(rs[0]) + FormatAll(rs[1..])
  }

  /** What a value must look like to survive a line-based log. */
  predicate Loggable(v: bytes) {
    CString(v) && NL !in v && (v != [] ==> v[|v| - 1] != CR)
  }

  predicate WellFormed(r: Rec) {
    && ValidKey(r.key)
    && (if HasArg(r.cmd) then Loggable(r.arg) else r.arg == [])
    && |r.arg| <= MAX_VALUE_LEN
  }

  // ----- Decimal numbers: "%PRId64" and strtoll -----

  predicate IsDigit(c: byte) {
    48 <= c <= 57
  }

  function Digits(n: nat): (r: bytes)
    ensures |r| > 0 && forall c | c in r :: IsDigit(c)
  {
    if n < 10 then [48 + n] else Digits(n / 10) + [48 + n % 10]
  }

  function PrintInt(d: int): bytes {
    if d < 0 then [45] + Digits(-d) else Digits(d)
  }

  function DigitValue(c: byte): nat
    requires IsDigit(c)
  {
    var x: int := c;
    x - 48
  }

  /** The number read by accumulating leading digits. */
  function ReadDigits(s: bytes, acc: nat): nat
    decreases |s|
  {
    if s == [] || !IsDigit(s[0]) then acc else ReadDigits(s[1..], acc * 10 + DigitValue(s[0]))
  }

  function SkipSpaces(s: bytes): bytes {
    if s != [] && IsSpace(s[0]) then SkipSpaces(s[1..]) else s
  }

  function Clamp(x: int): int {
    if x < INT64_MIN then INT64_MIN else if x > INT64_MAX then INT64_MAX else x
  }

  /** strtoll(s, NULL, 10): leading blanks, a sign, digits; out of range saturates. */
  function Strtoll(s: bytes): (d: int)
    ensures Int64(d)
  {
    var t := SkipSpaces(s);
    if t != [] && t[0] == 45 then Clamp(0 - ReadDigits(t[1..], 0))
    else if t != [] && t[0] == 43 then Clamp(ReadDigits(t[1..], 0))
    else Clamp(ReadDigits(t, 0))
  }

  lemma {:induction false} ReadDigitsSnoc(s: bytes, c: byte, acc: nat)
    requires forall x | x in s :: IsDigit(x)
    requires IsDigit(c)
    ensures ReadDigits(s + [c], acc) == ReadDigits(s, acc) * 10 + DigitValue(c)
    decreases |s|
  {
    if s == [] {
      assert ([c])[1..] == [];
    } else {
      assert (s + [c])[1..] == s[1..] + [c];
      ReadDigitsSnoc(s[1..], c, acc * 10 + DigitValue(s[0]));
    }
  }

  lemma {:induction false} ReadPrintedDigits(n: nat)
    ensures ReadDigits(Digits(n), 0) == n
  {
    if n < 10 {
      assert Digits(n)[1..] == [];
    } else {
      ReadPrintedDigits(n / 10);
      ReadDigitsSnoc(Digits(n / 10), 48 + n % 10, 0);
    }
  }

  /** Printing a deadline and reading it back gives the deadline. */
  lemma StrtollOfPrinted(d: int)
    requires Int64(d)
    ensures Strtoll(PrintInt(d)) == d
  {
    ReadPrintedDigits(if d < 0 then -d else d);
    assert d < 0 ==> PrintInt(d)[1..] == Digits(-d);
  }

  function Pow10(k: nat): nat {
    if k == 0 then 1 else 10 * Pow10(k - 1)
  }

  lemma {:induction false} DigitsLength(n: nat, k: nat)
    requires k > 0 && n < Pow10(k)
    ensures |Digits(n)| <= k
  {
    if n >= 10 {
      DigitsLength(n / 10, k - 1);
    }
  }

  lemma PrintIntShape(d: int)
    requires Int64(d)
    ensures Loggable(PrintInt(d)) && |PrintInt(d)| <= 20
  {
    var s := PrintInt(d);
    assert forall c | c in s :: c == 45 || IsDigit(c);
    assert Pow10(5) == 100000;
    assert Pow10(10) == 10000000000;
    assert Pow10(15) == 1000000000000000;
    assert Pow10(19) == 10000000000000000000;
    DigitsLength(if d < 0 then -d else d, 19);
  }

  // ----- Reading lines -----

  /** How many bytes fgets takes from a non-empty file. */
  function FgetsLen(file: bytes): (n: nat)
    requires file != []
    ensures 0 < n <= |file|
  {
    var nl := IndexOf(file, NL);
    var n := if nl < |file| then nl + 1 else nl;
    if n < LINE_BUF then n else LINE_BUF - 1
  }

  /** strip_line_endings. */
  function Strip(line: bytes): (r: bytes)
    ensures r <= line
    ensures r != [] ==> r[|r| - 1] != NL && r[|r| - 1] != CR
  {
    if line != [] && (line[|line| - 1] == NL || line[|line| - 1] == CR)
    then Strip(line[..|line| - 1]) else line
  }

  predicate Tagged(line: bytes, c: Cmd) {
    var n := |Tag(c)|;
    |line| > n && line[..n] == Tag(c) && (line[n] == TAB || line[n] == SPACE)
  }

  /** The branch replay_aof_log takes, in its order of tests. */
  function CommandOf(line: bytes): Option<Cmd> {
    if Tagged(line, SET) then Some(SET)
    else if Tagged(line, DELETE) then Some(DELETE)
    else if Tagged(line, LPUSH) then Some(LPUSH)
    else if Tagged(line, RPOP) then Some(RPOP)
    else if Tagged(line, SADD) then Some(SADD)
    else if Tagged(line, SREM) then Some(SREM)
    else if Tagged(line, PEXPIREAT) then Some(PEXPIREAT)
    else None
  }

  /** Splits the arguments at the delimiter that followed the tag. */
  function ParseArgs(line: bytes, c: Cmd): Option<Rec>
    requires Tagged(line, c)
  {
    var n := |Tag(c)|;
    var rest := line[n + 1..];
    var sep := IndexOf(rest, line[n]);
    if HasArg(c) then
      if sep == |rest| then None else Some(Rec(c, rest[..sep], rest[sep + 1..]))
    else Some(Rec(c, rest[..sep], []))
  }

  function ParseLine(line: bytes): Option<Rec> {
    match CommandOf(line)
    case None => None
    case Some(c) => ParseArgs(line, c)
  }

  function ReplayEnv(now: int): Env {
    Env(now, now, true, true, true, true)
  }

  /** What replay does with one parsed record. */
  function ApplyRec(m: Items, cap: nat, r: Rec, now: int): Items {
    if ValidateKey(r.key) != Ok || (HasArg(r.cmd) && r.cmd != PEXPIREAT && ValidateValue(r.arg) != Ok)
    then m
    else
      var env := ReplayEnv(now);
      match r.cmd
      case SET => SetInternal(m, cap, r.key, r.arg, true).items
      case DELETE => DeleteInternal(m, r.key).items
      case LPUSH => LPush(m, cap, r.key, r.arg, env).items
      case RPOP => RPop(m, r.key, env).items
      case SADD => SAdd(m, cap, r.key, r.arg, env).items
      case SREM => SRem(m, r.key, r.arg, env).items
      case PEXPIREAT =>
        if r.key in m then m[r.key := m[r.key].(deadline := Strtoll(r.arg))] else m
  }

  function ApplyLine(m: Items, cap: nat, line: bytes, now: int): Items {
    match ParseLine(Strip(CStr(line)))
    case None => m
    case Some(r) => ApplyRec(m, cap, r, now)
  }

  /** replay_aof_log into a store holding `m`. */
  function Replay(m: Items, cap: nat, file: bytes, now: int): Items
    decreases |file|
  {
    if file == [] then m
    else
      var n := FgetsLen(file);
      Replay(ApplyLine(m, cap, file[..n], now), cap, file[n..], now)
  }

  predicate WholeLines(file: bytes) {
    file != [] ==> file[|file| - 1] == NL
  }

  function ReplayRecs(m: Items, cap: nat, rs: seq<Rec>, now: int): Items
    decreases |rs|
  {
    if rs == [] then m else ReplayRecs(ApplyRec(m, cap, rs[0], now), cap, rs[1..], now)
  }

  // ----- Printed records parse back -----

  lemma {:induction false} StripLine(b: bytes)
    requires b != [] ==> b[|b| - 1] != NL && b[|b| - 1] != CR
    ensures Strip(b + [NL]) == b
  {
    assert (b + [NL])[..|b|] == b;
  }

  lemma CommandOfBody(r: Rec)
    ensures CommandOf(Body(r)) == Some(r.cmd)
  {
    var b := Body(r);
    var n := |Tag(r.cmd)|;
    assert b[..n] == Tag(r.cmd) && b[n] == TAB;
    assert b[0] == Tag(r.cmd)[0] && b[1] == Tag(r.cmd)[1];
    forall c: Cmd | Tagged(b, c)
      ensures c == r.cmd
    {
      assert b[..|Tag(c)|][0] == Tag(c)[0] && b[..|Tag(c)|][1] == Tag(c)[1];
    }
  }

  lemma ParseBody(r: Rec)
    requires WellFormed(r)
    ensures ParseLine(Body(r)) == Some(r)
  {
    hide CommandOf, IndexOf, Tag, ValidateKey;
    CommandOfBody(r);
    var n := |Tag(r.cmd)|;
    var tail := r.key + (if HasArg(r.cmd) then [TAB] + r.arg else []);
    assert Body(r)[n] == TAB && Body(r)[..n] == Tag(r.cmd) && Body(r)[n + 1..] == tail;
    assert tail[..|r.key|] == r.key;
    KeyHasNoSpace(r.key);
    IndexOfUnique(tail, TAB, |r.key|);
    if HasArg(r.cmd) {
      assert tail[|r.key| + 1..] == r.arg;
    }
  }

  lemma KeyHasNoSpace(key: bytes)
    requires ValidKey(key)
    ensures TAB !in key && NL !in key && SPACE !in key && CR !in key && key != []
  {
  }

  lemma BodyShape(r: Rec)
    requires WellFormed(r)
    ensures CString(Body(r)) && NL !in Body(r)
    ensures Body(r)[|Body(r)| - 1] != CR
    ensures |Format(r)| < LINE_BUF
  {
    var b := Body(r);
    if HasArg(r.cmd) {
      assert b[|b| - 1] == (if r.arg == [] then TAB else r.arg[|r.arg| - 1]);
    } else {
      assert b[|b| - 1] == r.key[|r.key| - 1] && r.key[|r.key| - 1] in r.key;
    }
  }

  /** What replay does with a line that is already stripped. */
  function ApplyText(m: Items, cap: nat, b: bytes, now: int): Items {
    match ParseLine(b)
    case None => m
    case Some(r) => ApplyRec(m, cap, r, now)
  }

  /** A line that fgets takes whole and strip_line_endings leaves alone. */
  predicate PlainLine(b: bytes) {
    CString(b) && NL !in b && (b != [] ==> b[|b| - 1] != CR) && |b| + 1 < LINE_BUF
  }

  /** Replay consumes exactly one such line. */
  lemma ReplayLine(m: Items, cap: nat, b: bytes, rest: bytes, now: int)
    requires PlainLine(b)
    ensures Replay(m, cap, b + [NL] + rest, now) == Replay(ApplyText(m, cap, b, now), cap, rest, now)
  {
    hide ApplyRec, ParseLine, IndexOf;
    var f := b + [NL] + rest;
    assert f[..|b|] == b && f[|b|] == NL;
    IndexOfUnique(f, NL, |b|);
    assert f[..|b| + 1] == b + [NL] && f[|b| + 1..] == rest;
    assert b != [] ==> b[|b| - 1] in b;
    StripLine(b);
    assert CStr(b + [NL]) == b + [NL];
  }

  /** Replay consumes exactly one printed record and applies it. */
  lemma ReplayOne(m: Items, cap: nat, r: Rec, rest: bytes, now: int)
    requires WellFormed(r)
    ensures Replay(m, cap, Format(r) + rest, now) == Replay(ApplyRec(m, cap, r, now), cap, rest, now)
  {
    hide ApplyRec, ParseLine, Body, Replay;
    BodyShape(r);
    ParseBody(r);
    ReplayLine(m, cap, Body(r), rest, now);
  }

  lemma {:induction false} ReplayFormatAll(m: Items, cap: nat, rs: seq<Rec>, now: int)
    requires forall r | r in rs :: WellFormed(r)
    ensures Replay(m, cap, FormatAll(rs), now) == ReplayRecs(m, cap, rs, now)
    decreases |rs|
  {
    if rs != [] {
      ReplayOne(m, cap, rs[0], FormatAll(rs[1..]), now);
      ReplayFormatAll(ApplyRec(m, cap, rs[0], now), cap, rs[1..], now);
    }
  }

  /** A file of whole lines can be replayed in two pieces, whatever its lines hold. */
  lemma {:induction false} ReplayAppend(m: Items, cap: nat, a: bytes, b: bytes, now: int)
    requires WholeLines(a)
    ensures Replay(m, cap, a + b, now) == Replay(Replay(m, cap, a, now), cap, b, now)
    decreases |a|
  {
    hide ApplyLine, FgetsLen;
    if a == [] {
      assert a + b == b;
    } else {
      FirstLineAppend(a, b);
      var n := FgetsLen(a);
      assert (a + b)[..n] == a[..n] && (a + b)[n..] == a[n..] + b;
      ReplayAppend(ApplyLine(m, cap, a[..n], now), cap, a[n..], b, now);
    }
  }

  /** What follows a file of whole lines does not change its first line. */
  lemma FirstLineAppend(a: bytes, b: bytes)
    requires WholeLines(a) && a != []
    ensures FgetsLen(a + b) == FgetsLen(a) && WholeLines(a[FgetsLen(a)..])
  {
    hide IndexOf;
    var nl := IndexOf(a, NL);
    assert nl < |a| by { assert a[|a| - 1] in a; assert a[..|a|] == a; }
    assert (a + b)[..nl] == a[..nl];
    IndexOfUnique(a + b, NL, nl);
  }

  lemma {:induction false} FormatAllWhole(rs: seq<Rec>)
    ensures WholeLines(FormatAll(rs))
  {
    if rs != [] {
      FormatAllWhole(rs[1..]);
    }
  }

  lemma {:induction false} FormatAllAppend(rs: seq<Rec>, ts: seq<Rec>)
    ensures FormatAll(rs + ts) == FormatAll(rs) + FormatAll(ts)
  {
    if rs == [] {
      assert rs + ts == ts;
    } else {
      assert (rs + ts)[1..] == rs[1..] + ts;
      FormatAllAppend(rs[1..], ts);
    }
  }

  // ----- What replay can never produce -----

  /** Values that came out of a log: storable, loggable, and no empty container. */
  predicate Replayed(k: bytes, it: Item) {
    && Storable(k, it)
    && match it.value
       case Str(s) => Loggable(s)
       case List(items) => items != [] && forall v | v in items :: Loggable(v)
       case Set(members) => members != {} && forall v | v in members :: Loggable(v)
  }

  predicate AllReplayed(m: Items) {
    forall k | k in m :: Replayed(k, m[k])
  }

  lemma ParsedParts(line: bytes, r: Rec)
    requires ParseLine(line) == Some(r)
    ensures forall c | c in r.key :: c in line
    ensures forall c | c in r.arg :: c in line
    ensures line != [] && (r.arg != [] ==> r.arg[|r.arg| - 1] == line[|line| - 1])
  {
    hide Tag, IndexOf;
    ParsedIsTagged(line);
    var c := CommandOf(line).value;
    hide CommandOf;
    assert ParseArgs(line, c) == Some(r);
    var rest := line[|Tag(c)| + 1..];
    assert forall x | x in rest :: x in line;
  }

  lemma ParsedIsTagged(line: bytes)
    ensures CommandOf(line).Some? ==> Tagged(line, CommandOf(line).value)
  {
    hide Tagged;
  }

  lemma LineIsCString(chunk: bytes)
    ensures CString(Strip(CStr(chunk)))
  {
    var line := Strip(CStr(chunk));
    assert forall c | c in line :: c in CStr(chunk);
  }

  lemma ParsedArgLoggable(chunk: bytes, r: Rec)
    requires chunk != [] && NL !in chunk[..|chunk| - 1]
    requires ParseLine(Strip(CStr(chunk))) == Some(r)
    ensures CString(r.key) && Loggable(r.arg)
  {
    hide ParseLine;
    var line := Strip(CStr(chunk));
    ParsedParts(line, r);
    forall i | 0 <= i < |line|
      ensures line[i] != NL
    {
      assert i < |chunk| - 1 ==> line[i] == chunk[..|chunk| - 1][i];
    }
    assert forall c | c in line :: c in CStr(chunk);
  }

  lemma LPushReplayed(m: Items, cap: nat, key: bytes, val: bytes, env: Env)
    requires AllReplayed(m) && env.nodeOk && CString(key) && Loggable(val)
    ensures AllReplayed(LPush(m, cap, key, val, env).items)
  {
  }

  lemma RPopReplayed(m: Items, key: bytes, env: Env)
    requires AllReplayed(m)
    ensures AllReplayed(RPop(m, key, env).items)
  {
  }

  lemma SAddReplayed(m: Items, cap: nat, key: bytes, val: bytes, env: Env)
    requires AllReplayed(m) && env.nodeOk && CString(key) && Loggable(val)
    ensures AllReplayed(SAdd(m, cap, key, val, env).items)
  {
  }

  lemma SRemReplayed(m: Items, key: bytes, val: bytes, env: Env)
    requires AllReplayed(m)
    ensures AllReplayed(SRem(m, key, val, env).items)
  {
  }

  lemma ApplyRecReplayed(m: Items, cap: nat, r: Rec, now: int)
    requires AllReplayed(m)
    requires CString(r.key) && Loggable(r.arg)
    ensures AllReplayed(ApplyRec(m, cap, r, now))
  {
    hide LPush, RPop, SAdd, SRem, Strtoll;
    var env := ReplayEnv(now);
    match r.cmd {
      case LPUSH => LPushReplayed(m, cap, r.key, r.arg, env);
      case RPOP => RPopReplayed(m, r.key, env);
      case SADD => SAddReplayed(m, cap, r.key, r.arg, env);
      case SREM => SRemReplayed(m, r.key, r.arg, env);
      case _ =>
    }
  }

  /** Whatever the file holds, replay yields only loggable values and no empty list or set. */
  lemma {:induction false} ReplayReplayed(m: Items, cap: nat, file: bytes, now: int)
    requires AllReplayed(m)
    ensures AllReplayed(Replay(m, cap, file, now))
    decreases |file|
  {
    hide ApplyRec, ParseLine, Replayed;
    if file != [] {
      var n := FgetsLen(file);
      var chunk := file[..n];
      assert NL !in chunk[..n - 1] by {
        assert chunk[..n - 1] == file[..IndexOf(file, NL)][..n - 1];
      }
      match ParseLine(Strip(CStr(chunk))) {
        case None =>
        case Some(r) =>
          ParsedArgLoggable(chunk, r);
          ApplyRecReplayed(m, cap, r, now);
      }
      ReplayReplayed(ApplyLine(m, cap, chunk, now), cap, file[n..], now);
    }
  }
}
