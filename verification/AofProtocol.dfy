/**
 * The append-only file format and its loader (aof.c).
 *
 * A log is a sequence of records: commands in the Redis protocol and "#" annotation lines.
 */
module AofProtocol {
  import opened Wrappers
  import opened Words
  import opened Decimal

  type Command = seq<Bytes>

  datatype Record = Annotation(text: Bytes) | Write(argv: Command)

  const LINE_MAX: nat := 1023   // sizeof(buf) - 1 with AOF_ANNOTATION_LINE_MAX_LEN == 1024
  const STAR: Byte := 42
  const DOLLAR: Byte := 36
  const HASH: Byte := 35
  const CRLF: Bytes := [CR, LF]

  // ----- Writing -----

  function EncodeArg(a: Bytes): (s: Bytes) {
    [DOLLAR] + Dec(|a|) + CRLF + a + CRLF
  }

  function EncodeArgs(argv: Command): (s: Bytes) {
    if argv == [] then [] else EncodeArg(argv[0]) + EncodeArgs(argv[1..])
  }

  /** catAppendOnlyGenericCommand on an empty destination. */
  function EncodeCommand(argv: Command): (s: Bytes)
    ensures |s| >= 4
  {
    [STAR] + Dec(|argv|) + CRLF + EncodeArgs(argv)
  }

  function EncodeRecord(r: Record): (s: Bytes)
    ensures |s| >= 1
  {
    match r
    case Annotation(text) => [HASH] + text + CRLF
    case Write(argv) => EncodeCommand(argv)
  }

  function Encode(log: seq<Record>): (s: Bytes) {
    if log == [] then [] else EncodeRecord(log[0]) + Encode(log[1..])
  }

  /** What the server can write: an int number of arguments, size_t lengths, short annotations. */
  predicate WellFormed(r: Record) {
    match r
    case Annotation(text) => |text| <= 1000 && forall i :: 0 <= i < |text| ==> text[i] != LF
    case Write(argv) =>
      && 1 <= |argv| < 0x8000_0000
      && forall i :: 0 <= i < |argv| ==> |argv[i]| < 0x8000_0000_0000_0000
  }

  predicate WellFormedLog(log: seq<Record>) {
    forall i :: 0 <= i < |log| ==> WellFormed(log[i])
  }

  // ----- Reading one command -----

  /** ShortRead: the file ended. Unreadable: a read error with the end of file not reached. */
  datatype Parse<T> = Parsed(value: T, rest: Bytes) | ShortRead | BadFormat | Unreadable | OutOfMemory

  function ReadArg(s: Bytes): (p: Parse<Bytes>)
    ensures p.Parsed? ==> |p.rest| < |s|
  {
    if s == [] then ShortRead
    else
      var n := LineLength(s, LINE_MAX);
      if s[0] != DOLLAR then BadFormat
      else
        var len := Atoi(s[1..n]);
        var body := s[n..];
        if len < 0 then OutOfMemory
        else if |body| < len + 2 then ShortRead
        else Parsed(body[..len], body[len + 2..])
  }

  function ReadArgs(s: Bytes, argc: nat): (p: Parse<Command>)
    ensures p.Parsed? ==> |p.value| == argc && |p.rest| <= |s|
  {
    if argc == 0 then Parsed([], s)
    else match ReadArg(s)
      case Parsed(a, rest) =>
        (match ReadArgs(rest, argc - 1)
         case Parsed(more, rest') => Parsed([a] + more, rest')
         case ShortRead => ShortRead
         case BadFormat => BadFormat
         case Unreadable => Unreadable
         case OutOfMemory => OutOfMemory)
      case ShortRead => ShortRead
      case BadFormat => BadFormat
      case Unreadable => Unreadable
      case OutOfMemory => OutOfMemory
  }

  /** Whether the last fgets call ran into the end of the file. */
  predicate HitEnd(s: Bytes, n: nat)
    requires 1 <= n <= |s|
  {
    n == |s| && n < LINE_MAX && s[n - 1] != LF
  }

  /** One command, the next bytes not being an annotation. */
  function ReadCommand(s: Bytes): (p: Parse<Command>)
    requires s != []
    ensures p.Parsed? ==> |p.rest| < |s|
  {
    var n := LineLength(s, LINE_MAX);
    if s[0] != STAR then BadFormat
    else if n == 1 || s[1] == 0 then if HitEnd(s, n) then ShortRead else Unreadable
    else
      var argc := Atoi(s[1..n]);
      if argc < 1 then BadFormat else ReadArgs(s[n..], argc)
  }

  // ----- Whole and cut arguments -----

  lemma HeaderLine(tag: Byte, n: nat, t: Bytes)
    requires tag != LF && n < Pow10(20)
    ensures LineLength([tag] + Dec(n) + CRLF + t, LINE_MAX) == |Dec(n)| + 3
    ensures ([tag] + Dec(n) + CRLF + t)[1..|Dec(n)| + 3] == Dec(n) + CRLF
    ensures Atoi(Dec(n) + CRLF) == n
  {
    hide Dec, Atoi, LineLength, Pow10;
    DecShape(n);
    DecLength(n, 20);
    var line: Bytes := [tag] + Dec(n) + [CR];
    WholeLine(line, t, LINE_MAX);
    assert line + [LF] + t == [tag] + Dec(n) + CRLF + t;
    AtoiOfDec(n, CRLF);
  }

  lemma Pow10Of20()
    ensures Pow10(20) == 100_000_000_000_000_000_000
  {
    assert Pow10(5) == 100_000;
    assert Pow10(10) == 100_000 * Pow10(5);
    assert Pow10(15) == 100_000 * Pow10(10);
    assert Pow10(20) == 100_000 * Pow10(15);
  }

  lemma ReadWholeArg(a: Bytes, t: Bytes)
    requires |a| < 0x8000_0000_0000_0000
    ensures ReadArg(EncodeArg(a) + t) == Parsed(a, t)
  {
    hide Dec, Atoi, LineLength, Pow10;
    Pow10Of20();
    var tail := a + CRLF + t;
    var s := EncodeArg(a) + t;
    assert s == [DOLLAR] + Dec(|a|) + CRLF + tail;
    HeaderLine(DOLLAR, |a|, tail);
    assert s[|Dec(|a|)| + 3..] == tail;
    assert tail[..|a|] == a && tail[|a| + 2..] == t;
  }

  /** The header line of a file that ends inside it. */
  lemma CutHeader(tag: Byte, n: nat, k: nat)
    requires tag != LF && n < Pow10(20) && 1 <= k < |Dec(n)| + 3
    ensures LineLength(([tag] + Dec(n) + CRLF)[..k], LINE_MAX) == k
    ensures k >= 2 ==> Atoi(([tag] + Dec(n) + CRLF)[1..k]) >= (if n >= 1 then 1 else 0)
    ensures Atoi(([tag] + Dec(n) + CRLF)[1..k]) >= 0
  {
    hide Dec, Atoi, LineLength, Pow10;
    var h: Bytes := [tag] + Dec(n) + CRLF;
    DecShape(n);
    DecLength(n, 20);
    assert forall i :: 0 <= i < k ==> h[i] != LF;
    CutLine(h[..k], LINE_MAX);
    if k <= |Dec(n)| + 1 {
      assert h[1..k] == Dec(n)[..k - 1];
      AtoiOfCutDec(n, k - 1);
    } else {
      assert h[1..k] == Dec(n) + [CR];
      AtoiOfDec(n, [CR]);
    }
  }

  lemma ReadCutArg(a: Bytes, k: nat)
    requires |a| < 0x8000_0000_0000_0000
    requires k < |EncodeArg(a)|
    ensures ReadArg(EncodeArg(a)[..k]) == ShortRead
  {
    hide Dec, Atoi, LineLength, Pow10;
    Pow10Of20();
    var h: Bytes := [DOLLAR] + Dec(|a|) + CRLF;
    var s := EncodeArg(a)[..k];
    assert EncodeArg(a) == h + (a + CRLF);
    if k == 0 {
    } else if k < |h| {
      assert s == h[..k];
      CutHeader(DOLLAR, |a|, k);
      assert s[1..k] == h[1..k];
    } else {
      var t := (a + CRLF)[..k - |h|];
      assert s == h + t;
      HeaderLine(DOLLAR, |a|, t);
      assert s[|h|..] == t;
    }
  }

  lemma {:induction false} ReadWholeArgs(argv: Command, t: Bytes)
    requires forall i :: 0 <= i < |argv| ==> |argv[i]| < 0x8000_0000_0000_0000
    ensures ReadArgs(EncodeArgs(argv) + t, |argv|) == Parsed(argv, t)
  {
    hide EncodeArg, ReadArg;
    if argv == [] {
      assert EncodeArgs(argv) + t == t;
    } else {
      assert EncodeArgs(argv) + t == EncodeArg(argv[0]) + (EncodeArgs(argv[1..]) + t);
      ReadWholeArg(argv[0], EncodeArgs(argv[1..]) + t);
      ReadWholeArgs(argv[1..], t);
      assert [argv[0]] + argv[1..] == argv;
    }
  }

  lemma {:induction false} ReadCutArgs(argv: Command, k: nat)
    requires forall i :: 0 <= i < |argv| ==> |argv[i]| < 0x8000_0000_0000_0000
    requires k < |EncodeArgs(argv)|
    ensures ReadArgs(EncodeArgs(argv)[..k], |argv|) == ShortRead
  {
    hide EncodeArg, ReadArg;
    var first := EncodeArg(argv[0]);
    if k < |first| {
      assert EncodeArgs(argv)[..k] == first[..k];
      ReadCutArg(argv[0], k);
    } else {
      var rest := EncodeArgs(argv[1..])[..k - |first|];
      assert EncodeArgs(argv)[..k] == first + rest;
      ReadWholeArg(argv[0], rest);
      ReadCutArgs(argv[1..], k - |first|);
    }
  }

  lemma ReadWholeCommand(argv: Command, t: Bytes)
    requires WellFormed(Write(argv))
    ensures ReadCommand(EncodeCommand(argv) + t) == Parsed(argv, t)
  {
    hide Dec, Atoi, LineLength, Pow10;
    Pow10Of20();
    var tail := EncodeArgs(argv) + t;
    var s := EncodeCommand(argv) + t;
    DecShape(|argv|);
    assert s == [STAR] + Dec(|argv|) + CRLF + tail;
    HeaderLine(STAR, |argv|, tail);
    assert s[|Dec(|argv|)| + 3..] == tail;
    hide EncodeArgs, ReadArgs;
    ReadWholeArgs(argv, t);
  }

  lemma ReadCutCommand(argv: Command, k: nat)
    requires WellFormed(Write(argv))
    requires 1 <= k < |EncodeCommand(argv)|
    ensures ReadCommand(EncodeCommand(argv)[..k]) == ShortRead
  {
    hide Dec, Atoi, LineLength, Pow10;
    Pow10Of20();
    var h: Bytes := [STAR] + Dec(|argv|) + CRLF;
    var s := EncodeCommand(argv)[..k];
    DecShape(|argv|);
    DecLength(|argv|, 20);
    hide EncodeArgs, ReadArgs;
    if k < |h| {
      assert s == h[..k];
      CutHeader(STAR, |argv|, k);
      assert s[1..k] == h[1..k];
      CutArgsEmpty(Atoi(s[1..k]));
    } else {
      var t := EncodeArgs(argv)[..k - |h|];
      assert s == h + t;
      HeaderLine(STAR, |argv|, t);
      assert s[|h|..] == t;
      ReadCutArgs(argv, k - |h|);
    }
  }

  lemma CutArgsEmpty(argc: int)
    ensures argc >= 1 ==> ReadArgs([], argc) == ShortRead
  {}

  // ----- Loading a file -----

  /** validUpTo, beforeMulti: file offsets; queue: the commands of an open MULTI. */
  datatype LoadState = LoadState(executed: seq<Command>, queue: Option<seq<Command>>,
                                 validUpTo: nat, beforeMulti: nat)

  const START := LoadState([], None, 0, 0)

  const MULTI: Bytes := [109, 117, 108, 116, 105]
  const EXEC: Bytes := [101, 120, 101, 99]

  predicate IsMulti(argv: Command) { argv != [] && Lower(argv[0]) == MULTI }
  predicate IsExec(argv: Command) { argv != [] && Lower(argv[0]) == EXEC }

  /**
   * One command of the file, ending at offset `end`, run by the fake client. MULTI inside a
   * transaction and EXEC outside one only reply an error, which this client drops; the first is
   * therefore not kept in the queue.
   */
  function Run(st: LoadState, argv: Command, end: nat): (r: LoadState) {
    var before := if IsMulti(argv) then st.validUpTo else st.beforeMulti;
    if st.queue.Some? && !IsExec(argv) then
      LoadState(st.executed, Some(if IsMulti(argv) then st.queue.value else st.queue.value + [argv]), end, before)
    else if st.queue.Some? then
      LoadState(st.executed + st.queue.value, None, end, before)
    else if IsMulti(argv) then
      LoadState(st.executed, Some([]), end, before)
    else if IsExec(argv) then
      LoadState(st.executed, None, end, before)
    else
      LoadState(st.executed + [argv], None, end, before)
  }

  datatype Status = Loaded | Empty | Truncated | Failed | Rdb

  /** size: the length of the file after loading. */
  datatype LoadResult = LoadResult(status: Status, executed: seq<Command>, size: nat)

  function UnexpectedEnd(st: LoadState, size: nat, validUpTo: nat, allowTruncated: bool): (r: LoadResult) {
    if allowTruncated then LoadResult(Truncated, st.executed, validUpTo)
    else LoadResult(Failed, st.executed, size)
  }

  /** The loop of loadSingleAppendOnlyFile from offset `pos` on. */
  function LoadFrom(f: Bytes, pos: nat, st: LoadState, known: Command -> bool, allowTruncated: bool)
    : (r: LoadResult)
    requires pos <= |f|
    decreases |f| - pos
  {
    if pos == |f| then
      if st.queue.Some? then UnexpectedEnd(st, |f|, st.beforeMulti, allowTruncated)
      else LoadResult(Loaded, st.executed, |f|)
    else if f[pos] == HASH then
      LoadFrom(f, pos + LineLength(f[pos..], LINE_MAX), st, known, allowTruncated)
    else match ReadCommand(f[pos..])
      case Parsed(argv, rest) =>
        if known(argv) then
          LoadFrom(f, |f| - |rest|, Run(st, argv, |f| - |rest|), known, allowTruncated)
        else LoadResult(Failed, st.executed, |f|)
      case ShortRead => UnexpectedEnd(st, |f|, st.validUpTo, allowTruncated)
      case _ => LoadResult(Failed, st.executed, |f|)
  }

  const REDIS: Bytes := [82, 69, 68, 73, 83]

  function Load(f: Bytes, known: Command -> bool, allowTruncated: bool): (r: LoadResult) {
    if f == [] then LoadResult(Empty, [], 0)
    else if REDIS <= f then LoadResult(Rdb, [], |f|)
    else LoadFrom(f, 0, START, known, allowTruncated)
  }

  // ----- What a log means, record by record -----

  function StateAfter(log: seq<Record>): (st: LoadState) {
    if log == [] then START
    else
      var n := |log| - 1;
      match log[n]
      case Annotation(_) => StateAfter(log[..n])
      case Write(argv) => Run(StateAfter(log[..n]), argv, |Encode(log)|)
  }

  predicate Known(log: seq<Record>, known: Command -> bool) {
    forall i :: 0 <= i < |log| && log[i].Write? ==> known(log[i].argv)
  }

  lemma {:induction false} EncodeAppend(l: seq<Record>, m: seq<Record>)
    ensures Encode(l + m) == Encode(l) + Encode(m)
  {
    hide EncodeRecord;
    if l == [] {
      assert l + m == m;
    } else {
      assert (l + m)[1..] == l[1..] + m;
      EncodeAppend(l[1..], m);
    }
  }

  /** Loading reaches the end of record `i` in the state `StateAfter(log[..i])`. */
  lemma {:induction false} ReachRecord(log: seq<Record>, i: nat, t: Bytes, known: Command -> bool, allow: bool)
    requires WellFormedLog(log) && Known(log, known) && i <= |log|
    ensures |Encode(log[..i])| <= |Encode(log[..i]) + t|
    ensures LoadFrom(Encode(log[..i]) + t, 0, START, known, allow) ==
            LoadFrom(Encode(log[..i]) + t, |Encode(log[..i])|, StateAfter(log[..i]), known, allow)
  {
    hide LoadFrom, Run, EncodeRecord;
    if i == 0 {
      assert log[..0] == [];
    } else {
      var pre, r := log[..i - 1], log[i - 1];
      assert log[..i] == pre + [r] && log[..i][..i - 1] == pre;
      EncodeAppend(pre, [r]);
      assert Encode([r]) == EncodeRecord(r) + Encode([r][1..]) == EncodeRecord(r);
      var f := Encode(log[..i]) + t;
      assert f == Encode(pre) + (EncodeRecord(r) + t);
      assert f[|Encode(pre)|..] == EncodeRecord(r) + t;
      ReachRecord(log, i - 1, EncodeRecord(r) + t, known, allow);
      PassRecord(f, |Encode(pre)|, StateAfter(pre), r, t, known, allow);
    }
  }

  lemma StepAnnotation(f: Bytes, pos: nat, st: LoadState, known: Command -> bool, allow: bool)
    requires pos < |f| && f[pos] == HASH
    ensures LoadFrom(f, pos, st, known, allow) ==
            LoadFrom(f, pos + LineLength(f[pos..], LINE_MAX), st, known, allow)
  {
    hide LineLength, ReadCommand, Run, UnexpectedEnd;
  }

  lemma StepCommand(f: Bytes, pos: nat, st: LoadState, argv: Command, t: Bytes, known: Command -> bool, allow: bool)
    requires pos < |f| && f[pos] != HASH && known(argv) && |t| < |f| - pos
    requires ReadCommand(f[pos..]) == Parsed(argv, t)
    ensures LoadFrom(f, pos, st, known, allow) ==
            LoadFrom(f, |f| - |t|, Run(st, argv, |f| - |t|), known, allow)
  {
    hide LineLength, ReadCommand, Run, UnexpectedEnd;
  }

  lemma PassAnnotation(f: Bytes, pos: nat, st: LoadState, text: Bytes, t: Bytes, known: Command -> bool, allow: bool)
    requires pos <= |f| && f[pos..] == [HASH] + text + CRLF + t
    requires WellFormed(Annotation(text))
    ensures LoadFrom(f, pos, st, known, allow) == LoadFrom(f, pos + |text| + 3, st, known, allow)
  {
    hide LoadFrom, LineLength;
    var s := f[pos..];
    assert f[pos] == s[0];
    var line: Bytes := [HASH] + text + [CR];
    WholeLine(line, t, LINE_MAX);
    assert s == line + [LF] + t;
    StepAnnotation(f, pos, st, known, allow);
  }

  lemma StartsWithStar(argv: Command)
    ensures EncodeCommand(argv)[0] == STAR
  {}

  lemma PassCommand(f: Bytes, pos: nat, st: LoadState, argv: Command, t: Bytes, known: Command -> bool, allow: bool)
    requires pos <= |f| && f[pos..] == EncodeCommand(argv) + t
    requires WellFormed(Write(argv)) && known(argv)
    ensures LoadFrom(f, pos, st, known, allow) ==
            LoadFrom(f, pos + |EncodeCommand(argv)|, Run(st, argv, pos + |EncodeCommand(argv)|), known, allow)
  {
    hide LoadFrom, ReadCommand, Run, WellFormed, EncodeCommand, Dec;
    StartsWithStar(argv);
    assert f[pos] == f[pos..][0] == STAR;
    ReadWholeCommand(argv, t);
    assert |f| - |t| == pos + |EncodeCommand(argv)|;
    StepCommand(f, pos, st, argv, t, known, allow);
  }

  /** One whole record is consumed exactly. */
  lemma PassRecord(f: Bytes, pos: nat, st: LoadState, r: Record, t: Bytes, known: Command -> bool, allow: bool)
    requires pos <= |f| && f[pos..] == EncodeRecord(r) + t
    requires WellFormed(r) && (r.Write? ==> known(r.argv))
    ensures LoadFrom(f, pos, st, known, allow) ==
            LoadFrom(f, pos + |EncodeRecord(r)|,
              if r.Write? then Run(st, r.argv, pos + |EncodeRecord(r)|) else st, known, allow)
  {
    hide LoadFrom, Run, EncodeCommand, WellFormed;
    match r
    case Annotation(text) => PassAnnotation(f, pos, st, text, t, known, allow);
    case Write(argv) => PassCommand(f, pos, st, argv, t, known, allow);
  }

  lemma FirstOf(log: seq<Record>, k: nat)
    requires k < |log|
    ensures Encode(log[..k + 1]) == EncodeRecord(log[0]) + Encode(log[1..][..k])
  {
    hide EncodeRecord;
    assert log[..k + 1][1..] == log[1..][..k];
  }

  /** The number of records of `log` wholly inside the first `n` bytes of its encoding. */
  function Whole(log: seq<Record>, n: nat): (k: nat)
    requires n <= |Encode(log)|
    ensures k <= |log| && |Encode(log[..k])| <= n
    ensures k < |log| ==> n < |Encode(log[..k])| + |EncodeRecord(log[k])|
  {
    if log == [] then 0
    else if n < |EncodeRecord(log[0])| then 0
    else
      var k := Whole(log[1..], n - |EncodeRecord(log[0])|);
      FirstOf(log, k);
      k + 1
  }

  // ----- Cutting a log at any byte -----

  lemma {:induction false} SplitAt(log: seq<Record>, n: nat)
    requires n <= |Encode(log)|
    ensures var k := Whole(log, n);
            Encode(log)[..n] ==
              Encode(log[..k]) + (if k == |log| then [] else EncodeRecord(log[k])[..n - |Encode(log[..k])|])
  {
    hide EncodeRecord;
    var k := Whole(log, n);
    var l, m := log[..k], log[k..];
    assert log == l + m;
    EncodeAppend(l, m);
    if k == |log| {
      assert m == [];
    } else {
      assert Encode(m) == EncodeRecord(log[k]) + Encode(m[1..]);
    }
  }

  lemma FirstByte(log: seq<Record>, n: nat)
    requires 0 < n <= |Encode(log)|
    ensures Encode(log)[..n][0] == HASH || Encode(log)[..n][0] == STAR
  {}

  /** The end of a file that stops `d` bytes into record `r`. */
  lemma LoadTail(f: Bytes, pos: nat, st: LoadState, r: Record, d: nat, known: Command -> bool, allow: bool)
    requires 0 < d < |EncodeRecord(r)| && WellFormed(r)
    requires pos <= |f| && f[pos..] == EncodeRecord(r)[..d]
    ensures LoadFrom(f, pos, st, known, allow) ==
            if r.Write? then UnexpectedEnd(st, |f|, st.validUpTo, allow)
            else LoadFrom(f, |f|, st, known, allow)
  {
    var s := f[pos..];
    assert f[pos] == s[0];
    hide LineLength, ReadCommand, Run;
    match r
    case Annotation(text) =>
      CutLine(s, LINE_MAX);
      hide LoadFrom;
      StepAnnotation(f, pos, st, known, allow);
    case Write(argv) =>
      ReadCutCommand(argv, d);
  }

  /** Whether the cut at byte `n` falls strictly inside a record. */
  predicate Cuts(log: seq<Record>, n: nat)
    requires n <= |Encode(log)|
  {
    var k := Whole(log, n);
    k < |log| && |Encode(log[..k])| < n
  }

  /** A log cut at any byte, with `aof-load-truncated` on or off. */
  lemma LoadCut(log: seq<Record>, n: nat, known: Command -> bool, allow: bool)
    requires WellFormedLog(log) && Known(log, known) && 0 < n <= |Encode(log)|
    ensures var k := Whole(log, n);
            var st := StateAfter(log[..k]);
            Load(Encode(log)[..n], known, allow) ==
              if Cuts(log, n) && log[k].Write? then
                if allow then LoadResult(Truncated, st.executed, st.validUpTo) else LoadResult(Failed, st.executed, n)
              else if st.queue.Some? then
                if allow then LoadResult(Truncated, st.executed, st.beforeMulti) else LoadResult(Failed, st.executed, n)
              else LoadResult(Loaded, st.executed, n)
  {
    var k := Whole(log, n);
    var l := log[..k];
    var t: Bytes := if k == |log| then [] else EncodeRecord(log[k])[..n - |Encode(l)|];
    var f := Encode(log)[..n];
    FirstByte(log, n);
    assert !(REDIS <= f) by { assert REDIS[0] == 82; }
    SplitAt(log, n);
    assert f == Encode(l) + t && f[|Encode(l)|..] == t;
    LoadFromEnd(f, StateAfter(l), known, allow);
    hide EncodeRecord, LoadFrom, StateAfter, Whole;
    ReachRecord(log, k, t, known, allow);
    if t != [] {
      LoadTail(f, |Encode(l)|, StateAfter(l), log[k], |t|, known, allow);
    }
  }

  lemma LoadFromEnd(f: Bytes, st: LoadState, known: Command -> bool, allow: bool)
    ensures LoadFrom(f, |f|, st, known, allow) ==
            if st.queue.None? then LoadResult(Loaded, st.executed, |f|)
            else if allow then LoadResult(Truncated, st.executed, st.beforeMulti)
            else LoadResult(Failed, st.executed, |f|)
  {}

  /**
   * A log cut at any byte: the loader runs exactly the commands wholly inside the prefix, drops
   * an unfinished MULTI, and reports where the file has to be truncated.
   */
  lemma LoadPrefix(log: seq<Record>, n: nat, known: Command -> bool)
    requires WellFormedLog(log) && Known(log, known) && 0 < n <= |Encode(log)|
    ensures var k := Whole(log, n);
            var st := StateAfter(log[..k]);
            Load(Encode(log)[..n], known, true) ==
              if Cuts(log, n) && log[k].Write? then LoadResult(Truncated, st.executed, st.validUpTo)
              else if st.queue.Some? then LoadResult(Truncated, st.executed, st.beforeMulti)
              else LoadResult(Loaded, st.executed, n)
  {
    hide EncodeRecord, Load, StateAfter, Whole;
    LoadCut(log, n, known, true);
  }

  /** The first `n` bytes end inside a command or a transaction. */
  predicate TornEnd(log: seq<Record>, n: nat)
    requires n <= |Encode(log)|
  {
    var k := Whole(log, n);
    (Cuts(log, n) && log[k].Write?) || StateAfter(log[..k]).queue.Some?
  }

  /**
   * With `aof-load-truncated` off the loader runs the same commands, but fails and leaves the file
   * alone exactly if it ends inside a command or a transaction.
   */
  lemma LoadStrict(log: seq<Record>, n: nat, known: Command -> bool)
    requires WellFormedLog(log) && Known(log, known) && 0 < n <= |Encode(log)|
    ensures var on, off := Load(Encode(log)[..n], known, true), Load(Encode(log)[..n], known, false);
            && on.status in {Loaded, Truncated} && (on.status == Truncated <==> TornEnd(log, n))
            && off == if TornEnd(log, n) then LoadResult(Failed, on.executed, n) else on
  {
    hide EncodeRecord, Load, StateAfter, Whole;
    LoadCut(log, n, known, true);
    LoadCut(log, n, known, false);
  }

  /** Whatever comes after the first unknown command: loading fails after exactly the commands before it. */
  lemma LoadUnknown(log: seq<Record>, argv: Command, t: Bytes, known: Command -> bool, allow: bool)
    requires WellFormedLog(log) && Known(log, known) && WellFormed(Write(argv)) && !known(argv)
    ensures var f := Encode(log) + EncodeCommand(argv) + t;
            Load(f, known, allow) == LoadResult(Failed, StateAfter(log).executed, |f|)
  {
    var u := EncodeCommand(argv) + t;
    var f := Encode(log) + u;
    assert f == Encode(log) + EncodeCommand(argv) + t && f[|Encode(log)|..] == u;
    StartsWithStar(argv);
    ReadWholeCommand(argv, t);
    hide Dec, EncodeCommand;
    ReachEnd(log, u, known, allow);
    StepUnknown(f, |Encode(log)|, StateAfter(log), argv, t, known, allow);
  }

  lemma StepUnknown(f: Bytes, pos: nat, st: LoadState, argv: Command, t: Bytes, known: Command -> bool, allow: bool)
    requires pos < |f| && f[pos] != HASH && !known(argv) && ReadCommand(f[pos..]) == Parsed(argv, t)
    ensures LoadFrom(f, pos, st, known, allow) == LoadResult(Failed, st.executed, |f|)
  {
    hide LineLength, ReadCommand, Run, UnexpectedEnd;
  }

  /** A log, and then something that starts neither an annotation nor a command. */
  lemma LoadGarbage(log: seq<Record>, t: Bytes, known: Command -> bool, allow: bool)
    requires WellFormedLog(log) && Known(log, known) && t != [] && t[0] != HASH && t[0] != STAR && (log == [] ==> !(REDIS <= t))
    ensures Load(Encode(log) + t, known, allow) == LoadResult(Failed, StateAfter(log).executed, |Encode(log) + t|)
  {
    var f := Encode(log) + t;
    assert f[|Encode(log)|] == t[0] && f[|Encode(log)|..] == t;
    ReachEnd(log, t, known, allow);
    StepGarbage(f, |Encode(log)|, StateAfter(log), known, allow);
  }

  lemma StepGarbage(f: Bytes, pos: nat, st: LoadState, known: Command -> bool, allow: bool)
    requires pos < |f| && f[pos] != HASH && f[pos] != STAR
    ensures LoadFrom(f, pos, st, known, allow) == LoadResult(Failed, st.executed, |f|)
  {
    hide LineLength, Run, ReadArgs, Atoi, UnexpectedEnd;
    assert f[pos..][0] == f[pos];
  }

  /** A log, and then a command in which something else stands where an argument should. */
  lemma LoadMisread(log: seq<Record>, argv: Command, j: nat, t: Bytes, known: Command -> bool, allow: bool)
    requires WellFormedLog(log) && Known(log, known) && WellFormed(Write(argv)) && j < |argv| && t != [] && t[0] != DOLLAR
    ensures var f := Encode(log) + ([STAR] + Dec(|argv|) + CRLF + EncodeArgs(argv[..j]) + t);
            Load(f, known, allow) == LoadResult(Failed, StateAfter(log).executed, |f|)
  {
    var u := [STAR] + Dec(|argv|) + CRLF + EncodeArgs(argv[..j]) + t;
    var f := Encode(log) + u;
    assert f[|Encode(log)|..] == u && u[0] == STAR;
    ReadMisread(argv, j, t);
    hide Dec, EncodeArgs;
    ReachEnd(log, u, known, allow);
    StepBadCommand(f, |Encode(log)|, StateAfter(log), known, allow);
  }

  lemma ReadMisread(argv: Command, j: nat, t: Bytes)
    requires WellFormed(Write(argv)) && j < |argv| && t != [] && t[0] != DOLLAR
    ensures ReadCommand([STAR] + Dec(|argv|) + CRLF + EncodeArgs(argv[..j]) + t) == BadFormat
  {
    hide Dec, Atoi, LineLength, Pow10;
    Pow10Of20();
    var tail := EncodeArgs(argv[..j]) + t;
    var s := [STAR] + Dec(|argv|) + CRLF + EncodeArgs(argv[..j]) + t;
    DecShape(|argv|);
    assert s == [STAR] + Dec(|argv|) + CRLF + tail;
    HeaderLine(STAR, |argv|, tail);
    assert s[|Dec(|argv|)| + 3..] == tail;
    hide EncodeArgs, ReadArgs;
    ReadBadArgs(argv[..j], |argv|, t);
  }

  lemma {:induction false} ReadBadArgs(argv: Command, argc: nat, t: Bytes)
    requires |argv| < argc && t != [] && t[0] != DOLLAR
    requires forall i :: 0 <= i < |argv| ==> |argv[i]| < 0x8000_0000_0000_0000
    ensures ReadArgs(EncodeArgs(argv) + t, argc) == BadFormat
  {
    hide EncodeArg, LineLength, Atoi;
    if argv == [] {
      assert EncodeArgs(argv) + t == t;
    } else {
      hide ReadArg;
      assert EncodeArgs(argv) + t == EncodeArg(argv[0]) + (EncodeArgs(argv[1..]) + t);
      ReadWholeArg(argv[0], EncodeArgs(argv[1..]) + t);
      ReadBadArgs(argv[1..], argc - 1, t);
    }
  }

  lemma StepBadCommand(f: Bytes, pos: nat, st: LoadState, known: Command -> bool, allow: bool)
    requires pos < |f| && f[pos] != HASH && ReadCommand(f[pos..]) == BadFormat
    ensures LoadFrom(f, pos, st, known, allow) == LoadResult(Failed, st.executed, |f|)
  {
    hide LineLength, ReadCommand, Run, UnexpectedEnd;
  }

  /** A log, and then a command of no arguments. */
  lemma LoadNoArguments(log: seq<Record>, t: Bytes, known: Command -> bool, allow: bool)
    requires WellFormedLog(log) && Known(log, known)
    ensures var f := Encode(log) + ([STAR] + Dec(0) + CRLF + t);
            Load(f, known, allow) == LoadResult(Failed, StateAfter(log).executed, |f|)
  {
    var u := [STAR] + Dec(0) + CRLF + t;
    var f := Encode(log) + u;
    assert f[|Encode(log)|..] == u && u[0] == STAR;
    Pow10Of20();
    hide Atoi, Pow10, LineLength;
    HeaderLine(STAR, 0, t);
    DecShape(0);
    assert u[1] == Dec(0)[0];
    ReachEnd(log, u, known, allow);
    hide Dec, Load, LoadFrom;
    StepBadCommand(f, |Encode(log)|, StateAfter(log), known, allow);
  }

  /** The protocol text of `GET a`. */
  lemma EncodeExample()
    ensures EncodeCommand([[71, 69, 84], [97]]) ==
            [42, 50, 13, 10, 36, 51, 13, 10, 71, 69, 84, 13, 10, 36, 49, 13, 10, 97, 13, 10]
  {
    var argv: Command := [[71, 69, 84], [97]];
    assert argv[1..] == [[97]] && argv[1..][1..] == [];
    assert EncodeArgs(argv[1..]) == EncodeArg([97]) + EncodeArgs([]);
    assert EncodeArgs(argv) == EncodeArg([71, 69, 84]) + EncodeArgs(argv[1..]);
  }

  lemma ReachEnd(log: seq<Record>, t: Bytes, known: Command -> bool, allow: bool)
    requires WellFormedLog(log) && Known(log, known) && t != [] && (log == [] ==> !(REDIS <= t))
    ensures Load(Encode(log) + t, known, allow) == LoadFrom(Encode(log) + t, |Encode(log)|, StateAfter(log), known, allow)
  {
    var f := Encode(log) + t;
    if log == [] {
      assert f == t;
    } else {
      FirstByte(log, |Encode(log)|);
      assert f[0] == Encode(log)[0] && REDIS[0] == 82;
    }
    assert log[..|log|] == log;
    hide EncodeRecord, LoadFrom, StateAfter;
    ReachRecord(log, |log|, t, known, allow);
  }

  // ----- The loops of the source -----

  lemma {:induction false} EncodeArgsAppend(a: Command, b: Command)
    ensures EncodeArgs(a + b) == EncodeArgs(a) + EncodeArgs(b)
  {
    hide EncodeArg;
    if a == [] {
      assert a + b == b;
    } else {
      assert (a + b)[1..] == a[1..] + b;
      EncodeArgsAppend(a[1..], b);
    }
  }

  /** catAppendOnlyGenericCommand */
  method CatCommand(dst: Bytes, argv: Command) returns (out: Bytes)
    ensures out == dst + EncodeCommand(argv)
  {
    hide Dec, EncodeArgs;
    var header: Bytes := [STAR] + Dec(|argv|) + CRLF;
    out := dst + header;
    assert argv[..0] == [];
    NoArgs();
    for j := 0 to |argv|
      invariant out == dst + header + EncodeArgs(argv[..j])
    {
      ghost var before := out;
      out := out + ([DOLLAR] + Dec(|argv[j]|) + CRLF);
      out := out + argv[j];
      out := out + CRLF;
      assert out == before + EncodeArg(argv[j]);
      LastArg(argv, j);
    }
    assert argv[..|argv|] == argv;
  }

  lemma NoArgs()
    ensures EncodeArgs([]) == []
  {}

  lemma LastArg(argv: Command, j: nat)
    requires j < |argv|
    ensures EncodeArgs(argv[..j + 1]) == EncodeArgs(argv[..j]) + EncodeArg(argv[j])
  {
    hide EncodeArg;
    EncodeArgsAppend(argv[..j], [argv[j]]);
    assert argv[..j + 1] == argv[..j] + [argv[j]];
    assert EncodeArgs([argv[j]]) == EncodeArg(argv[j]) + EncodeArgs([argv[j]][1..]);
  }

  /** What is left to read once the arguments in `done` have been read. */
  function Prepend(done: Command, p: Parse<Command>): (r: Parse<Command>) {
    if p.Parsed? then Parsed(done + p.value, p.rest) else p
  }

  /** The argument loop of loadSingleAppendOnlyFile. */
  method ParseArgs(s: Bytes, argc: nat) returns (p: Parse<Command>)
    ensures p == ReadArgs(s, argc)
  {
    hide ReadArg;
    var argv: Command, rest := [], s;
    assert ReadArgs(s, argc).Parsed? ==> argv + ReadArgs(s, argc).value == ReadArgs(s, argc).value;
    for j := 0 to argc
      invariant |rest| <= |s|
      invariant ReadArgs(s, argc) == Prepend(argv, ReadArgs(rest, argc - j))
    {
      match ReadArg(rest)
      case Parsed(a, rest') =>
        ghost var more := ReadArgs(rest', argc - j - 1);
        assert more.Parsed? ==> argv + ([a] + more.value) == argv + [a] + more.value;
        argv, rest := argv + [a], rest';
      case ShortRead => return ShortRead;
      case BadFormat => return BadFormat;
      case Unreadable => return Unreadable;
      case OutOfMemory => return OutOfMemory;
    }
    assert argv + [] == argv;
    p := Parsed(argv, rest);
  }

  /** loadSingleAppendOnlyFile on the bytes `f`; `known` is the command table. */
  method LoadSingleFile(f: Bytes, known: Command -> bool, allowTruncated: bool) returns (r: LoadResult)
    ensures r == Load(f, known, allowTruncated)
  {
    hide Run, LineLength, ReadArgs, UnexpectedEnd, Atoi;
    if f == [] { return LoadResult(Empty, [], 0); }
    if REDIS <= f { return LoadResult(Rdb, [], |f|); }
    var pos, st := 0, START;
    while pos < |f|
      invariant 0 <= pos <= |f|
      invariant LoadFrom(f, 0, START, known, allowTruncated) == LoadFrom(f, pos, st, known, allowTruncated)
      decreases |f| - pos
    {
      var s := f[pos..];
      var n := LineLength(s, LINE_MAX);
      if s[0] == HASH { pos := pos + n; continue; }
      if s[0] != STAR { return LoadResult(Failed, st.executed, |f|); }
      if n == 1 || s[1] == 0 {
        if HitEnd(s, n) { return UnexpectedEnd(st, |f|, st.validUpTo, allowTruncated); }
        return LoadResult(Failed, st.executed, |f|);
      }
      var argc := Atoi(s[1..n]);
      if argc < 1 { return LoadResult(Failed, st.executed, |f|); }
      var p := ParseArgs(s[n..], argc);
      match p
      case Parsed(argv, rest) =>
        if !known(argv) { return LoadResult(Failed, st.executed, |f|); }
        pos := |f| - |rest|;
        st := Run(st, argv, pos);
      case ShortRead => return UnexpectedEnd(st, |f|, st.validUpTo, allowTruncated);
      case _ => return LoadResult(Failed, st.executed, |f|);
    }
    if st.queue.Some? { return UnexpectedEnd(st, |f|, st.beforeMulti, allowTruncated); }
    r := LoadResult(Loaded, st.executed, |f|);
  }
}
