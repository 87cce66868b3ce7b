/**
 * What a restart makes of a log that was cut at an arbitrary byte, and whether the server can
 * go on appending to the file afterwards.
 */
module AofRecovery {
  import opened Wrappers
  import opened Words
  import opened Decimal
  import opened AofProtocol

  /** MULTI is only written outside a transaction. */
  predicate FlatMulti(log: seq<Record>) {
    forall i :: 0 <= i < |log| && log[i].Write? && IsMulti(log[i].argv) ==> StateAfter(log[..i]).queue.None?
  }

  /** The number of records up to and including the last command. */
  function CommandsEnd(log: seq<Record>): (j: nat)
    ensures j <= |log|
  {
    if log == [] then 0
    else if log[|log| - 1].Write? then |log|
    else CommandsEnd(log[..|log| - 1])
  }

  lemma {:induction false} UpToLastCommand(log: seq<Record>)
    ensures var j, st := CommandsEnd(log), StateAfter(log);
            st.validUpTo == |Encode(log[..j])| && StateAfter(log[..j]) == st
  {
    hide Run, EncodeRecord;
    if log != [] {
      var n := |log| - 1;
      if log[n].Write? {
        assert log[..|log|] == log;
        RunEnds(StateAfter(log[..n]), log[n].argv, |Encode(log)|);
      } else {
        UpToLastCommand(log[..n]);
        assert log[..n][..CommandsEnd(log)] == log[..CommandsEnd(log)];
      }
    }
  }

  lemma RunEnds(st: LoadState, argv: Command, end: nat)
    ensures Run(st, argv, end).validUpTo == end
  {}

  /** The record a loader falls back to when the log ends inside a transaction. */
  function BeforeMulti(log: seq<Record>): (j: nat)
    ensures j <= |log|
  {
    if log == [] then 0
    else
      var n := |log| - 1;
      if log[n].Write? && IsMulti(log[n].argv) then CommandsEnd(log[..n]) else BeforeMulti(log[..n])
  }

  lemma FlatPrefix(log: seq<Record>, k: nat)
    requires FlatMulti(log) && k <= |log|
    ensures FlatMulti(log[..k])
  {
    hide StateAfter, Lower;
    var pre := log[..k];
    forall i | 0 <= i < k && pre[i].Write? && IsMulti(pre[i].argv) ensures StateAfter(pre[..i]).queue.None? {
      assert pre[..i] == log[..i];
    }
  }

  lemma {:induction false} OpenMulti(log: seq<Record>)
    requires FlatMulti(log) && StateAfter(log).queue.Some?
    ensures var j := BeforeMulti(log);
            && StateAfter(log).beforeMulti == |Encode(log[..j])|
            && StateAfter(log[..j]).queue.None? && StateAfter(log[..j]).executed == StateAfter(log).executed
  {
    var n, j := |log| - 1, BeforeMulti(log);
    var pre := log[..n];
    FlatPrefix(log, n);
    hide Encode, IsMulti, IsExec;
    if log[n].Write? && IsMulti(log[n].argv) {
      UpToLastCommand(pre);
    } else {
      OpenMulti(pre);
    }
    assert pre[..j] == log[..j];
  }

  /** Every MULTI and EXEC in the log is one the server writes, and no transaction is left open. */
  predicate Balanced(log: seq<Record>) {
    && FlatMulti(log) && StateAfter(log).queue.None?
    && forall i :: 0 <= i < |log| && log[i].Write? && IsExec(log[i].argv) ==> StateAfter(log[..i]).queue.Some?
  }

  lemma RunAlike(e: seq<Command>, x: LoadState, y: LoadState, argv: Command, a: nat, b: nat)
    requires x.executed == e + y.executed && x.queue == y.queue
    ensures Run(x, argv, a).executed == e + Run(y, argv, b).executed && Run(x, argv, a).queue == Run(y, argv, b).queue
  {
    hide IsMulti, IsExec;
    if x.queue.Some? {
      assert x.executed + x.queue.value == e + (y.executed + y.queue.value);
    }
    assert x.executed + [argv] == e + (y.executed + [argv]);
  }

  /** After a settled log, further records run as they would on their own. */
  lemma {:induction false} SettledSplit(l: seq<Record>, m: seq<Record>)
    requires StateAfter(l).queue.None?
    ensures StateAfter(l + m).executed == StateAfter(l).executed + StateAfter(m).executed
    ensures StateAfter(l + m).queue == StateAfter(m).queue
  {
    hide Encode, Run;
    if m == [] {
      assert l + m == l;
    } else {
      var n := |m| - 1;
      assert (l + m)[..|l| + n] == l + m[..n];
      SettledSplit(l, m[..n]);
      if m[n].Write? {
        RunAlike(StateAfter(l).executed, StateAfter(l + m[..n]), StateAfter(m[..n]), m[n].argv, |Encode(l + m)|, |Encode(m)|);
      }
    }
  }

  predicate HasExec(m: seq<Record>) { exists i :: 0 <= i < |m| && m[i].Write? && IsExec(m[i].argv) }

  function Queued(st: LoadState): (q: seq<Command>) { if st.queue.Some? then st.queue.value else [] }

  /**
   * The state `st` of a loader that had `e` executed and `q` queued in an open transaction, next to
   * the state `alone` of one that starts with the records read since: until the first EXEC
   * everything joins the queue, and from then on only what was queued before is in front.
   */
  predicate Follows(e: seq<Command>, q: seq<Command>, exec: bool, alone: LoadState, st: LoadState) {
    if exec then st.queue == alone.queue && st.executed == e + q + alone.executed
    else st.queue == Some(q + alone.executed + Queued(alone)) && st.executed == e
  }

  lemma OpenStep(e: seq<Command>, q: seq<Command>, exec: bool, alone: LoadState, st: LoadState, argv: Command, a: nat, b: nat)
    requires Follows(e, q, exec, alone, st)
    requires IsMulti(argv) ==> alone.queue.None?
    requires IsExec(argv) ==> alone.queue.Some?
    ensures Follows(e, q, exec || IsExec(argv), Run(alone, argv, a), Run(st, argv, b))
  {
    assert !(IsMulti(argv) && IsExec(argv)) by { assert MULTI[0] != EXEC[0]; }
    hide IsMulti, IsExec;
    var x, ae := Queued(alone), alone.executed;
    assert q + ae + [] == q + ae;
    assert (q + ae) + [argv] == q + (ae + [argv]) + [];
    assert (q + ae + x) + [argv] == q + ae + (x + [argv]);
    assert e + (q + ae + x) == e + q + (ae + x);
    assert (e + q + ae) + [argv] == e + q + (ae + [argv]);
    assert (e + q + ae) + x == e + q + (ae + x);
  }

  /** Records after an open transaction: all queued, or run after what the transaction had queued. */
  lemma OpenSplit(l: seq<Record>, m: seq<Record>)
    requires StateAfter(l).queue.Some? && Balanced(m)
    ensures var st, q := StateAfter(l + m), StateAfter(l).queue.value;
            if HasExec(m) then st.queue.None? && st.executed == StateAfter(l).executed + q + StateAfter(m).executed
            else st.queue.Some? && st.executed == StateAfter(l).executed
  {
    BalancedSettled(m);
    hide StateAfter, Balanced;
    OpenSplitFrom(l, m, |m|);
    assert m[..|m|] == m;
  }

  lemma StateAt(log: seq<Record>, k: nat)
    requires 0 < k <= |log|
    ensures StateAfter(log[..k]) ==
            if log[k - 1].Write? then Run(StateAfter(log[..k - 1]), log[k - 1].argv, |Encode(log[..k])|)
            else StateAfter(log[..k - 1])
  {
    hide Run, Encode;
    assert log[..k][..k - 1] == log[..k - 1];
  }

  lemma StateAppended(l: seq<Record>, m: seq<Record>, k: nat)
    requires 0 < k <= |m|
    ensures StateAfter(l + m[..k]) ==
            if m[k - 1].Write? then Run(StateAfter(l + m[..k - 1]), m[k - 1].argv, |Encode(l + m[..k])|)
            else StateAfter(l + m[..k - 1])
  {
    hide *;
    StateAt(l + m, |l| + k);
    assert (l + m)[..|l| + k] == l + m[..k];
    assert (l + m)[..|l| + k - 1] == l + m[..k - 1];
  }

  lemma OpenStart(l: seq<Record>, m: seq<Record>)
    requires StateAfter(l).queue.Some?
    ensures Follows(StateAfter(l).executed, StateAfter(l).queue.value, HasExec(m[..0]), StateAfter(m[..0]), StateAfter(l + m[..0]))
  {
    assert m[..0] == [] && l + [] == l;
    hide Run, Encode;
    var q := StateAfter(l).queue.value;
    assert q + [] + [] == q;
  }

  lemma ExecAt(m: seq<Record>, k: nat)
    requires 0 < k <= |m|
    ensures HasExec(m[..k]) <==> HasExec(m[..k - 1]) || (m[k - 1].Write? && IsExec(m[k - 1].argv))
  {
    hide IsExec;
    var a, b := m[..k - 1], m[..k];
    assert b == a + [m[k - 1]];
    assert forall i :: 0 <= i < |a| ==> b[i] == a[i];
  }

  lemma BracketAt(m: seq<Record>, k: nat)
    requires Balanced(m) && 0 < k <= |m| && m[k - 1].Write?
    ensures IsMulti(m[k - 1].argv) ==> StateAfter(m[..k - 1]).queue.None?
    ensures IsExec(m[k - 1].argv) ==> StateAfter(m[..k - 1]).queue.Some?
  {
    hide IsMulti, IsExec, StateAfter;
  }

  lemma {:induction false} OpenSplitFrom(l: seq<Record>, m: seq<Record>, k: nat)
    requires StateAfter(l).queue.Some? && Balanced(m) && k <= |m|
    ensures Follows(StateAfter(l).executed, StateAfter(l).queue.value, HasExec(m[..k]), StateAfter(m[..k]), StateAfter(l + m[..k]))
    decreases k
  {
    hide *;
    if k == 0 {
      OpenStart(l, m);
    } else {
      OpenSplitFrom(l, m, k - 1);
      StateAt(m, k);
      StateAppended(l, m, k);
      ExecAt(m, k);
      if m[k - 1].Write? {
        BracketAt(m, k);
        OpenStep(StateAfter(l).executed, StateAfter(l).queue.value, HasExec(m[..k - 1]),
                 StateAfter(m[..k - 1]), StateAfter(l + m[..k - 1]), m[k - 1].argv, |Encode(m[..k])|, |Encode(l + m[..k])|);
      }
    }
  }

  /** A complete log loads completely. */
  lemma LoadWhole(log: seq<Record>, known: Command -> bool)
    requires log != [] && WellFormedLog(log) && Known(log, known)
    ensures var st, f := StateAfter(log), Encode(log);
            Load(f, known, true) ==
              if st.queue.Some? then LoadResult(Truncated, st.executed, st.beforeMulti)
              else LoadResult(Loaded, st.executed, |f|)
  {
    hide EncodeRecord, StateAfter, Load;
    var f := Encode(log);
    var k := Whole(log, |f|);
    var l, m := log[..k], log[k..];
    assert log == l + m;
    EncodeAppend(l, m);
    assert k == |log| && l == log;
    assert f[..|f|] == f;
    LoadPrefix(log, |f|, known);
  }

  lemma PrefixOfEncoding(log: seq<Record>, j: nat, n: nat)
    requires j <= |log| && |Encode(log[..j])| <= n <= |Encode(log)|
    ensures Encode(log)[..n][..|Encode(log[..j])|] == Encode(log[..j])
  {
    hide EncodeRecord;
    assert log == log[..j] + log[j..];
    EncodeAppend(log[..j], log[j..]);
  }

  lemma {:induction false} EncodeMonotone(log: seq<Record>, i: nat, j: nat)
    requires i <= j <= |log|
    ensures |Encode(log[..i])| <= |Encode(log[..j])|
  {
    hide EncodeRecord;
    assert log[..j] == log[..i] + log[i..j];
    EncodeAppend(log[..i], log[i..j]);
  }

  /** What loading leaves of a file. */
  function Left(p: Bytes, known: Command -> bool): (f: Bytes) {
    var size := Load(p, known, true).size;
    if size <= |p| then p[..size] else p
  }

  /** The file a restart leaves behind when the log `log` is cut after `n` bytes. */
  function Restarted(log: seq<Record>, n: nat, known: Command -> bool): (f: Bytes)
    requires n <= |Encode(log)|
  {
    Left(Encode(log)[..n], known)
  }

  /**
   * The two kinds of cut a restart does not repair: inside an annotation outside any
   * transaction, and inside a command of an open transaction.
   */
  predicate Damaged(log: seq<Record>, n: nat)
    requires n <= |Encode(log)|
  {
    var k := Whole(log, n);
    Cuts(log, n) && (log[k].Write? <==> StateAfter(log[..k]).queue.Some?)
  }

  /** The number of records that survive a restart after a cut at byte `n`. */
  function Survivors(log: seq<Record>, n: nat): (j: nat)
    requires n <= |Encode(log)|
    ensures j <= |log|
  {
    var k := Whole(log, n);
    if Cuts(log, n) && log[k].Write? then CommandsEnd(log[..k])
    else if StateAfter(log[..k]).queue.Some? then BeforeMulti(log[..k])
    else k
  }

  /** After any other cut the file is again the encoding of a settled prefix of the log. */
  lemma RestartSettles(log: seq<Record>, n: nat, known: Command -> bool)
    requires WellFormedLog(log) && Known(log, known) && FlatMulti(log)
    requires 0 < n <= |Encode(log)| && !Damaged(log, n)
    ensures var j := Survivors(log, n);
            && Restarted(log, n, known) == Encode(log[..j])
            && StateAfter(log[..j]).queue.None?
            && StateAfter(log[..j]).executed == Load(Encode(log)[..n], known, true).executed
    ensures Load(Encode(log)[..n], known, true).status in {Loaded, Truncated}
    ensures Load(Encode(log)[..n], known, true).size <= n
  {
    hide EncodeRecord, StateAfter, LoadFrom;
    var k, j := Whole(log, n), Survivors(log, n);
    var st := StateAfter(log[..k]);
    LoadPrefix(log, n, known);
    hide Load, Whole;
    if Cuts(log, n) && log[k].Write? {
      UpToLastCommand(log[..k]);
      assert log[..k][..j] == log[..j];
      EncodeMonotone(log, j, k);
      PrefixOfEncoding(log, j, n);
    } else if st.queue.Some? {
      FlatPrefix(log, k);
      OpenMulti(log[..k]);
      assert log[..k][..j] == log[..j];
      EncodeMonotone(log, j, k);
      PrefixOfEncoding(log, j, n);
    } else {
      SplitAt(log, n);
    }
  }

  lemma NothingLeft(log: seq<Record>, known: Command -> bool)
    ensures Encode(log)[..0] == [] && Whole(log, 0) == 0 && Survivors(log, 0) == 0
    ensures Load([], known, true) == LoadResult(Empty, [], 0)
    ensures log[..0] == [] && StateAfter([]) == START && Encode([]) == []
    ensures Restarted(log, 0, known) == []
  {
    hide EncodeRecord;
    assert log[..0] == [];
  }

  lemma Pow10Of10()
    ensures Pow10(10) == 10_000_000_000
  {
    assert Pow10(5) == 100_000;
  }

  predicate UnfinishedAnnotation(cut: Bytes) {
    1 <= |cut| <= 1002 && cut[0] == HASH && forall i :: 0 <= i < |cut| ==> cut[i] != LF
  }

  lemma CutAnnotation(r: Record, d: nat)
    requires r.Annotation? && WellFormed(r) && 1 <= d < |EncodeRecord(r)|
    ensures UnfinishedAnnotation(EncodeRecord(r)[..d])
  {}

  /** A file whose last line is an unfinished annotation swallows the header of the next command. */
  lemma AnnotationSwallows(f: Bytes, pos: nat, st: LoadState, cut: Bytes, argv: Command, t: Bytes,
                           known: Command -> bool)
    requires UnfinishedAnnotation(cut) && WellFormed(Write(argv))
    requires pos <= |f| && f[pos..] == cut + (EncodeCommand(argv) + t)
    ensures LoadFrom(f, pos, st, known, true) == LoadResult(Failed, st.executed, |f|)
  {
    hide LoadFrom, LineLength, Dec, EncodeArgs, Pow10;
    var line: Bytes := cut + ([STAR] + Dec(|argv|) + [CR]);
    Pow10Of10();
    DecShape(|argv|);
    DecLength(|argv|, 10);
    var args := EncodeArgs(argv) + t;
    var s := f[pos..];
    assert s == line + [LF] + args;
    WholeLine(line, args, LINE_MAX);
    assert f[pos] == s[0] == HASH;
    StepAnnotation(f, pos, st, known, true);
    ArgsStartWithDollar(argv);
    var next := pos + |line| + 1;
    assert f[next] == s[|line| + 1] == args[0] == DOLLAR;
    StepGarbage(f, next, st, known, true);
  }

  lemma ArgsStartWithDollar(argv: Command)
    requires argv != []
    ensures EncodeArgs(argv) != [] && EncodeArgs(argv)[0] == DOLLAR
  {
    hide Dec;
  }

  lemma LoadIsLoop(f: Bytes, known: Command -> bool)
    requires f != [] && (f[0] == HASH || f[0] == STAR)
    ensures Load(f, known, true) == LoadFrom(f, 0, START, known, true)
  {
    hide LoadFrom;
    assert REDIS[0] == 82;
  }

  /** Such a cut leaves the file as it is, unfinished annotation included. */
  lemma CutAnnotationStays(log: seq<Record>, n: nat, known: Command -> bool)
    requires WellFormedLog(log) && Known(log, known)
    requires n <= |Encode(log)| && Damaged(log, n) && log[Whole(log, n)].Annotation?
    ensures var k := Whole(log, n);
            var t := EncodeRecord(log[k])[..n - |Encode(log[..k])|];
            Restarted(log, n, known) == Encode(log[..k]) + t && UnfinishedAnnotation(t)
  {
    hide EncodeRecord, StateAfter, Load;
    var k := Whole(log, n);
    LoadPrefix(log, n, known);
    SplitAt(log, n);
    CutAnnotation(log[k], n - |Encode(log[..k])|);
    var p := Encode(log)[..n];
    assert p[..n] == p;
  }

  /** A command written right after an annotation cut short outside a transaction makes the file unloadable. */
  lemma CutAnnotationBreaks(log: seq<Record>, n: nat, more: seq<Record>, known: Command -> bool)
    requires WellFormedLog(log) && Known(log, known) && WellFormedLog(more)
    requires more != [] && more[0].Write?
    requires n <= |Encode(log)| && Damaged(log, n) && log[Whole(log, n)].Annotation?
    ensures Load(Restarted(log, n, known) + Encode(more), known, true).status == Failed
  {
    hide EncodeRecord, StateAfter, LoadFrom, Load, Restarted;
    var k := Whole(log, n);
    var l, t := log[..k], EncodeRecord(log[k])[..n - |Encode(log[..k])|];
    CutAnnotationStays(log, n, known);
    hide Whole;
    EncodeWrite(more[0]);
    var argv, tail := more[0].argv, Encode(more[1..]);
    var u := EncodeCommand(argv) + tail;
    assert Encode(more) == u;
    var f := Encode(l) + t + u;
    assert f == Encode(l) + (t + u) && f[|Encode(l)|..] == t + u;
    StartsRight(l);
    assert f[0] == if l == [] then t[0] else Encode(l)[0];
    LoadIsLoop(f, known);
    ReachRecord(log, k, t + u, known, true);
    AnnotationSwallows(f, |Encode(l)|, StateAfter(l), t, argv, tail, known);
  }

  lemma StartsRight(log: seq<Record>)
    ensures if log == [] then Encode(log) == []
            else Encode(log) != [] && (Encode(log)[0] == HASH || Encode(log)[0] == STAR)
  {
    if log != [] { FirstByte(log, |Encode(log)|); }
  }

  lemma EncodeWrite(r: Record)
    requires r.Write?
    ensures EncodeRecord(r) == EncodeCommand(r.argv)
  {}

  /** Cutting a command inside an open transaction leaves the transaction open in the file. */
  lemma CutTransactionStays(log: seq<Record>, n: nat, known: Command -> bool)
    requires WellFormedLog(log) && Known(log, known)
    requires n <= |Encode(log)| && Damaged(log, n) && log[Whole(log, n)].Write?
    ensures var j := CommandsEnd(log[..Whole(log, n)]);
            var st := StateAfter(log[..j]);
            && Restarted(log, n, known) == Encode(log[..j])
            && st.queue.Some? && st.queue == StateAfter(log[..Whole(log, n)]).queue
            && st.executed == Load(Encode(log)[..n], known, true).executed
  {
    hide EncodeRecord, StateAfter, LoadFrom;
    var k := Whole(log, n);
    LoadPrefix(log, n, known);
    hide Load, Whole;
    var j := CommandsEnd(log[..k]);
    UpToLastCommand(log[..k]);
    assert log[..k][..j] == log[..j];
    EncodeMonotone(log, j, k);
    PrefixOfEncoding(log, j, n);
  }

  /**
   * A command cut short inside an open transaction. Without an EXEC the writes after the restart are
   * lost at the next one. With an EXEC they run, after the commands the open transaction had queued,
   * which the first restart dropped.
   */
  lemma CutTransactionExact(log: seq<Record>, n: nat, more: seq<Record>, known: Command -> bool)
    requires WellFormedLog(log) && Known(log, known) && WellFormedLog(more) && Known(more, known) && Balanced(more)
    requires n <= |Encode(log)| && Damaged(log, n) && log[Whole(log, n)].Write?
    ensures var first := Load(Encode(log)[..n], known, true);
            var r := Load(Restarted(log, n, known) + Encode(more), known, true);
            if HasExec(more) then
              r.status == Loaded && r.executed == first.executed + StateAfter(log[..Whole(log, n)]).queue.value + StateAfter(more).executed
            else r.status == Truncated && r.executed == first.executed
  {
    hide EncodeRecord, StateAfter, Load, Restarted, Encode, Balanced, HasExec, Whole;
    CutTransactionStays(log, n, known);
    var j := CommandsEnd(log[..Whole(log, n)]);
    EncodeAppend(log[..j], more);
    OpenSplit(log[..j], more);
    NotEmpty(log[..j]);
    LoadWhole(log[..j] + more, known);
  }

  lemma NotEmpty(log: seq<Record>)
    requires StateAfter(log).queue.Some?
    ensures log != []
  {}

  // ----- A new annotation completes the line of a cut one -----

  const NOTE_MAX: nat := 400

  /** Annotations as short as the server writes them, which is at most 23 bytes. */
  predicate ShortNotes(log: seq<Record>) {
    forall i :: 0 <= i < |log| && log[i].Annotation? ==> |log[i].text| <= NOTE_MAX
  }

  /** The annotation on the line made of an unfinished one and the next one. */
  function Merged(cut: Bytes, text: Bytes): (r: Record)
    requires cut != []
  {
    Annotation(cut[1..] + [HASH] + text)
  }

  lemma MergedEncodes(cut: Bytes, text: Bytes)
    requires UnfinishedAnnotation(cut)
    ensures EncodeRecord(Merged(cut, text)) == cut + EncodeRecord(Annotation(text))
  {
    assert cut == [HASH] + cut[1..];
    assert [HASH] + (cut[1..] + [HASH] + text) + CRLF == ([HASH] + cut[1..]) + ([HASH] + text + CRLF);
  }

  lemma MergedWellFormed(cut: Bytes, text: Bytes)
    requires UnfinishedAnnotation(cut) && WellFormed(Annotation(text)) && |cut| + |text| <= 1000
    ensures WellFormed(Merged(cut, text))
  {
    var t := Merged(cut, text).text;
    forall i | 0 <= i < |t| ensures t[i] != LF {
      if i < |cut| - 1 { assert t[i] == cut[i + 1]; } else if i >= |cut| { assert t[i] == text[i - |cut|]; }
    }
  }

  /** The records of a file in which annotation `text` follows an unfinished one. */
  lemma MergedFile(l: seq<Record>, cut: Bytes, more: seq<Record>)
    requires UnfinishedAnnotation(cut) && more != [] && more[0].Annotation?
    ensures Encode(l) + cut + Encode(more) == Encode(l + [Merged(cut, more[0].text)] + more[1..])
  {
    hide EncodeRecord, Merged;
    var r := Merged(cut, more[0].text);
    MergedEncodes(cut, more[0].text);
    EncodeAppend(l + [r], more[1..]);
    EncodeAppend(l, [r]);
    assert Encode([r]) == EncodeRecord(r) + Encode([r][1..]) == EncodeRecord(r);
    assert Encode(more) == EncodeRecord(more[0]) + Encode(more[1..]);
  }

  lemma NoteRuns(l: seq<Record>, r: Record, m: seq<Record>)
    requires r.Annotation? && StateAfter(l).queue.None?
    ensures StateAfter(l + [r] + m).executed == StateAfter(l).executed + StateAfter(m).executed
    ensures StateAfter(l + [r] + m).queue == StateAfter(m).queue
  {
    assert (l + [r])[..|l|] == l;
    hide Encode, Run;
    assert StateAfter(l + [r]) == StateAfter(l);
    SettledSplit(l + [r], m);
  }

  /** An annotation written right after a cut one makes the file whole again. */
  lemma NoteRepairs(log: seq<Record>, n: nat, more: seq<Record>, known: Command -> bool)
    requires WellFormedLog(log) && Known(log, known) && WellFormedLog(more) && Known(more, known) && Balanced(more)
    requires ShortNotes(log) && ShortNotes(more)
    requires n <= |Encode(log)| && Damaged(log, n) && log[Whole(log, n)].Annotation?
    requires more != [] && more[0].Annotation?
    ensures var r := Load(Restarted(log, n, known) + Encode(more), known, true);
            r.status == Loaded && r.executed == Load(Encode(log)[..n], known, true).executed + StateAfter(more).executed
  {
    var k := Whole(log, n);
    var l, cut := log[..k], EncodeRecord(log[k])[..n - |Encode(log[..k])|];
    hide *;
    CutAnnotationRuns(log, n, known);
    CutAnnotationStays(log, n, known);
    CutFits(log, k, cut, more);
    MergedFile(l, cut, more);
    BalancedSettled(more);
    MergedRuns(l, Merged(cut, more[0].text), more);
    MergedLog(log, k, Merged(cut, more[0].text), more, known);
    LoadWhole(l + [Merged(cut, more[0].text)] + more[1..], known);
  }

  lemma BalancedSettled(m: seq<Record>)
    requires Balanced(m)
    ensures StateAfter(m).queue.None?
  {}

  lemma CutFits(log: seq<Record>, k: nat, cut: Bytes, more: seq<Record>)
    requires ShortNotes(log) && ShortNotes(more) && WellFormedLog(more) && k < |log| && log[k].Annotation?
    requires |cut| <= |EncodeRecord(log[k])| && UnfinishedAnnotation(cut) && more != [] && more[0].Annotation?
    ensures Merged(cut, more[0].text).Annotation? && WellFormed(Merged(cut, more[0].text))
  {
    hide WellFormed, UnfinishedAnnotation;
    NoteLength(log[k]);
    MergedWellFormed(cut, more[0].text);
  }

  lemma MergedLog(log: seq<Record>, k: nat, r: Record, more: seq<Record>, known: Command -> bool)
    requires WellFormedLog(log) && Known(log, known) && WellFormedLog(more) && Known(more, known)
    requires k <= |log| && r.Annotation? && WellFormed(r) && more != []
    ensures WellFormedLog(log[..k] + [r] + more[1..]) && Known(log[..k] + [r] + more[1..], known)
  {
    hide WellFormed;
    var whole := log[..k] + [r] + more[1..];
    assert forall i :: 0 <= i < |whole| ==> whole[i] == if i < k then log[i] else if i == k then r else more[i - k];
  }

  lemma NoteLength(r: Record)
    requires r.Annotation?
    ensures |EncodeRecord(r)| == |r.text| + 3
  {}

  lemma CutAnnotationRuns(log: seq<Record>, n: nat, known: Command -> bool)
    requires WellFormedLog(log) && Known(log, known)
    requires n <= |Encode(log)| && Damaged(log, n) && log[Whole(log, n)].Annotation?
    ensures var st := StateAfter(log[..Whole(log, n)]);
            st.queue.None? && Load(Encode(log)[..n], known, true) == LoadResult(Loaded, st.executed, n)
  {
    hide EncodeRecord, StateAfter, Load, WellFormed;
    LoadPrefix(log, n, known);
  }

  lemma MergedRuns(l: seq<Record>, r: Record, more: seq<Record>)
    requires StateAfter(l).queue.None? && StateAfter(more).queue.None? && r.Annotation? && more != [] && more[0].Annotation?
    ensures StateAfter(l + [r] + more[1..]).executed == StateAfter(l).executed + StateAfter(more).executed
    ensures StateAfter(l + [r] + more[1..]).queue.None?
  {
    Nothing();
    hide StateAfter;
    NoteRuns(l, r, more[1..]);
    NoteRuns([], more[0], more[1..]);
    assert [] + [more[0]] + more[1..] == more;
  }

  lemma Nothing()
    ensures StateAfter([]).executed == [] && StateAfter([]).queue.None?
  {}

  predicate NoCommands(m: seq<Record>) { forall i :: 0 <= i < |m| ==> m[i].Annotation? }

  /**
   * The cut can be lived with: it is repaired, or the next record makes a cut annotation a whole
   * line, or the first EXEC closes a cut transaction that had queued nothing, or no command follows.
   */
  predicate Survives(log: seq<Record>, n: nat, more: seq<Record>)
    requires n <= |Encode(log)|
  {
    || !Damaged(log, n)
    || (if log[Whole(log, n)].Annotation? then more == [] || more[0].Annotation?
        else if HasExec(more) then StateAfter(log[..Whole(log, n)]).queue == Some([])
        else NoCommands(more))
  }

  /** Without an EXEC nothing runs exactly if there is no command. */
  lemma {:induction false} NothingRuns(m: seq<Record>)
    requires Balanced(m) && !HasExec(m)
    ensures StateAfter(m).executed == [] <==> NoCommands(m)
  {
    hide *;
    RunsWithoutExec(m, |m|);
    BalancedSettled(m);
    assert m[..|m|] == m;
  }

  /** Without an EXEC, every command is executed or queued, except the MULTI that opens a queue. */
  lemma {:induction false} RunsWithoutExec(m: seq<Record>, k: nat)
    requires k <= |m| && !HasExec(m)
    ensures StateAfter(m[..k]).queue.None? ==> (StateAfter(m[..k]).executed == [] <==> NoCommands(m[..k]))
    decreases k
  {
    hide *;
    if k == 0 {
      assert m[..0] == [];
      Nothing();
      NothingThere();
    } else {
      RunsWithoutExec(m, k - 1);
      StateAt(m, k);
      CommandAt(m, k);
      NotExecAt(m, k);
      if m[k - 1].Write? {
        RunsOrQueues(StateAfter(m[..k - 1]), m[k - 1].argv, |Encode(m[..k])|);
      }
    }
  }

  lemma NothingThere()
    ensures NoCommands([])
  {}

  lemma CommandAt(m: seq<Record>, k: nat)
    requires 0 < k <= |m|
    ensures NoCommands(m[..k]) <==> NoCommands(m[..k - 1]) && m[k - 1].Annotation?
  {
    var a, b := m[..k - 1], m[..k];
    assert b == a + [m[k - 1]];
    assert forall i :: 0 <= i < |a| ==> b[i] == a[i];
  }

  lemma NotExecAt(m: seq<Record>, k: nat)
    requires 0 < k <= |m| && !HasExec(m)
    ensures m[k - 1].Write? ==> !IsExec(m[k - 1].argv)
  {
    hide IsExec;
  }

  lemma RunsOrQueues(st: LoadState, argv: Command, end: nat)
    requires !IsExec(argv)
    ensures var r := Run(st, argv, end); r.queue.None? ==> st.queue.None? && r.executed != []
  {
    hide IsMulti, IsExec;
  }

  /**
   * Crash, restart, go on writing, restart again: the second load runs exactly the commands the
   * first one ran followed by the new ones if and only if the cut was repaired, or it was inside an
   * annotation and the next thing written is an annotation too, or it was inside a command of a
   * transaction that had queued nothing and the new records hold an EXEC, or they hold no command.
   */
  lemma WritesSurviveRestart(log: seq<Record>, n: nat, more: seq<Record>, known: Command -> bool)
    requires WellFormedLog(log) && Known(log, known) && FlatMulti(log) && ShortNotes(log)
    requires WellFormedLog(more) && Known(more, known) && Balanced(more) && ShortNotes(more)
    requires n <= |Encode(log)|
    ensures var first := Load(Encode(log)[..n], known, true);
            var second := Load(Restarted(log, n, known) + Encode(more), known, true);
            (second.status in {Loaded, Empty, Truncated} && second.executed == first.executed + StateAfter(more).executed)
            <==> Survives(log, n, more)
  {
    hide EncodeRecord, StateAfter, Load, Whole, Balanced, WellFormed, Restarted, HasExec, NoCommands;
    if !Damaged(log, n) {
      RepairedRestart(log, n, more, known);
    } else if log[Whole(log, n)].Write? {
      CutTransactionExact(log, n, more, known);
      if !HasExec(more) { NothingRuns(more); }
    } else if more == [] {
      NothingAppended(log, n, known);
    } else if more[0].Annotation? {
      NoteRepairs(log, n, more, known);
    } else {
      CutAnnotationBreaks(log, n, more, known);
    }
  }

  lemma RepairedRestart(log: seq<Record>, n: nat, more: seq<Record>, known: Command -> bool)
    requires WellFormedLog(log) && Known(log, known) && FlatMulti(log)
    requires WellFormedLog(more) && Known(more, known) && Balanced(more)
    requires n <= |Encode(log)| && !Damaged(log, n)
    ensures var second := Load(Restarted(log, n, known) + Encode(more), known, true);
            second.status in {Loaded, Empty}
            && second.executed == Load(Encode(log)[..n], known, true).executed + StateAfter(more).executed
  {
    hide EncodeRecord, StateAfter, Load, Whole, WellFormed, FlatMulti;
    var j := Survivors(log, n);
    if n == 0 {
      NothingLeft(log, known);
    } else {
      RestartSettles(log, n, known);
    }
    EncodeAppend(log[..j], more);
    SettledSplit(log[..j], more);
    if log[..j] + more == [] {
      NothingLeft([], known);
    } else {
      LoadWhole(log[..j] + more, known);
    }
  }

  lemma NothingAppended(log: seq<Record>, n: nat, known: Command -> bool)
    requires WellFormedLog(log) && Known(log, known)
    requires n <= |Encode(log)| && Damaged(log, n) && log[Whole(log, n)].Annotation?
    ensures var first := Load(Encode(log)[..n], known, true);
            && Load(Restarted(log, n, known) + Encode([]), known, true) == first && first.status == Loaded
            && first.executed + StateAfter([]).executed == first.executed
  {
    hide EncodeRecord, StateAfter, LoadFrom, Load;
    LoadPrefix(log, n, known);
    var p := Encode(log)[..n];
    assert p[..n] == p && Encode([]) == [];
    assert Restarted(log, n, known) + [] == p;
    Nothing();
  }
}
