/**
 * What single steps of the append-only files come to (aof.c): what a rewrite changes, and what
 * exactly happens after each of the steps that a safe run leaves out.
 */
module AofOutcomes {
  import opened Wrappers
  import opened Words
  import opened Decimal
  import opened AofProtocol
  import opened AofRecovery
  import opened AofManifest
  import opened AofFlush
  import opened AofFeed
  import opened ManifestNames
  import opened AofServer
  import ManifestText
  import Sds

  // ----- What a rewrite changes -----

  /**
   * Once a rewrite is done and old files are collected, nothing is left of the files it replaced:
   * what was history before, the old BASE, and every INCR file but the open one. The new BASE holds
   * the child's dataset, and no other file changes.
   */
  lemma RewriteCleans(st: State, rdb: bool, persistGc: Persist, n: Bytes)
    requires Rep(st) && Enabled(st, ChildExit(true, rdb, true, Replaced, true, persistGc))
    ensures var r := RewriteDone(st, true, rdb, true, Replaced, true, persistGc);
            var base := BaseFileName(st.prefix, st.am.baseSeq + 1, rdb);
            var gone := (exists i :: 0 <= i < |st.am.history| && st.am.history[i].name == n)
                        || (st.am.base.Some? && st.am.base.value.name == n)
                        || (exists i :: 0 <= i < |st.am.incr| - 1 && st.am.incr[i].name == n);
            && r.am.history == [] && r.child == None
            && r.am.base == Some(Info(base, st.am.baseSeq + 1, BASE)) && r.am.incr == [st.am.incr[|st.am.incr| - 1]]
            && base in r.files && r.files[base] == Snapshot(st.child.value)
            && (gone ==> n !in r.files)
            && (!gone && n != base ==> (n in r.files <==> n in st.files) && (n in st.files ==> r.files[n] == st.files[n]))
  {
    hide BaseFileName, IncrFileName, Logged, LoadClosed;
    var named := NewBase(st.am, st.prefix, rdb);
    var temp := MarkedRewritten(named, true).(dirty := false);
    var k := |st.am.incr| - 1;
    ReplacedNames(st.am, st.prefix, rdb, n);
    NewBaseConsistent(st.am, st.prefix, rdb);
    RewrittenConsistent(named, st.prefix, true);
    BaseStays(temp, st.prefix);
    assert temp.history != [];
  }

  /** The history after a rewrite names exactly the files it replaced. */
  lemma ReplacedNames(am: Manifest, prefix: Bytes, rdb: bool, n: Bytes)
    requires am.baseSeq >= 0 && am.incr != []
    ensures var temp := MarkedRewritten(NewBase(am, prefix, rdb), true).(dirty := false);
            n in HistoryNames(temp) <==>
            || (exists i :: 0 <= i < |am.history| && am.history[i].name == n)
            || (am.base.Some? && am.base.value.name == n)
            || (exists i :: 0 <= i < |am.incr| - 1 && am.incr[i].name == n)
  {
    hide BaseFileName;
    var temp := MarkedRewritten(NewBase(am, prefix, rdb), true).(dirty := false);
    var moved, was := AsHistory(am.incr[..|am.incr| - 1]), if am.base.Some? then [am.base.value.(kind := HIST)] else [];
    assert temp.history == moved + (was + am.history);
    hide NewBase, MarkedRewritten, AsHistory;
    assert forall i :: 0 <= i < |moved| ==> moved[i].name == am.incr[i].name by { HistoryNamesSame(am.incr[..|am.incr| - 1]); }
    NamedIn(moved, was + am.history, n);
    NamedIn(was, am.history, n);
    assert NameIn(temp.history, n) <==> n in HistoryNames(temp);
    assert NameIn(was, n) <==> am.base.Some? && am.base.value.name == n by { assert am.base.Some? ==> was[0].name == am.base.value.name; }
    SameNamesIn(moved, am.incr[..|am.incr| - 1], n);
    var last := am.incr[..|am.incr| - 1];
    assert forall i :: 0 <= i < |last| ==> last[i] == am.incr[i];
  }

  lemma SameNamesIn(a: seq<Info>, b: seq<Info>, n: Bytes)
    requires |a| == |b| && forall i :: 0 <= i < |a| ==> a[i].name == b[i].name
    ensures NameIn(a, n) <==> NameIn(b, n)
  {
    if NameIn(a, n) { var i :| 0 <= i < |a| && a[i].name == n; assert b[i].name == n; }
  }

  lemma HistoryNamesSame(infos: seq<Info>)
    ensures forall i :: 0 <= i < |infos| ==> AsHistory(infos)[i].name == infos[i].name
  {}

  predicate NameIn(infos: seq<Info>, n: Bytes) { exists i :: 0 <= i < |infos| && infos[i].name == n }

  lemma NamedIn(a: seq<Info>, b: seq<Info>, n: Bytes)
    ensures NameIn(a + b, n) <==> NameIn(a, n) || NameIn(b, n)
  {
    if NameIn(a, n) {
      var i :| 0 <= i < |a| && a[i].name == n;
      assert (a + b)[i] == a[i];
    }
    if NameIn(b, n) {
      var i :| 0 <= i < |b| && b[i].name == n;
      assert (a + b)[|a| + i] == b[i];
    }
    if NameIn(a + b, n) {
      var i :| 0 <= i < |a + b| && (a + b)[i].name == n;
      if i >= |a| { assert (a + b)[i] == b[i - |a|]; }
    }
  }

  lemma BaseStays(am: Manifest, prefix: Bytes)
    requires Consistent(am, prefix) && am.base.Some?
    ensures am.base.value.name !in HistoryNames(am)
  {
    hide BaseFileName, IncrFileName, Issued;
    assert am.base.value.name in Live(am);
  }

  /** A child that failed, or whose file could not be renamed, changes no file and no manifest. */
  lemma FailedRewrite(st: State, success: bool, rdb: bool, renameOk: bool, persist: Persist, gc: bool, persistGc: Persist)
    requires st.child.Some? && st.am.baseSeq >= 0 && !(success && renameOk)
    ensures var r := RewriteDone(st, success, rdb, renameOk, persist, gc, persistGc);
            r.child == None && r.files == st.files && r.disk == st.disk && r.am == st.am && r.log == st.log && r.live == st.live
  {}

  /**
   * When a child runs after an attempt to start a rewrite: there was one already, or every step went
   * well, and then it saves the live dataset and the server writes a new, empty file.
   */
  lemma RewriteStarts(st: State, dirOk: bool, env: FlushEnv, openOk: bool, persist: Persist, forkOk: bool)
    requires Running(st) && StartRewrite(st, dirOk, env, openOk, persist, forkOk).Some?
    ensures var r := StartRewrite(st, dirOk, env, openOk, persist, forkOk).value;
            && (st.child.Some? || !dirOk ==> r == st)
            && (st.child.None? ==> (r.child.Some? <==> dirOk && openOk && persist == Replaced && forkOk))
            && (st.child.None? && r.child.Some? ==> r.child.value == st.live)
            && (st.child.None? && dirOk && openOk && persist == Replaced ==>
                  r.am.incrSeq == st.am.incrSeq + 1 && r.log.file == [] && r.selected == -1 && !r.log.fd.append)
            && (!(openOk && persist == Replaced) ==> r.am == st.am)
  {
    hide Flush, IncrFileName;
  }

  // ----- What the unsafe steps do -----

  /**
   * Data written behind a gap cannot be loaded: a flush on a descriptor that is past the end of a
   * file of whole records makes the server refuse to start.
   */
  lemma GapBreaks(st: State, env: FlushEnv, k: nat)
    requires Rep(st) && Running(st) && st.lost == 0 && Flush(st.log, env).Some?
    requires !AtEnd(st.log) && Taken(st.log, env) > 0
    requires k <= |st.recs| && st.log.file == Encode(st.recs[..k])
    ensures var r := st.(log := Flush(st.log, env).value);
            LoadDisk(r.disk, WithOpen(r, r.log.file)) == None && !Replays(r)
  {
    var l := Flush(st.log, env).value;
    GapInFile(st.log, env);
    SoundLog(st);
    hide Rep, LoadDisk, Flush, Taken, Encode;
    Unloadable(st, k, l.file);
    Unloadable(st, k, l.file + l.buf);
  }

  lemma SoundLog(st: State)
    requires Rep(st)
    ensures Valid(st.log)
  {}

  lemma Unloadable(st: State, k: nat, f: Bytes)
    requires Rep(st) && st.am.incr != [] && k <= |st.recs| && st.log.file == Encode(st.recs[..k])
    requires st.log.file <= f && |f| > |st.log.file| && f[|st.log.file|] == 0
    ensures LoadDisk(st.disk, WithOpen(st, f)) == None
  {
    hide *;
    var t := f[|st.log.file|..];
    assert f == st.log.file + t;
    HeadTracked(st, k);
    ZeroFails(st.recs[..k], t, st.pre, !Ahead(st));
    LoadWithOpen(st, f);
    RepDisk(st, WithOpen(st, f));
  }

  /** The file keeps its bytes and goes on with a zero. */
  lemma GapInFile(l: Log, env: FlushEnv)
    requires Valid(l) && !AtEnd(l) && Flush(l, env).Some? && Taken(l, env) > 0
    ensures var f := Flush(l, env).value.file; |f| > |l.file| && l.file <= f && f[|l.file|] == 0
  {
    hide Total;
  }

  lemma ZeroFails(rs: seq<Record>, t: Bytes, h: History, last: bool)
    requires WellFormedLog(rs) && t != [] && t[0] == 0
    ensures LoadOne(Journal(Encode(rs) + t), h, last) == None
  {
    hide Encode, Load, PerformAll;
    KnownLog(rs);
    LoadGarbage(rs, t, TABLE, true);
  }

  /** A finished rewrite keeps the log replayable unless the directory sync fails after the rename. */
  lemma RewriteDoneExact(st: State, rdb: bool, persist: Persist, gc: bool, persistGc: Persist)
    requires Rep(st) && Enabled(st, ChildExit(true, rdb, true, persist, gc, persistGc)) && Sds.QuoteSafe(st.prefix)
    ensures var r := RewriteDone(st, true, rdb, true, persist, gc, persistGc);
            r.am.incr != [] && (Replays(r) <==> persist != ReplacedThenFailed)
  {
    var r := RewriteDone(st, true, rdb, true, persist, gc, persistGc);
    if persist != ReplacedThenFailed {
      SamePrefix(st, ChildExit(true, rdb, true, persist, gc, persistGc));
      hide RewriteDone, Replays, Sds.QuoteSafe;
      DoneRep(st, true, rdb, true, persist, gc, persistGc);
      RepReplays(r);
    } else {
      assert r.disk == BaseSwitched(st, rdb).disk && r.prefix == st.prefix;
      hide RewriteDone, Rep, LoadAll, LoadDisk, Sds.QuoteSafe;
      BaseReplaced(st, rdb);
      RepDisk(BaseSwitched(st, rdb), WithOpen(r, r.log.file + r.log.buf));
      MissingBase(st, rdb, WithOpen(r, r.log.file + r.log.buf));
    }
  }

  lemma MissingBase(st: State, rdb: bool, files: Files)
    requires Rep(st) && st.am.baseSeq >= 0
    ensures var named := NewBase(st.am, st.prefix, rdb);
            var temp := MarkedRewritten(named, true).(dirty := false);
            && named.base.value.name != Current(st.am)
            && (named.base.value.name !in files ==> LoadAll(temp, files) == None)
  {
    hide BaseFileName, IncrFileName, Logged, LoadOne;
    var named := NewBase(st.am, st.prefix, rdb);
    var temp := MarkedRewritten(named, true).(dirty := false);
    var ns := Names(temp);
    assert ns == [named.base.value.name, Current(st.am)];
    var base: seq<Bytes> := [named.base.value.name];
    assert ns[..1] == base && base[..0] == [];
    NextNamesUnused(st.prefix, st.am, rdb);
    NameAt(st.am, |Names(st.am)| - 1);
    assert Current(st.am) in Names(st.am);
  }

  /**
   * If it fails that way while opening a new INCR file, the log stays replayable; but until the next
   * rotation a crash that cuts the open file inside a command or a transaction, and no other, makes
   * the server refuse to start, where it would have started before.
   */
  lemma OpenFailureExact(st: State, n: nat)
    requires Rep(st) && Running(st) && st.child.None? && n <= |st.log.file|
    requires NameFits(st.prefix, st.am.incrSeq + 1) && Sds.QuoteSafe(st.prefix)
    ensures var r := OpenNewIncr(st, true, ReplacedThenFailed).0;
            && r.am.incr != [] && r.log == st.log && Replays(r) && n <= |Encode(st.recs)|
            && (LoadDisk(r.disk, WithOpen(r, st.log.file[..n])).Some? <==> !TornEnd(st.recs, n))
            && (!Ahead(st) ==> LoadDisk(st.disk, WithOpen(st, st.log.file[..n])).Some?)
  {
    var r := OpenNewIncr(st, true, ReplacedThenFailed).0;
    NowListed(st);
    hide OpenNewIncr, Rep, TornEnd, LoadDisk, Replays, Sds.QuoteSafe, Ahead;
    OpenRep(st, true, ReplacedThenFailed);
    RepReplays(r);
    CrashLosesOnlyTail(r, n);
    CrashLosesOnlyTail(st, n);
  }

  lemma NowListed(st: State)
    requires Running(st)
    ensures var r := OpenNewIncr(st, true, ReplacedThenFailed).0;
            r.am == st.am && r.log == st.log && Ahead(r) && r.recs == st.recs && r.prefix == st.prefix
  {
    hide IncrFileName;
  }

  /** A journal that ends outside any transaction adds its writes. */
  lemma SettledJournal(rs: seq<Record>, h: History, last: bool)
    requires WellFormedLog(rs) && StateAfter(rs).queue.None?
    ensures LoadOne(Journal(Encode(rs)), h, last) == Some(h + PerformAll(Replay([], 0), StateAfter(rs).executed).history)
  {
    hide Load, StateAfter, PerformAll;
    if rs == [] {
      NoRecords();
      EmptyJournal(h, last);
      assert h + [] == h;
    } else {
      KnownLog(rs);
      LoadWhole(rs, TABLE);
    }
  }

  /** Records loaded on top of a dataset leave it as it is exactly if they do no write. */
  lemma LoadedOnTop(rs: seq<Record>, live: History)
    requires WellFormedLog(rs) && StateAfter(rs).queue.None?
    ensures LoadOne(Journal(Encode(rs)), live, true) == Some(live)
            <==> PerformAll(Replay([], 0), StateAfter(rs).executed).history == []
  {
    hide LoadOne, StateAfter, PerformAll, Encode;
    SettledJournal(rs, live, true);
    var more := PerformAll(Replay([], 0), StateAfter(rs).executed).history;
    assert |live + more| == |live| + |more|;
    assert more == [] ==> live + more == live;
  }

  /**
   * The start that is refused has already truncated the file, so the next one loads what would have
   * loaded at once; if the cut was inside a command of a transaction, the one after the next.
   */
  lemma RefusedStart(st: State, n: nat)
    requires Rep(st) && Running(st) && Ahead(st) && Sds.QuoteSafe(st.prefix) && n <= |st.log.file|
    requires n <= |Encode(st.recs)| && TornEnd(st.recs, n)
    ensures var p := st.log.file[..n];
            && LoadDisk(st.disk, WithOpen(st, p)) == None
            && (LoadDisk(st.disk, WithOpen(st, Left(p, TABLE))).Some? <==> !Damaged(st.recs, n))
            && LoadDisk(st.disk, WithOpen(st, Left(Left(p, TABLE), TABLE))) == Some(CutHistory(st.recs, n, st.pre))
  {
    var p := st.log.file[..n];
    TornLeft(st, n);
    hide Rep, LoadDisk, LoadAll, CutHistory, TornEnd, Sds.QuoteSafe, Left, LoadOne, Damaged;
    CrashLosesOnlyTail(st, n);
    RepDisk(st, WithOpen(st, Left(p, TABLE)));
    RepDisk(st, WithOpen(st, Left(Left(p, TABLE), TABLE)));
    LoadWithOpen(st, Left(p, TABLE));
    LoadWithOpen(st, Left(Left(p, TABLE), TABLE));
  }

  lemma TornLeft(st: State, n: nat)
    requires Rep(st) && n <= |st.log.file| && n <= |Encode(st.recs)| && TornEnd(st.recs, n)
    ensures var p := st.log.file[..n];
            && (LoadOne(Journal(Left(p, TABLE)), st.pre, false).Some? <==> !Damaged(st.recs, n))
            && LoadOne(Journal(Left(Left(p, TABLE), TABLE)), st.pre, false) == Some(CutHistory(st.recs, n, st.pre))
  {
    CutLoads(st, n);
    hide Manifests, LoadClosed, LoadOne, TornEnd, Damaged, CutHistory, Tracks, Encode, Stored;
    var h := st.live[|st.pre|..];
    if Damaged(st.recs, n) { TornTransaction(st.recs, n, st.selected, h, st.pre); } else { TornCommand(st.recs, n, st.selected, h, st.pre); }
  }

  lemma TornCommand(recs: seq<Record>, n: nat, selected: int, h: History, pre: History)
    requires Tracks(recs, selected, h, false) && n <= |Encode(recs)| && TornEnd(recs, n) && !Damaged(recs, n)
    ensures var p := Encode(recs)[..n];
            && LoadOne(Journal(Left(p, TABLE)), pre, false).Some?
            && LoadOne(Journal(Left(Left(p, TABLE), TABLE)), pre, false) == Some(CutHistory(recs, n, pre))
  {
    hide StateAfter, PerformAll, Encode, Load, LoadOne, EncodeRecord;
    var j := Survivors(recs, n);
    KnownLog(recs);
    if n == 0 { NothingLeft(recs, TABLE); assert false; }
    RestartSettles(recs, n, TABLE);
    LoadPrefix(recs, n, TABLE);
    assert WellFormedLog(recs[..j]);
    SettledJournal(recs[..j], pre, false);
    LeftWhole(recs[..j]);
  }

  /** A settled file is left as it is. */
  lemma LeftWhole(rs: seq<Record>)
    requires WellFormedLog(rs) && StateAfter(rs).queue.None?
    ensures Left(Encode(rs), TABLE) == Encode(rs)
  {
    hide StateAfter, Encode, LoadFrom;
    if rs == [] {
      NoRecords();
    } else {
      KnownLog(rs);
      LoadWhole(rs, TABLE);
      assert Encode(rs)[..|Encode(rs)|] == Encode(rs);
    }
  }

  lemma TornTransaction(recs: seq<Record>, n: nat, selected: int, h: History, pre: History)
    requires Tracks(recs, selected, h, false) && n <= |Encode(recs)| && TornEnd(recs, n) && Damaged(recs, n)
    ensures var p := Encode(recs)[..n];
            && LoadOne(Journal(Left(p, TABLE)), pre, false) == None
            && LoadOne(Journal(Left(Left(p, TABLE), TABLE)), pre, false) == Some(CutHistory(recs, n, pre))
  {
    hide StateAfter, PerformAll, Encode, Load, EncodeRecord;
    var j := CommandsEnd(recs[..Whole(recs, n)]);
    KnownLog(recs);
    CutTransactionStays(recs, n, TABLE);
    LoadPrefix(recs, n, TABLE);
    FlatPrefix(recs, j);
    assert WellFormedLog(recs[..j]);
    OpenFile(recs[..j], pre);
  }

  /** A file that ends inside a transaction is refused, and cut back to where the transaction began. */
  lemma OpenFile(rs: seq<Record>, pre: History)
    requires WellFormedLog(rs) && FlatMulti(rs) && StateAfter(rs).queue.Some?
    ensures LoadOne(Journal(Encode(rs)), pre, false) == None
    ensures LoadOne(Journal(Left(Encode(rs), TABLE)), pre, false) == Some(pre + PerformAll(Replay([], 0), StateAfter(rs).executed).history)
  {
    NotEmpty(rs);
    hide StateAfter, PerformAll, Encode, Load, EncodeRecord;
    KnownLog(rs);
    LoadWhole(rs, TABLE);
    var j := BeforeMulti(rs);
    OpenMulti(rs);
    assert WellFormedLog(rs[..j]);
    assert rs[..|rs|] == rs;
    EncodeMonotone(rs, j, |rs|);
    PrefixOfEncoding(rs, j, |Encode(rs)|);
    assert Encode(rs)[..|Encode(rs)|] == Encode(rs);
    hide LoadOne;
    SettledJournal(rs[..j], pre, false);
  }

  /** The records written after a settled point. */
  lemma TailSettled(recs: seq<Record>, k: nat, selected: int, h: History)
    requires Tracks(recs, selected, h, false) && k <= |recs| && StateAfter(recs[..k]).queue.None?
    ensures WellFormedLog(recs[k..]) && StateAfter(recs[k..]).queue.None?
  {
    hide StateAfter, PerformAll, WellFormed;
    assert recs == recs[..k] + recs[k..];
    SettledSplit(recs[..k], recs[k..]);
  }

  /**
   * What the forced flush before a rotation leaves in the buffer goes to the new INCR file although
   * the child's snapshot already has its writes. If the flush stopped between two units, then after
   * the rewrite the log replays to the live dataset if and only if the records left over, loaded on
   * their own, do no write; otherwise those are done twice.
   */
  lemma LeftoverExact(st: State, env: FlushEnv, k: nat, rdb: bool)
    requires Rep(st) && Running(st) && st.child.None? && st.lost == 0 && Sds.QuoteSafe(st.prefix)
    requires NameFits(st.prefix, st.am.incrSeq + 1) && NameFits(st.prefix, st.am.baseSeq + 1)
    requires env.force && Flush(st.log, env).Some? && (AtEnd(st.log) || Taken(st.log, env) == 0)
    requires k <= |st.recs| && StateAfter(st.recs[..k]).queue.None?
    requires st.log.file + st.log.buf[..Taken(st.log, env)] == Encode(st.recs[..k])
    ensures var started := StartRewrite(st, true, env, true, Replaced, true);
            && started.Some? && started.value.child.Some? && started.value.am.baseSeq >= 0
            && var done := RewriteDone(started.value, true, rdb, true, Replaced, false, Replaced);
               && done.am.incr != [] && done.live == st.live
               && (Replays(done) <==> PerformAll(Replay([], 0), StateAfter(st.recs[k..]).executed).history == [])
  {
    StartedWithLeftover(st, env, k);
    hide *;
    var started := StartRewrite(st, true, env, true, Replaced, true).value;
    DoneWithLeftover(st, started, rdb);
    RecsTracked(st, k);
    LoadedOnTop(st.recs[k..], st.live);
    ReplaysIs(RewriteDone(started, true, rdb, true, Replaced, false, Replaced));
  }

  lemma ReplaysIs(st: State)
    requires st.am.incr != []
    ensures Replays(st) <==> LoadDisk(st.disk, WithOpen(st, st.log.file + st.log.buf)) == Some(st.live)
  {
    hide LoadDisk;
  }

  lemma DoneWithLeftover(st: State, started: State, rdb: bool)
    requires Rep(st) && Running(started) && started.child == Some(st.live) && started.live == st.live && Sds.QuoteSafe(st.prefix)
    requires NameFits(st.prefix, st.am.incrSeq + 1) && NameFits(st.prefix, st.am.baseSeq + 1) && st.am.incrSeq >= 0
    requires started.am == NewIncr(st.am, st.prefix).(dirty := false) && started.prefix == st.prefix
    ensures var done := RewriteDone(started, true, rdb, true, Replaced, false, Replaced);
            && done.am.incr != [] && done.live == st.live
            && LoadDisk(done.disk, WithOpen(done, done.log.file + done.log.buf)) ==
               LoadOne(Journal(started.log.file + started.log.buf), st.live, true)
  {
    FileNamesDiffer(st.prefix, st.am.baseSeq + 1, st.am.incrSeq + 1, rdb, rdb);
    hide LoadOne, LoadAll, LoadDisk, BaseFileName, IncrFileName, Sds.QuoteSafe, Legal, Logged, LoadClosed, NameFits, Consistent;
    RotatedConsistent(st.prefix, st.am, rdb);
    BaseAndOpen(started, rdb);
    var done := RewriteDone(started, true, rdb, true, Replaced, false, Replaced);
    assert done.disk == MarkedRewritten(NewBase(started.am, st.prefix, rdb), true).(dirty := false);
    hide RewriteDone, Rep;
    OwnDisk(st.prefix, done.disk, WithOpen(done, done.log.file + done.log.buf));
  }

  /** The manifest after a rotation and a new BASE. */
  lemma RotatedConsistent(prefix: Bytes, am: Manifest, rdb: bool)
    requires Consistent(am, prefix) && NameFits(prefix, am.incrSeq + 1) && NameFits(prefix, am.baseSeq + 1)
    ensures var next := NewIncr(am, prefix).(dirty := false);
            var temp := MarkedRewritten(NewBase(next, prefix, rdb), true).(dirty := false);
            && Consistent(next, prefix) && Consistent(temp, prefix) && Short(prefix, temp) && temp.incr != []
  {
    var next := NewIncr(am, prefix);
    NewIncrConsistent(am, prefix);
    CleanConsistent(next, prefix);
    hide BaseFileName, IncrFileName, Named, NameFits;
    var named := NewBase(next.(dirty := false), prefix, rdb);
    NewBaseConsistent(next.(dirty := false), prefix, rdb);
    RewrittenConsistent(named, prefix, true);
    CleanConsistent(MarkedRewritten(named, true), prefix);
  }

  /**
   * Until the child is done, the old file and the new one are loaded one after the other, each from
   * database 0. The log replays to the live dataset if and only if the flushed records left that
   * database selected, or the records left over select theirs before they write.
   */
  lemma LeftoverBefore(st: State, env: FlushEnv, k: nat)
    requires Rep(st) && Running(st) && st.child.None? && st.lost == 0 && Sds.QuoteSafe(st.prefix)
    requires NameFits(st.prefix, st.am.incrSeq + 1)
    requires env.force && Flush(st.log, env).Some? && (AtEnd(st.log) || Taken(st.log, env) == 0)
    requires k <= |st.recs| && StateAfter(st.recs[..k]).queue.None?
    requires st.log.file + st.log.buf[..Taken(st.log, env)] == Encode(st.recs[..k])
    ensures var started := StartRewrite(st, true, env, true, Replaced, true);
            && started.Some? && started.value.am.incr != []
            && (Replays(started.value) <==>
                PerformAll(Replay([], 0), StateAfter(st.recs[..k]).executed).db == 0 || Selects(StateAfter(st.recs[k..]).executed))
  {
    StartedWithLeftover(st, env, k);
    hide *;
    var started := StartRewrite(st, true, env, true, Replaced, true).value;
    TwoJournals(st, started, k);
    LeftoverHistory(st, k);
    ReplaysIs(started);
  }

  /** Both files, on top of the closed ones. */
  lemma TwoJournals(st: State, started: State, k: nat)
    requires Rep(st) && Running(started) && Sds.QuoteSafe(st.prefix) && NameFits(st.prefix, st.am.incrSeq + 1) && st.am.incrSeq >= 0
    requires k <= |st.recs| && StateAfter(st.recs[..k]).queue.None?
    requires started.am == NewIncr(st.am, st.prefix).(dirty := false) && started.disk == started.am && started.prefix == st.prefix
    requires st.am.incr != []
    requires started.files == st.files[Current(NewIncr(st.am, st.prefix)) := Journal([])][Current(st.am) := Journal(Encode(st.recs[..k]))]
    requires started.log.file + started.log.buf == Encode(st.recs[k..])
    ensures LoadDisk(started.disk, WithOpen(started, started.log.file + started.log.buf)) ==
            Some(st.pre + PerformAll(Replay([], 0), StateAfter(st.recs[..k]).executed).history
                        + PerformAll(Replay([], 0), StateAfter(st.recs[k..]).executed).history)
  {
    var files := WithOpen(started, Encode(st.recs[k..]));
    NextListed(st.prefix, st.am);
    Lawful(st);
    assert Current(started.am) in files && files[Current(started.am)] == Journal(Encode(st.recs[k..]));
    hide *;
    RecsTracked(st, k);
    HeadTracked(st, k);
    OwnDisk(st.prefix, started.disk, files);
    OldStaysClosed(st, Encode(st.recs[..k]), Encode(st.recs[k..]));
    var h := st.pre + PerformAll(Replay([], 0), StateAfter(st.recs[..k]).executed).history;
    SettledJournal(st.recs[..k], st.pre, false);
    LoadLast(started.disk, files, h);
    SettledJournal(st.recs[k..], h, true);
  }

  lemma Lawful(st: State)
    requires Rep(st)
    ensures Legal(st.prefix) && Consistent(st.am, st.prefix) && Short(st.prefix, st.am)
  {}

  lemma NextListed(prefix: Bytes, am: Manifest)
    requires Consistent(am, prefix) && Short(prefix, am) && NameFits(prefix, am.incrSeq + 1)
    ensures var next := NewIncr(am, prefix).(dirty := false);
            Consistent(next, prefix) && Short(prefix, next) && next.incr != [] && ClosedNames(next) == Names(am)
            && Current(next) == Current(NewIncr(am, prefix))
  {
    NewIncrConsistent(am, prefix);
    CleanConsistent(NewIncr(am, prefix), prefix);
    hide IncrFileName, Consistent, NameFits;
  }

  lemma LoadLast(am: Manifest, files: Files, h: History)
    requires am.incr != [] && LoadClosed(ClosedNames(am), files) == Some(h) && Current(am) in files
    ensures LoadAll(am, files) == LoadOne(files[Current(am)], h, true)
  {
    hide LoadOne, LoadClosed;
    NameAt(am, |Names(am)| - 1);
  }

  /** After a rotation the files listed before are read as before it, with the bytes the old one then has. */
  lemma OldStaysClosed(st: State, bytes: Bytes, next: Bytes)
    requires Rep(st) && st.am.incr != [] && st.am.incrSeq >= 0
    ensures var name := Current(NewIncr(st.am, st.prefix));
            LoadClosed(Names(st.am), st.files[name := Journal([])][Current(st.am) := Journal(bytes)][name := Journal(next)])
            == LoadOne(Journal(bytes), st.pre, false)
  {
    var name := Current(NewIncr(st.am, st.prefix));
    NextName(st);
    LoadWithOpen(st, bytes);
    hide LoadOne, LoadClosed, Names, Rep, NewIncr;
    var before, files := WithOpen(st, bytes), st.files[name := Journal([])][Current(st.am) := Journal(bytes)][name := Journal(next)];
    forall i | 0 <= i < |Names(st.am)|
      ensures var n := Names(st.am)[i]; (n in before <==> n in files) && (n in files ==> files[n] == before[n])
    {}
    ClosedFrame(Names(st.am), before, files);
  }

  lemma HeadTracked(st: State, k: nat)
    requires Rep(st) && k <= |st.recs|
    ensures WellFormedLog(st.recs[..k])
  {
    hide Manifests, LoadClosed, StateAfter, Stored, PerformAll, WellFormed;
  }

  lemma LeftoverHistory(st: State, k: nat)
    requires Rep(st) && k <= |st.recs| && StateAfter(st.recs[..k]).queue.None?
    ensures var a, b := StateAfter(st.recs[..k]).executed, StateAfter(st.recs[k..]).executed;
            st.pre + PerformAll(Replay([], 0), a).history + PerformAll(Replay([], 0), b).history == st.live
            <==> PerformAll(Replay([], 0), a).db == 0 || Selects(b)
  {
    hide Manifests, LoadClosed, StateAfter, Stored, PerformAll, WellFormed, Selects;
    assert st.recs == st.recs[..k] + st.recs[k..];
    SettledSplit(st.recs[..k], st.recs[k..]);
    var a, b := StateAfter(st.recs[..k]).executed, StateAfter(st.recs[k..]).executed;
    PerformAppend(Replay([], 0), a, b);
    var r := PerformAll(Replay([], 0), a);
    assert r.history + [] == r.history;
    PerformFrom(r.history, [], r.db, b);
    SameFromZero(r.db, b);
    assert Pending(StateAfter(st.recs)) == a + b;
    var x, y := PerformAll(Replay([], 0), b).history, PerformAll(Replay([], r.db), b).history;
    assert st.live == st.pre + (r.history + y);
    SameTail(st.pre, r.history, x, y);
  }

  lemma SameTail(p: History, h: History, x: History, y: History)
    ensures p + h + x == p + (h + y) <==> x == y
  {
    assert (p + h + x)[|p| + |h|..] == x && (p + (h + y))[|p| + |h|..] == y;
    assert p + (h + y) == p + h + y;
  }

  lemma RecsTracked(st: State, k: nat)
    requires Rep(st) && k <= |st.recs| && StateAfter(st.recs[..k]).queue.None?
    ensures WellFormedLog(st.recs[k..]) && StateAfter(st.recs[k..]).queue.None?
  {
    hide Manifests, LoadClosed, Tracks, StateAfter, Stored;
    TailSettled(st.recs, k, st.selected, st.live[|st.pre|..]);
  }

  lemma StartedWithLeftover(st: State, env: FlushEnv, k: nat)
    requires Rep(st) && Running(st) && st.child.None? && st.lost == 0
    requires Flush(st.log, env).Some? && (AtEnd(st.log) || Taken(st.log, env) == 0)
    requires k <= |st.recs| && st.log.file + st.log.buf[..Taken(st.log, env)] == Encode(st.recs[..k])
    ensures var r := StartRewrite(st, true, env, true, Replaced, true);
            && r.Some? && Running(r.value) && r.value.child == Some(st.live) && r.value.live == st.live
            && r.value.log.file + r.value.log.buf == Encode(st.recs[k..])
            && r.value.am == NewIncr(st.am, st.prefix).(dirty := false) && r.value.prefix == st.prefix && r.value.disk == r.value.am
            && r.value.files == st.files[Current(NewIncr(st.am, st.prefix)) := Journal([])][Current(st.am) := Journal(Encode(st.recs[..k]))]
  {
    hide Flush, IncrFileName, Taken, Tracks, LoadClosed, Encode;
    FlushTakes(st.log, env);
    var l := Flush(st.log, env).value;
    assert st.recs == st.recs[..k] + st.recs[k..];
    EncodeAppend(st.recs[..k], st.recs[k..]);
    assert l.file + l.buf == st.log.file + st.log.buf;
    assert l.buf == Encode(st.recs)[|l.file|..];
    assert [] + l.buf == l.buf;
  }

  lemma TwoFiles(am: Manifest, files: Files, base: Bytes, open: Bytes, h: History)
    requires Names(am) == [base, open] && base in files && files[base] == Snapshot(h) && open in files
    ensures LoadAll(am, files) == LoadOne(files[open], h, true)
  {
    hide LoadOne;
    assert Names(am)[..1] == [base];
    OneSnapshot(base, files, h);
  }

  lemma BaseAndOpen(st: State, rdb: bool)
    requires Running(st) && st.child.Some?
    requires NewBase(st.am, st.prefix, rdb).base.value.name != Current(st.am)
    ensures var done := RewriteDone(st, true, rdb, true, Replaced, false, Replaced);
            && done.am.incr != [] && done.live == st.live
            && LoadAll(done.disk, WithOpen(done, done.log.file + done.log.buf)) ==
               LoadOne(Journal(st.log.file + st.log.buf), st.child.value, true)
  {
    hide BaseFileName, IncrFileName, LoadOne, LoadAll;
    var done := RewriteDone(st, true, rdb, true, Replaced, false, Replaced);
    var name := NewBase(st.am, st.prefix, rdb).base.value.name;
    assert Names(done.disk) == [name, Current(st.am)];
    TwoFiles(done.disk, WithOpen(done, done.log.file + done.log.buf), name, Current(st.am), st.child.value);
  }
}
