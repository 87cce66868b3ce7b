/**
 * The server fields of the append-only log and the functions of aof.c that change them in place.
 * Each method is proved against the step of AofServer it implements. `Valid()` is the object's
 * invariant: every method keeps it on a safe step, and in a valid object with a quote-safe file
 * name the files on disk followed by the buffer replay to the live dataset.
 */
module AofInstance {
  import opened Wrappers
  import opened Words
  import opened Decimal
  import opened AofProtocol
  import opened AofManifest
  import opened AofFlush
  import opened AofFeed
  import opened AofServer
  import opened ManifestNames
  import ManifestText
  import Sds

  class Server {
    const prefix: Bytes
    var files: Files
    var disk: Manifest
    var am: Manifest
    var log: Log
    var selected: int
    var live: History
    var child: Option<History>
    ghost var pre: History
    ghost var recs: seq<Record>
    ghost var lost: nat

    ghost function Abs(): (st: State)
      reads this
    {
      State(prefix, files, disk, am, log, selected, live, child, pre, recs, lost)
    }

    ghost predicate Valid()
      reads this
    {
      Rep(Abs())
    }

    /** A valid server about to take a step that keeps it valid. */
    ghost predicate Ready(e: Event)
      reads this
    {
      Valid() && Enabled(Abs(), e) && Safe(Abs(), e)
    }

    constructor (filename: Bytes, rdb: bool)
      requires Legal(filename) && NameFits(filename, 1)
      ensures Abs() == Start(filename, rdb) && Valid()
    {
      var m := NewBase(EMPTY, filename, rdb);
      prefix := filename;
      files := map[m.base.value.name := Snapshot([])];
      am := NewIncr(m, filename).(dirty := false);
      disk := NewIncr(m, filename).(dirty := false);
      log := Log([], Fd(true, 0), [], 0, 0, true);
      selected, live, child, pre, recs, lost := -1, [], None, [], [], 0;
      new;
      StartRep(filename, rdb);
    }

    /** The AOF part of propagatePendingCommands, after the unit has run. */
    method PropagateUnit(ops: seq<Op>, stamps: seq<Option<nat>>, transaction: bool)
      requires |stamps| == |ops| + 2
      modifies this
      ensures Abs() == Feed(old(Abs()), ops, stamps, transaction)
      ensures old(Ready(Unit(ops, stamps, transaction))) ==> Valid()
    {
      hide Rep, Safe, UnitRecords, Effects, Appended, SelectedOps, Encode, PropagatedAll, DueStamps;
      ghost var rs := UnitRecords(selected, ops, stamps, transaction);
      live := live + Effects(ops);
      recs, lost := Appended(recs, lost, rs), if rs == [] then lost else 0;
      var buf, sel := Propagate(log.buf, selected, ops, stamps, transaction);
      log, selected := log.(buf := buf), sel;
      StepKeeps(old(Abs()), Unit(ops, stamps, transaction), Some(Abs()));
    }

    /** flushAppendOnlyFile; false when the process exits. */
    method FlushAppendOnlyFile(env: FlushEnv) returns (running: bool)
      modifies this
      ensures running == Flush(old(log), env).Some?
      ensures running ==> Abs() == old(Abs()).(log := Flush(old(log), env).value)
      ensures running && old(Ready(Flushing(env))) ==> Valid()
    {
      hide Flush, Rep;
      var l := FlushLog(log, env);
      running := l.Some?;
      if running {
        log := l.value;
        StepKeeps(old(Abs()), Flushing(env), Some(Abs()));
      }
    }

    /** No child runs, the new file can be created, and nothing is buffered if the switch succeeds. */
    ghost predicate MayOpen(openOk: bool, persist: Persist)
      reads this
    {
      && Valid() && child.None? && (openOk ==> NameFits(prefix, am.incrSeq + 1))
      && (openOk && persist == Replaced ==> log.buf == [] && selected == -1)
    }

    /** openNewIncrAofForAppend */
    method OpenNewIncrAofForAppend(openOk: bool, persist: Persist) returns (ok: bool)
      requires am.incr != [] && am.incrSeq >= 0
      modifies this
      ensures (Abs(), ok) == OpenNewIncr(old(Abs()), openOk, persist)
      ensures ok <==> openOk && persist == Replaced
      ensures ok ==> log.file == [] && log.fd == Fd(false, 0)
      ensures old(MayOpen(openOk, persist)) ==> Valid()
    {
      hide Rep, NameFits, IncrFileName;
      if MayOpen(openOk, persist) { OpenRep(Abs(), openOk, persist); }
      var temp := NewIncr(am, prefix);
      if !openOk { return false; }
      files := files[Current(temp) := Journal([])];
      if persist != Untouched { disk := temp.(dirty := false); }
      if persist != Replaced { return false; }
      files := files[Current(am) := Journal(log.file)];
      log := log.(file := [], fd := Fd(false, 0));
      log := log.(size := 0);
      am := temp.(dirty := false);
      pre, recs, lost := live, [], 0;
      return true;
    }

    /** rewriteAppendOnlyFileBackground; `running` is false when the process exits. */
    method RewriteAppendOnlyFileBackground(dirOk: bool, env: FlushEnv, openOk: bool, persist: Persist, forkOk: bool)
      returns (running: bool)
      requires am.incr != [] && am.incrSeq >= 0
      modifies this
      ensures running == StartRewrite(old(Abs()), dirOk, env, openOk, persist, forkOk).Some?
      ensures running ==> Abs() == StartRewrite(old(Abs()), dirOk, env, openOk, persist, forkOk).value
      ensures running && old(Ready(Rewrite(dirOk, env, openOk, persist, forkOk))) ==> Valid()
    {
      hide Flush, Rep;
      ghost var st := Abs();
      if child.Some? { return true; }
      if !dirOk { return true; }
      selected := -1;
      running := FlushAppendOnlyFile(env);
      if !running { return; }
      var ok := OpenNewIncrAofForAppend(openOk, persist);
      if ok && forkOk { child := Some(live); }
      StepKeeps(st, Rewrite(dirOk, env, openOk, persist, forkOk), Some(Abs()));
      return true;
    }

    /** aofDelHistoryFiles */
    method AofDelHistoryFiles(gc: bool, persist: Persist)
      modifies this
      ensures Abs() == DelHistory(old(Abs()), gc, persist)
      ensures old(Valid() && !Ahead(Abs())) ==> Valid()
      ensures !gc ==> files == old(files) && am == old(am)
      ensures gc ==> am.history == [] && forall i :: 0 <= i < |old(am).history| ==> old(am).history[i].name !in files
      ensures forall n :: n in old(files) && (forall i :: 0 <= i < |old(am).history| ==> old(am).history[i].name != n) ==>
                n in files && files[n] == old(files)[n]
    {
      hide Rep;
      if gc && |am.history| != 0 {
        UnlinkHistory();
        am := am.(dirty := true);
        if persist != Untouched { disk := am.(dirty := false); }
        if persist == Replaced { am := am.(dirty := false); }
      }
      if old(Valid() && !Ahead(Abs())) { DelHistoryRep(old(Abs()), gc, persist); }
    }

    /** The loop of aofDelHistoryFiles: every history file is unlinked and taken off the list. */
    method UnlinkHistory()
      modifies `files, `am
      ensures files == old(files) - HistoryNames(old(am)) && am == old(am).(history := [])
    {
      hide HistoryNames;
      ghost var gone: set<Bytes> := {};
      while |am.history| > 0
        invariant am == old(am).(history := am.history)
        invariant files == old(files) - gone && gone + HistoryNames(am) == HistoryNames(old(am))
        decreases |am.history|
      {
        FirstHistory(am);
        var name := am.history[0].name;
        assert old(files) - gone - {name} == old(files) - (gone + {name});
        files, gone := files - {name}, gone + {name};
        am := am.(history := am.history[1..]);
      }
      NoHistory(am);
    }

    /** backgroundRewriteDoneHandler with AOF on. */
    method BackgroundRewriteDoneHandler(success: bool, rdb: bool, renameOk: bool, persist: Persist, gc: bool, persistGc: Persist)
      requires child.Some? && am.baseSeq >= 0
      modifies this
      ensures Abs() == RewriteDone(old(Abs()), success, rdb, renameOk, persist, gc, persistGc)
      ensures old(Ready(ChildExit(success, rdb, renameOk, persist, gc, persistGc))) ==> Valid()
    {
      hide DelHistory, Rep, Safe, MarkedRewritten, BaseFileName;
      StepKeeps(Abs(), ChildExit(success, rdb, renameOk, persist, gc, persistGc),
           Some(RewriteDone(Abs(), success, rdb, renameOk, persist, gc, persistGc)));
      var snapshot := child.value;
      child := None;
      if !success { return; }
      var temp := NewBase(am, prefix, rdb);
      var base := temp.base.value.name;
      if !renameOk { return; }
      files := files[base := Snapshot(snapshot)];
      temp := MarkRewrittenIncrAofAsHistory(temp, true);
      if persist != Untouched { disk := temp.(dirty := false); }
      if persist != Replaced {
        files := files - {base};
        return;
      }
      am := temp.(dirty := false);
      AofDelHistoryFiles(gc, persistGc);
    }

    /** A crash that keeps the first `kept` bytes of the open file, and the start after it. */
    method RestartServer(kept: nat, gc: bool, persistGc: Persist) returns (running: bool)
      requires Enabled(Abs(), Crash(kept, gc, persistGc))
      modifies this
      ensures running == Restart(old(Abs()), kept, gc, persistGc).Some?
      ensures running ==> Abs() == Restart(old(Abs()), kept, gc, persistGc).value
      ensures old(Ready(Crash(kept, gc, persistGc))) ==> running && Valid() && live <= old(live)
    {
      hide Rep, Safe, Reopen, Holds, DelHistory, ManifestText.ThroughText, ManifestText.Entries;
      ghost var st := Abs();
      running := LoadDataFromDisk(kept);
      if running { AofDelHistoryFiles(gc, persistGc); }
      RestartKeeps(st, kept, gc, persistGc, running, Abs());
    }

    /** aofLoadManifestFromDisk, loadDataFromDisk and aofOpenIfNeededOnServerStart; false when one of them exits. */
    method LoadDataFromDisk(kept: nat) returns (running: bool)
      requires Enabled(Abs(), Crash(kept, false, Untouched))
      modifies this
      ensures running == Reopen(old(Abs()), kept).Some?
      ensures running ==> Abs() == Reopen(old(Abs()), kept).value
    {
      hide Rep, Safe, Reopen, Holds, ManifestText.ThroughText, ManifestText.Entries;
      ghost var st := Abs();
      var r := LoadFiles(st, files, disk, am, log.file[..kept]);
      running := r.Some?;
      if running {
        files, log, live, am := r.value.0, r.value.1, r.value.2, r.value.3;
        selected, child := -1, None;
        ghost var up := Reopen(st, kept).value;
        pre, recs, lost := up.pre, up.recs, up.lost;
      }
    }

    /** One event of the server's life; false when the process exits. */
    method Handle(e: Event) returns (running: bool)
      requires Enabled(Abs(), e)
      modifies this
      ensures running == Step(old(Abs()), e).Some?
      ensures running ==> Abs() == Step(old(Abs()), e).value
      ensures running && old(Ready(e)) ==> Valid()
    {
      hide Rep, Feed, StartRewrite, RewriteDone, Restart, Flush, Safe;
      running := true;
      match e
      case Unit(ops, stamps, transaction) => PropagateUnit(ops, stamps, transaction);
      case Flushing(env) => running := FlushAppendOnlyFile(env);
      case Rewrite(dirOk, env, openOk, persist, forkOk) =>
        running := RewriteAppendOnlyFileBackground(dirOk, env, openOk, persist, forkOk);
      case ChildExit(success, rdb, renameOk, persist, gc, persistGc) =>
        BackgroundRewriteDoneHandler(success, rdb, renameOk, persist, gc, persistGc);
      case Crash(kept, gc, persistGc) => running := RestartServer(kept, gc, persistGc);
    }

    /** A whole safe run: unless the process exits, what is on disk and buffered replays to the live dataset, if the manifest can be read. */
    method Serve(es: seq<Event>) returns (running: bool)
      requires Valid() && Runs(Abs(), es)
      modifies this
      ensures running == After(old(Abs()), es).Some?
      ensures running ==> Abs() == After(old(Abs()), es).value
      ensures running ==> Valid() && am.incr != [] && (Replays(Abs()) <==> Sds.QuoteSafe(prefix))
    {
      hide Rep, Enabled, Safe, Step, Replays, Sds.QuoteSafe;
      var left := es;
      while left != []
        invariant Valid() && Runs(Abs(), left)
        invariant After(Abs(), left) == After(old(Abs()), es)
        decreases |left|
      {
        running := Handle(left[0]);
        if !running { return; }
        left := left[1..];
      }
      RepRunning(Abs());
      RepReplays(Abs());
      return true;
    }
  }

  lemma FirstHistory(am: Manifest)
    requires am.history != []
    ensures HistoryNames(am) == {am.history[0].name} + HistoryNames(am.(history := am.history[1..]))
  {
    forall n | n in HistoryNames(am) ensures n in {am.history[0].name} + HistoryNames(am.(history := am.history[1..])) {
      var i :| 0 <= i < |am.history| && n == am.history[i].name;
      if i > 0 { assert am.history[1..][i - 1] == am.history[i]; }
    }
  }

  lemma NoHistory(am: Manifest)
    requires am.history == []
    ensures HistoryNames(am) == {}
  {}

  /** The files, the log, the dataset and the manifest of the restarted server; the manifest is read from its text. */
  method LoadFiles(ghost st: State, files: Files, disk: Manifest, am: Manifest, p: Bytes)
    returns (r: Option<(Files, Log, History, Manifest)>)
    requires Enabled(st, Crash(|p|, false, Untouched)) && st.files == files && st.disk == disk && st.am == am && p <= st.log.file
    ensures match Reopen(st, |p|)
            case None => r == None
            case Some(up) =>
              && r == Some((up.files, up.log, up.live, up.am))
              && up == st.(files := up.files, am := up.am, log := up.log, selected := -1,
                           live := up.live, child := None, pre := up.pre, recs := up.recs, lost := up.lost)
  {
    hide LoadAll, Load, Remaining, Holds, Encode, OpenBytes, ManifestText.LoadLines, ManifestText.Lines, ManifestText.Entries;
    assert st.log.file[..|p|] == p;
    var text := ManifestText.PrintManifest(disk);
    var read := ManifestText.LoadManifest(text);
    assert ManifestText.ThroughText(disk) == read;
    if read.Err? { return None; }
    hide ManifestText.ThroughText;
    var here := files[Current(am) := Journal(p)];
    var loaded := LoadAppendOnlyFiles(read.value, here);
    if loaded.None? { return None; }
    if disk.incrSeq != am.incrSeq {
      var bytes := OpenBytes(files, Current(disk));
      return Some((here, Log(bytes, Fd(true, 0), [], |bytes|, 0, true), loaded.value, read.value));
    }
    var single := LoadSingleFile(p, TABLE, true);
    var file := if single.size <= |p| then p[..single.size] else p;
    return Some((files, Log(file, Fd(true, 0), [], |file|, 0, true), loaded.value, read.value));
  }

  lemma RestartKeeps(st: State, kept: nat, gc: bool, persistGc: Persist, running: bool, r: State)
    requires Enabled(st, Crash(kept, gc, persistGc)) && running == Restart(st, kept, gc, persistGc).Some?
    requires running ==> r == Restart(st, kept, gc, persistGc).value
    ensures Rep(st) && Safe(st, Crash(kept, gc, persistGc)) ==> running && Rep(r) && r.live <= st.live
  {
    hide Rep, Safe, Restart;
    if Rep(st) && Safe(st, Crash(kept, gc, persistGc)) { RestartRep(st, kept, gc, persistGc); }
  }

  /** StepRep, for the states a method starts from and ends in. */
  lemma StepKeeps(st: State, e: Event, r: Option<State>)
    requires Rep(st) && Enabled(st, e) && Safe(st, e) ==> r == Step(st, e) && r.Some?
    ensures Rep(st) && Enabled(st, e) && Safe(st, e) ==> Rep(r.value)
  {
    if Rep(st) && Enabled(st, e) && Safe(st, e) {
      hide *;
      StepRep(st, e);
    }
  }
}
