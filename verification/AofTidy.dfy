/**
 * Which files the append-only log leaves in its directory (aof.c). In every run each of them is
 * listed in the manifest, in memory and on disk, but for at most one INCR file that was created and
 * not taken into use; a finished rewrite leaves only the new BASE and the open INCR besides it.
 */
module AofTidy {
  import opened Wrappers
  import opened Words
  import opened Decimal
  import opened AofProtocol
  import opened AofRecovery
  import opened AofManifest
  import opened AofFlush
  import opened AofFeed
  import opened ManifestNames
  import opened AofServer
  import opened AofOutcomes
  import ManifestText
  import Sds

  function Listed(am: Manifest): (ns: set<Bytes>) { Live(am) + HistoryNames(am) }

  /** The next INCR file: there already if opening it went wrong halfway. */
  function Next(st: State): (n: Bytes)
    requires st.am.incrSeq >= 0
  {
    IncrFileName(st.prefix, st.am.incrSeq + 1)
  }

  predicate Tidy(st: State) {
    st.am.incrSeq >= 0 && st.files.Keys <= Listed(st.am) * Listed(st.disk) + {Next(st)}
  }

  // ----- What the manifest operations list -----

  lemma IncrListed(am: Manifest, prefix: Bytes)
    requires am.incrSeq >= 0
    ensures Listed(NewIncr(am, prefix)) == Listed(am) + {IncrFileName(prefix, am.incrSeq + 1)}
  {
    hide IncrFileName;
    var next := NewIncr(am, prefix);
    forall n ensures n in Live(next) <==> n in Live(am) || n == IncrFileName(prefix, am.incrSeq + 1) {
      if n in Live(am) && !(am.base.Some? && am.base.value.name == n) {
        var i :| 0 <= i < |am.incr| && am.incr[i].name == n;
        assert next.incr[i].name == n;
      }
      assert next.incr[|am.incr|].name == IncrFileName(prefix, am.incrSeq + 1);
    }
  }

  lemma RewrittenListed(am: Manifest, prefix: Bytes, rdb: bool)
    requires am.baseSeq >= 0 && am.incr != []
    ensures var temp := MarkedRewritten(NewBase(am, prefix, rdb), true).(dirty := false);
            Listed(temp) == Listed(am) + {BaseFileName(prefix, am.baseSeq + 1, rdb)}
  {
    hide BaseFileName;
    var temp := MarkedRewritten(NewBase(am, prefix, rdb), true).(dirty := false);
    forall n ensures n in Listed(temp) <==> n in Listed(am) + {BaseFileName(prefix, am.baseSeq + 1, rdb)} {
      RewrittenLists(am, prefix, rdb, n);
    }
  }

  lemma RewrittenLists(am: Manifest, prefix: Bytes, rdb: bool, n: Bytes)
    requires am.baseSeq >= 0 && am.incr != []
    ensures var temp := MarkedRewritten(NewBase(am, prefix, rdb), true).(dirty := false);
            n in Listed(temp) <==> n in Listed(am) || n == BaseFileName(prefix, am.baseSeq + 1, rdb)
  {
    var temp := MarkedRewritten(NewBase(am, prefix, rdb), true).(dirty := false);
    assert temp.incr == [am.incr[|am.incr| - 1]] && temp.base.value.name == BaseFileName(prefix, am.baseSeq + 1, rdb);
    hide BaseFileName, NewBase, MarkedRewritten;
    ReplacedNames(am, prefix, rdb, n);
  }

  lemma DeletedListed(am: Manifest, r: Manifest)
    requires r.base == am.base && r.incr == am.incr && r.history == []
    ensures Listed(r) == Live(am)
  {
    assert HistoryNames(r) == {};
  }

  lemma ReloadedListed(am: Manifest)
    ensures Listed(ManifestText.Reloaded(am)) == Listed(am)
  {
    var r := ManifestText.Reloaded(am);
    assert HistoryNames(r) == HistoryNames(am);
  }

  // ----- Each step -----

  lemma DeletedTidy(st: State, gc: bool, persist: Persist)
    requires Tidy(st)
    ensures Tidy(DelHistory(st, gc, persist))
  {
    if gc && st.am.history != [] {
      var r := DelHistory(st, gc, persist);
      DeletedListed(st.am, r.am);
      DeletedListed(st.am, r.am.(dirty := false));
      hide IncrFileName, Live, HistoryNames;
    }
  }

  lemma OpenedTidy(st: State, openOk: bool, persist: Persist)
    requires Tidy(st) && st.am.incr != []
    ensures Tidy(OpenNewIncr(st, openOk, persist).0)
  {
    IncrListed(st.am, st.prefix);
    var temp := NewIncr(st.am, st.prefix);
    assert Listed(temp.(dirty := false)) == Listed(temp);
    assert Current(st.am) in Live(st.am);
    assert Current(temp) == Next(st);
    hide IncrFileName, Listed, Live;
  }

  lemma NamedTidy(st: State, temp: Manifest, base: Bytes, h: History)
    requires Tidy(st) && Listed(temp) == Listed(st.am) + {base} && temp.incrSeq == st.am.incrSeq
    ensures Tidy(st.(child := None, files := st.files[base := Snapshot(h)], disk := temp, am := temp))
    ensures Tidy(st.(child := None, files := st.files[base := Snapshot(h)] - {base}, disk := temp))
  {
    hide Listed, IncrFileName;
  }

  lemma DoneIs(st: State, rdb: bool, persist: Persist, gc: bool, persistGc: Persist)
    requires st.child.Some? && st.am.baseSeq >= 0
    ensures var base := BaseFileName(st.prefix, st.am.baseSeq + 1, rdb);
            var temp := MarkedRewritten(NewBase(st.am, st.prefix, rdb), true).(dirty := false);
            var files := st.files[base := Snapshot(st.child.value)];
            && temp.incrSeq == st.am.incrSeq
            && RewriteDone(st, true, rdb, true, persist, gc, persistGc) ==
               match persist
               case Replaced => DelHistory(st.(child := None, files := files, disk := temp, am := temp), gc, persistGc)
               case Untouched => st.(child := None, files := files - {base})
               case ReplacedThenFailed => st.(child := None, files := files - {base}, disk := temp)
  {
    hide BaseFileName, DelHistory;
  }

  lemma DoneTidy(st: State, success: bool, rdb: bool, renameOk: bool, persist: Persist, gc: bool, persistGc: Persist)
    requires Tidy(st) && st.child.Some? && st.am.baseSeq >= 0 && st.am.incr != []
    ensures Tidy(RewriteDone(st, success, rdb, renameOk, persist, gc, persistGc))
  {
    if success && renameOk {
      DoneIs(st, rdb, persist, gc, persistGc);
      hide *;
      var base := BaseFileName(st.prefix, st.am.baseSeq + 1, rdb);
      var temp := MarkedRewritten(NewBase(st.am, st.prefix, rdb), true).(dirty := false);
      RewrittenListed(st.am, st.prefix, rdb);
      NamedTidy(st, temp, base, st.child.value);
      match persist
      case Replaced =>
        DeletedTidy(st.(child := None, files := st.files[base := Snapshot(st.child.value)], disk := temp, am := temp), gc, persistGc);
      case Untouched => FewerTidy(st, st.files[base := Snapshot(st.child.value)] - {base});
      case ReplacedThenFailed =>
    }
  }

  lemma FewerTidy(st: State, files: Files)
    requires Tidy(st) && files.Keys <= st.files.Keys
    ensures Tidy(st.(child := None, files := files))
  {
    hide Listed, IncrFileName;
  }

  lemma ReopenedFiles(st: State, kept: nat)
    requires st.am.incr != [] && st.disk.incr != [] && kept <= |st.log.file| && Holds(st)
    ensures Reopen(st, kept).Some? ==>
              var up := Reopen(st, kept).value;
              && ManifestText.ThroughText(st.disk) == Ok(up.am) && up.prefix == st.prefix && up.disk == st.disk
              && up.files.Keys <= st.files.Keys + {Current(st.am)}
  {
    hide ManifestText.ThroughText, LoadAll, Left, Remaining, OpenBytes, Ahead;
  }

  /** The manifest on disk counts on from the file it lists last. */
  lemma DiskCounts(st: State)
    requires Manifests(st.prefix, st.am, st.disk) && st.am.incrSeq >= 0
    ensures st.disk.incr != [] && ManifestText.Reloaded(st.disk).incrSeq == st.disk.incrSeq
    ensures st.disk.incrSeq == st.am.incrSeq || (st.disk.incrSeq == st.am.incrSeq + 1 && IncrFileName(st.prefix, st.am.incrSeq + 1) in Live(st.disk))
    ensures Current(st.am) in Live(st.disk)
  {
    hide Consistent, Legal, Short, IncrFileName;
    var k := |st.am.incr| - 1;
    assert st.disk.incr[k].name == Current(st.am);
    if !SameLive(st.am, st.disk) { assert st.disk.incr[k + 1].name == IncrFileName(st.prefix, st.am.incrSeq + 1); }
  }

  lemma ReopenedTidy(st: State, kept: nat)
    requires Rep(st) && Tidy(st) && Enabled(st, Crash(kept, false, Untouched))
    ensures Reopen(st, kept).Some? ==> Tidy(Reopen(st, kept).value)
  {
    OwnDisk(st.prefix, st.disk, st.files);
    ReloadedListed(st.disk);
    ReopenedFiles(st, kept);
    DiskCounts(st);
    hide *;
    if Reopen(st, kept).Some? { TidyAgain(st, Reopen(st, kept).value); }
  }

  lemma TidyAgain(st: State, up: State)
    requires Tidy(st) && st.am.incr != [] && up.am.incrSeq == st.disk.incrSeq && up.prefix == st.prefix && up.disk == st.disk
    requires Listed(up.am) == Listed(st.disk) && up.files.Keys <= st.files.Keys + {Current(st.am)}
    requires st.disk.incrSeq == st.am.incrSeq || (st.disk.incrSeq == st.am.incrSeq + 1 && IncrFileName(st.prefix, st.am.incrSeq + 1) in Live(st.disk))
    requires Current(st.am) in Live(st.disk)
    ensures Tidy(up)
  {
    hide IncrFileName, Live, HistoryNames, Current;
  }

  lemma StepTidy(st: State, e: Event)
    requires Rep(st) && Tidy(st) && Enabled(st, e)
    ensures Step(st, e).Some? ==> Tidy(Step(st, e).value)
  {
    hide Rep, Tidy, Feed, Flush, Reopen, OpenNewIncr, RewriteDone, DelHistory, PropagatedAll, DueStamps, Holds, ManifestText.Numbered, ManifestText.Entries, NameFits;
    match e
    case Unit(ops, stamps, transaction) => FedTidy(st, ops, stamps, transaction);
    case Flushing(env) => if Step(st, e).Some? { SameFilesTidy(st, Step(st, e).value); }
    case Rewrite(dirOk, env, openOk, persist, forkOk) =>
      if st.child.None? && dirOk && Flush(st.log, env).Some? {
        var begun := st.(selected := -1, log := Flush(st.log, env).value);
        SameFilesTidy(st, begun);
        OpenedTidy(begun, openOk, persist);
        var rotated := OpenNewIncr(begun, openOk, persist).0;
        SameFilesTidy(rotated, rotated.(child := Some(st.live)));
      }
    case ChildExit(success, rdb, renameOk, persist, gc, persistGc) =>
      DoneTidy(st, success, rdb, renameOk, persist, gc, persistGc);
    case Crash(kept, gc, persistGc) =>
      ReopenedTidy(st, kept);
      if Reopen(st, kept).Some? { DeletedTidy(Reopen(st, kept).value, gc, persistGc); }
  }

  lemma SameFilesTidy(st: State, r: State)
    requires Tidy(st) && r.files == st.files && r.am == st.am && r.disk == st.disk && r.prefix == st.prefix
    ensures Tidy(r)
  {}

  lemma FedTidy(st: State, ops: seq<Op>, stamps: seq<Option<nat>>, transaction: bool)
    requires Tidy(st) && |stamps| == |ops| + 2
    ensures Tidy(Feed(st, ops, stamps, transaction))
  {
    hide Listed, IncrFileName, UnitRecords, SelectedOps, Effects, Appended, Encode;
  }

  lemma {:induction false} RunTidy(st: State, es: seq<Event>)
    requires Rep(st) && Tidy(st) && Runs(st, es)
    ensures After(st, es).Some? ==> Tidy(After(st, es).value)
    decreases es
  {
    hide Rep, Tidy, Enabled, Safe, Step;
    if es != [] && Step(st, es[0]).Some? {
      StepRep(st, es[0]);
      StepTidy(st, es[0]);
      RunTidy(Step(st, es[0]).value, es[1..]);
    }
  }

  lemma StartTidy(prefix: Bytes, rdb: bool)
    ensures Tidy(Start(prefix, rdb))
  {
    hide BaseFileName, IncrFileName;
    var st := Start(prefix, rdb);
    assert st.am.base.value.name in Live(st.am);
  }

  lemma RunsTidy(prefix: Bytes, rdb: bool, es: seq<Event>)
    requires Legal(prefix) && NameFits(prefix, 1)
    requires Runs(Start(prefix, rdb), es) && After(Start(prefix, rdb), es).Some?
    ensures var st := After(Start(prefix, rdb), es).value; Rep(st) && Running(st) && Tidy(st) && st.prefix == prefix
  {
    assert Start(prefix, rdb).prefix == prefix;
    hide Rep, Start, Runs, After, Tidy, Running;
    StartRep(prefix, rdb);
    StartTidy(prefix, rdb);
    RunRep(Start(prefix, rdb), es);
    RunTidy(Start(prefix, rdb), es);
    RepRunning(After(Start(prefix, rdb), es).value);
  }

  /** In every state a safe run reaches, each file is listed in both manifests, or is the next INCR file. */
  lemma EveryFileListed(prefix: Bytes, rdb: bool, es: seq<Event>, n: Bytes)
    requires Legal(prefix) && NameFits(prefix, 1)
    requires Runs(Start(prefix, rdb), es) && After(Start(prefix, rdb), es).Some?
    ensures var st := After(Start(prefix, rdb), es).value;
            && Running(st)
            && (n in st.files ==> (n in Listed(st.am) && n in Listed(st.disk)) || n == IncrFileName(prefix, st.am.incrSeq + 1))
  {
    RunsTidy(prefix, rdb, es);
    hide Rep, Start, Runs, After, IncrFileName, Listed;
  }

  lemma CleanedFiles(st: State, rdb: bool, persistGc: Persist, n: Bytes)
    requires Rep(st) && Running(st) && Tidy(st) && Enabled(st, ChildExit(true, rdb, true, Replaced, true, persistGc))
    ensures n in RewriteDone(st, true, rdb, true, Replaced, true, persistGc).files ==>
              n == BaseFileName(st.prefix, st.am.baseSeq + 1, rdb) || n == Current(st.am) || n == Next(st)
  {
    hide Rep, RewriteDone, BaseFileName, IncrFileName, Enabled;
    RewriteCleans(st, rdb, persistGc, n);
  }

  /** And when a rewrite then succeeds and collects, the new BASE and the open INCR are all there is besides that one. */
  lemma EveryRunCleans(prefix: Bytes, rdb: bool, es: seq<Event>, format: bool, persistGc: Persist, n: Bytes)
    requires Legal(prefix) && NameFits(prefix, 1)
    requires Runs(Start(prefix, rdb), es) && After(Start(prefix, rdb), es).Some?
    requires Enabled(After(Start(prefix, rdb), es).value, ChildExit(true, format, true, Replaced, true, persistGc))
    ensures var st := After(Start(prefix, rdb), es).value;
            var r := RewriteDone(st, true, format, true, Replaced, true, persistGc);
            n in r.files ==> n == BaseFileName(prefix, st.am.baseSeq + 1, format) || n == Current(st.am)
                             || n == IncrFileName(prefix, st.am.incrSeq + 1)
  {
    hide Rep, Start, Runs, After, Enabled, RewriteDone, BaseFileName, IncrFileName, Tidy, Current;
    RunsTidy(prefix, rdb, es);
    CleanedFiles(After(Start(prefix, rdb), es).value, format, persistGc, n);
  }
}
