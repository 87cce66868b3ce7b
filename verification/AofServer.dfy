/**
 * The append-only files of a running server (aof.c): feeding, flushing, background rewrite with
 * rotation of the INCR file, its completion, deletion of history files, and a crash with restart.
 *
 * The manifest on disk is kept as the value it was printed from; whoever starts the server reads
 * its text.
 */
module AofServer {
  import opened Wrappers
  import opened Words
  import opened Decimal
  import opened AofProtocol
  import opened AofRecovery
  import opened AofManifest
  import opened AofFlush
  import opened AofFeed
  import opened ManifestNames
  import ManifestText
  import Sds

  /** A BASE file is known by the dataset it restores, an INCR file by its bytes. */
  datatype Content = Snapshot(history: History) | Journal(bytes: Bytes)

  type Files = map<Bytes, Content>

  /** Commands that reached the log exist in the command table of the server that loads it. */
  const TABLE: Command -> bool := c => true

  // ----- Loading all files of a manifest -----

  function Names(am: Manifest): (ns: seq<Bytes>)
    ensures |ns| == (if am.base.Some? then 1 else 0) + |am.incr|
  {
    (if am.base.Some? then [am.base.value.name] else [])
    + seq(|am.incr|, i requires 0 <= i < |am.incr| => am.incr[i].name)
  }

  /** One file on top of the dataset `h`; a truncated file is fatal unless it is the last one. */
  function LoadOne(c: Content, h: History, last: bool): (r: Option<History>) {
    match c
    case Snapshot(s) => Some(h + s)
    case Journal(bytes) =>
      var l := Load(bytes, TABLE, true);
      if l.status in {Loaded, Empty} || (l.status == Truncated && last) then
        Some(h + PerformAll(Replay([], 0), l.executed).history)
      else None
  }

  /** Files that others follow. */
  function LoadClosed(ns: seq<Bytes>, files: Files): (r: Option<History>) {
    if ns == [] then Some([])
    else
      var n := |ns| - 1;
      match LoadClosed(ns[..n], files)
      case None => None
      case Some(h) => if ns[n] in files then LoadOne(files[ns[n]], h, false) else None
  }

  /** loadAppendOnlyFiles */
  function LoadAll(am: Manifest, files: Files): (r: Option<History>) {
    var ns := Names(am);
    if ns == [] then Some([])
    else
      var n := |ns| - 1;
      match LoadClosed(ns[..n], files)
      case None => None
      case Some(h) => if ns[n] in files then LoadOne(files[ns[n]], h, true) else None
  }

  method LoadAppendOnlyFiles(am: Manifest, files: Files) returns (r: Option<History>)
    ensures r == LoadAll(am, files)
  {
    hide LoadOne;
    var ns := Names(am);
    var h: History := [];
    assert ns[..0] == [];
    for i := 0 to |ns|
      invariant i < |ns| || ns == [] ==> LoadClosed(ns[..i], files) == Some(h)
      invariant i == |ns| ==> LoadAll(am, files) == Some(h)
    {
      var last := i + 1 == |ns|;
      assert ns[..i + 1][..i] == ns[..i];
      if ns[i] !in files { FailedPrefix(ns, files, i); return None; }
      var one := LoadOne(files[ns[i]], h, last);
      if one.None? {
        if !last { FailedPrefix(ns, files, i); }
        return None;
      }
      h := one.value;
    }
    r := Some(h);
  }

  lemma {:induction false} ClosedPrefix(ns: seq<Bytes>, files: Files, k: nat)
    requires k <= |ns| && LoadClosed(ns[..k], files).None?
    ensures LoadClosed(ns, files).None?
  {
    hide LoadOne;
    if k == |ns| {
      assert ns[..k] == ns;
    } else {
      assert ns[..|ns| - 1][..k] == ns[..k];
      ClosedPrefix(ns[..|ns| - 1], files, k);
    }
  }

  lemma FailedPrefix(ns: seq<Bytes>, files: Files, i: nat)
    requires i < |ns|
    requires i + 1 == |ns| ==> ns[i] !in files
    requires i + 1 < |ns| ==> LoadClosed(ns[..i + 1], files).None?
    ensures i + 1 == |ns| || LoadClosed(ns[..|ns| - 1], files).None?
  {
    if i + 1 < |ns| {
      assert ns[..|ns| - 1][..i + 1] == ns[..i + 1];
      ClosedPrefix(ns[..|ns| - 1], files, i + 1);
    }
  }

  /** Only the listed files matter. */
  lemma {:induction false} ClosedFrame(ns: seq<Bytes>, f: Files, g: Files)
    requires forall i :: 0 <= i < |ns| ==> (ns[i] in f <==> ns[i] in g) && (ns[i] in f ==> f[ns[i]] == g[ns[i]])
    ensures LoadClosed(ns, f) == LoadClosed(ns, g)
  {
    hide LoadOne;
    if ns != [] { ClosedFrame(ns[..|ns| - 1], f, g); }
  }

  lemma OneSnapshot(base: Bytes, files: Files, h: History)
    requires base in files && files[base] == Snapshot(h)
    ensures LoadClosed([base], files) == Some(h)
  {
    var first: seq<Bytes> := [base];
    assert first[..0] == [];
    assert LoadClosed(first[..0], files) == Some([]);
    var none: History := [];
    assert none + h == h;
  }

  // ----- The server -----

  /**
   * `am` is the manifest in memory and `disk` the one last written; `live` is the dataset and
   * `child` the dataset a running rewrite child saves. The rest describes the files: `pre` is the
   * dataset held by the closed ones, `recs` are the records of the open one, and `lost` is how many
   * bytes of the last record, an annotation, are missing since a crash.
   */
  datatype State = State(prefix: Bytes, files: Files, disk: Manifest, am: Manifest, log: Log,
                         selected: int, live: History, child: Option<History>,
                         pre: History, recs: seq<Record>, lost: nat)

  /** C_OK with the file replaced; C_ERR with the old file; C_ERR although it was replaced. */
  datatype Persist = Replaced | Untouched | ReplacedThenFailed

  function OnDisk(disk: Manifest, am: Manifest, p: Persist): (r: Manifest) {
    if p == Untouched then disk else am
  }

  function Current(am: Manifest): (name: Bytes)
    requires am.incr != []
  {
    am.incr[|am.incr| - 1].name
  }

  /** All files, the open one holding `bytes`. */
  function WithOpen(st: State, bytes: Bytes): (f: Files)
    requires st.am.incr != []
  {
    st.files[Current(st.am) := Journal(bytes)]
  }

  /** aofOpenIfNeededOnServerStart in an empty directory: a BASE of the empty dataset and one INCR. */
  function Start(prefix: Bytes, rdb: bool): (st: State) {
    var am := NewIncr(NewBase(EMPTY, prefix, rdb), prefix).(dirty := false);
    State(prefix, map[am.base.value.name := Snapshot([])], am, am,
          Log([], Fd(true, 0), [], 0, 0, true), -1, [], None, [], [], 0)
  }

  datatype Event =
    | Unit(ops: seq<Op>, stamps: seq<Option<nat>>, transaction: bool)
    | Flushing(env: FlushEnv)
    | Rewrite(dirOk: bool, env: FlushEnv, openOk: bool, persist: Persist, forkOk: bool)
    | ChildExit(success: bool, rdb: bool, renameOk: bool, persist: Persist, gc: bool, persistGc: Persist)
    | Crash(kept: nat, gc: bool, persistGc: Persist)

  /** An INCR file is open; true of every state the server gets into. */
  predicate Running(st: State) {
    st.am.incr != [] && st.disk.incr != [] && st.am.baseSeq >= 0 && st.am.incrSeq >= 0
  }

  /** When a step can happen at all. */
  predicate Enabled(st: State, e: Event) {
    Running(st) &&
    match e
    case Unit(ops, stamps, _) => PropagatedAll(ops) && DueStamps(stamps) && |stamps| == |ops| + 2
    case Flushing(_) => true
    case Rewrite(_, env, openOk, _, _) => env.force && (openOk ==> NameFits(st.prefix, st.am.incrSeq + 1))
    case ChildExit(_, _, renameOk, _, _, _) => st.child.Some? && (renameOk ==> NameFits(st.prefix, st.am.baseSeq + 1))
    case Crash(kept, _, _) => kept <= |st.log.file| && Holds(st) && ManifestText.Numbered(ManifestText.Entries(st.disk))
  }

  /** The open file and the buffer hold the records, up to the missing bytes. */
  predicate Holds(st: State) {
    st.lost <= |Encode(st.recs)| && st.log.file + st.log.buf == Stored(st.recs, st.lost)
  }

  function Stored(recs: seq<Record>, lost: nat): (s: Bytes)
    requires lost <= |Encode(recs)|
  {
    Encode(recs)[..|Encode(recs)| - lost]
  }

  /** The last record is an annotation that lacks its last `lost` bytes. */
  predicate CutNote(recs: seq<Record>, lost: nat) {
    recs != [] && recs[|recs| - 1].Annotation? && 0 < lost < |EncodeRecord(recs[|recs| - 1])|
  }

  /** What is left of it. */
  function NoteLeft(recs: seq<Record>, lost: nat): (cut: Bytes)
    requires CutNote(recs, lost)
  {
    var r := EncodeRecord(recs[|recs| - 1]);
    r[..|r| - lost]
  }

  /** The records of the file after `rs` is appended: a new annotation continues the line of a cut one. */
  function Appended(recs: seq<Record>, lost: nat, rs: seq<Record>): (r: seq<Record>) {
    if CutNote(recs, lost) && rs != [] && rs[0].Annotation? then
      recs[..|recs| - 1] + [Merged(NoteLeft(recs, lost), rs[0].text)] + rs[1..]
    else recs + rs
  }

  function Feed(st: State, ops: seq<Op>, stamps: seq<Option<nat>>, transaction: bool): (r: State)
    requires |stamps| == |ops| + 2
  {
    var rs := UnitRecords(st.selected, ops, stamps, transaction);
    st.(log := st.log.(buf := st.log.buf + Encode(rs)), selected := SelectedOps(st.selected, ops),
        live := st.live + Effects(ops), recs := Appended(st.recs, st.lost, rs),
        lost := if rs == [] then st.lost else 0)
  }

  /** openNewIncrAofForAppend; the new file is opened truncated and without O_APPEND. */
  function OpenNewIncr(st: State, openOk: bool, persist: Persist): (r: (State, bool))
    requires st.am.incr != [] && st.am.incrSeq >= 0
  {
    if !openOk then (st, false)
    else
      var temp := NewIncr(st.am, st.prefix);
      var files := st.files[Current(temp) := Journal([])];
      var disk := OnDisk(st.disk, temp.(dirty := false), persist);
      if persist == Replaced then
        (st.(files := files[Current(st.am) := Journal(st.log.file)], disk := disk, am := temp.(dirty := false),
             log := st.log.(file := [], fd := Fd(false, 0), size := 0), pre := st.live, recs := [], lost := 0), true)
      else (st.(files := files, disk := disk), false)
  }

  /** rewriteAppendOnlyFileBackground; None when the forced flush exits. */
  function StartRewrite(st: State, dirOk: bool, env: FlushEnv, openOk: bool, persist: Persist, forkOk: bool): (r: Option<State>)
    requires st.am.incr != [] && st.am.incrSeq >= 0
  {
    if st.child.Some? || !dirOk then Some(st)
    else match Flush(st.log, env)
      case None => None
      case Some(l) =>
        var (st', rotated) := OpenNewIncr(st.(selected := -1, log := l), openOk, persist);
        Some(if rotated && forkOk then st'.(child := Some(st.live)) else st')
  }

  function HistoryNames(am: Manifest): (ns: set<Bytes>) {
    set i | 0 <= i < |am.history| :: am.history[i].name
  }

  /** aofDelHistoryFiles */
  function DelHistory(st: State, gc: bool, persist: Persist): (r: State) {
    if !gc || st.am.history == [] then st
    else
      var am := st.am.(history := [], dirty := persist != Replaced);
      st.(files := st.files - HistoryNames(st.am), am := am, disk := OnDisk(st.disk, am.(dirty := false), persist))
  }

  /** backgroundRewriteDoneHandler */
  function RewriteDone(st: State, success: bool, rdb: bool, renameOk: bool, persist: Persist, gc: bool, persistGc: Persist): (r: State)
    requires st.child.Some? && st.am.baseSeq >= 0
  {
    var done := st.(child := None);
    if !success || !renameOk then done
    else
      var named := NewBase(st.am, st.prefix, rdb);
      var base := named.base.value.name;
      var temp := MarkedRewritten(named, true).(dirty := false);
      var files := st.files[base := Snapshot(st.child.value)];
      var disk := OnDisk(st.disk, temp, persist);
      if persist != Replaced then done.(files := files - {base}, disk := disk)
      else DelHistory(done.(files := files, disk := disk, am := temp), gc, persistGc)
  }

  /** The manifest on disk already lists the next INCR file, although the server writes the one before. */
  predicate Ahead(st: State) { st.disk.incrSeq != st.am.incrSeq }

  function OpenBytes(files: Files, name: Bytes): (s: Bytes) {
    if name in files && files[name].Journal? then files[name].bytes else []
  }

  /** Whether the cut leaves an unfinished annotation, which the restart leaves in the file. */
  predicate CutsNote(recs: seq<Record>, n: nat)
    requires n <= |Encode(recs)|
  {
    Damaged(recs, n) && recs[Whole(recs, n)].Annotation?
  }

  /** The records in the file after a restart, and how many bytes the last one lacks. */
  function Remaining(recs: seq<Record>, n: nat): (r: (seq<Record>, nat))
    requires n <= |Encode(recs)|
  {
    var k := Whole(recs, n);
    if CutsNote(recs, n) then (recs[..k + 1], |EncodeRecord(recs[k])| - (n - |Encode(recs[..k])|))
    else (recs[..Survivors(recs, n)], 0)
  }

  /** What a server finds that reads the text of manifest `disk` and then the files it lists. */
  function LoadDisk(disk: Manifest, files: Files): (r: Option<History>) {
    match ManifestText.ThroughText(disk)
    case Err => None
    case Ok(am) => LoadAll(am, files)
  }

  /**
   * A crash that keeps only the first `kept` bytes of the open file, and the loading after it;
   * None when the server refuses to start.
   */
  function Reopen(st: State, kept: nat): (r: Option<State>)
    requires st.am.incr != [] && st.disk.incr != [] && kept <= |st.log.file| && Holds(st)
  {
    var p := st.log.file[..kept];
    var file := Left(p, TABLE);
    match ManifestText.ThroughText(st.disk)
    case Err => None
    case Ok(am) =>
      match LoadAll(am, WithOpen(st, p))
      case None => None
      case Some(h) =>
        var up := st.(am := am, selected := -1, live := h, child := None);
        if Ahead(st) then
          var bytes := OpenBytes(st.files, Current(st.disk));
          Some(up.(files := WithOpen(st, p), log := Log(bytes, Fd(true, 0), [], |bytes|, 0, true),
                   pre := h, recs := [], lost := 0))
        else
          var (recs, lost) := Remaining(st.recs, kept);
          Some(up.(log := Log(file, Fd(true, 0), [], |file|, 0, true), recs := recs, lost := lost))
  }

  /** The start as a whole: history files left over from before the crash are deleted at its end. */
  function Restart(st: State, kept: nat, gc: bool, persistGc: Persist): (r: Option<State>)
    requires st.am.incr != [] && st.disk.incr != [] && kept <= |st.log.file| && Holds(st)
  {
    match Reopen(st, kept) case None => None case Some(up) => Some(DelHistory(up, gc, persistGc))
  }

  function Step(st: State, e: Event): (r: Option<State>)
    requires Enabled(st, e)
  {
    match e
    case Unit(ops, stamps, transaction) => Some(Feed(st, ops, stamps, transaction))
    case Flushing(env) =>
      (match Flush(st.log, env) case None => None case Some(l) => Some(st.(log := l)))
    case Rewrite(dirOk, env, openOk, persist, forkOk) => StartRewrite(st, dirOk, env, openOk, persist, forkOk)
    case ChildExit(success, rdb, renameOk, persist, gc, persistGc) =>
      Some(RewriteDone(st, success, rdb, renameOk, persist, gc, persistGc))
    case Crash(kept, gc, persistGc) => Restart(st, kept, gc, persistGc)
  }

  /** Records that can follow a cut annotation: a new one first, the two fitting on one line. */
  predicate Joins(recs: seq<Record>, lost: nat, rs: seq<Record>) {
    CutNote(recs, lost) && rs != [] ==>
      rs[0].Annotation? && |NoteLeft(recs, lost)| + |rs[0].text| <= 1000
  }

  /**
   * The steps that keep the log replayable. Only these are left out: writing a command right after
   * an annotation that a crash cut short; writing past the end of the file after a rollback without
   * O_APPEND; a rotation that leaves data in the buffer; a new BASE whose manifest is renamed but not
   * synced; a crash inside a command of a transaction; while the manifest is ahead, a crash inside any
   * command or transaction; and any crash if the server cannot read its own manifest.
   */
  predicate Safe(st: State, e: Event)
    requires Enabled(st, e)
  {
    match e
    case Unit(ops, stamps, transaction) => Joins(st.recs, st.lost, UnitRecords(st.selected, ops, stamps, transaction))
    case Flushing(env) => AtEnd(st.log) || Taken(st.log, env) == 0
    case Rewrite(dirOk, env, openOk, persist, _) =>
      st.child.Some? || !dirOk ||
      (&& (AtEnd(st.log) || Taken(st.log, env) == 0)
       && (openOk && persist == Replaced ==> Taken(st.log, env) == |st.log.buf|))
    case ChildExit(success, _, renameOk, persist, _, _) => success && renameOk ==> persist != ReplacedThenFailed
    case Crash(kept, _, _) => Sds.QuoteSafe(st.prefix) && Repaired(st, kept)
  }

  /** The cuts of the open file that the next start repairs, or that can be lived with. */
  predicate Repaired(st: State, kept: nat)
    requires kept <= |Encode(st.recs)|
  {
    if Ahead(st) then !TornEnd(st.recs, kept)
    else Damaged(st.recs, kept) ==> st.recs[Whole(st.recs, kept)].Annotation?
  }

  // ----- The invariant -----

  function ClosedNames(am: Manifest): (ns: seq<Bytes>)
    requires am.incr != []
  {
    Names(am)[..|Names(am)| - 1]
  }

  predicate SameLive(a: Manifest, b: Manifest) {
    a.base == b.base && a.incr == b.incr && a.baseSeq == b.baseSeq && a.incrSeq == b.incrSeq
  }

  predicate Manifests(prefix: Bytes, am: Manifest, disk: Manifest) {
    && Legal(prefix) && Consistent(am, prefix) && Consistent(disk, prefix) && Short(prefix, am) && Short(prefix, disk)
    && (SameLive(am, disk) || SameLive(NewIncr(am, prefix), disk))
    && am.base.Some? && am.incr != [] && am.incr[|am.incr| - 1].number == am.incrSeq
  }

  ghost predicate Logged(l: Log, selected: int, recs: seq<Record>, lost: nat, h: History) {
    && Valid(l) && Tracks(recs, selected, h, false)
    && lost <= |Encode(recs)| && l.file + l.buf == Stored(recs, lost)
    && (lost > 0 ==> l.buf == [] && CutNote(recs, lost))
  }

  /** While the manifest is ahead, the file it lists last is empty and no child runs. */
  predicate NextEmpty(st: State) {
    Ahead(st) ==> st.child.None? && st.disk.incr != [] && Current(st.disk) in st.files && st.files[Current(st.disk)] == Journal([])
  }

  ghost predicate Rep(st: State) {
    && Manifests(st.prefix, st.am, st.disk) && NextEmpty(st)
    && LoadClosed(ClosedNames(st.am), st.files) == Some(st.pre)
    && st.pre <= st.live && Logged(st.log, st.selected, st.recs, st.lost, st.live[|st.pre|..])
    && (st.child.Some? ==> st.child.value == st.pre)
  }

  /** Reading the manifest on disk, replaying every file it lists and then the buffer gives the live dataset. */
  ghost predicate Replays(st: State)
    requires st.am.incr != []
  {
    LoadDisk(st.disk, WithOpen(st, st.log.file + st.log.buf)) == Some(st.live)
  }

  /** The server reads its own manifest back exactly if its configured file name is quote-safe. */
  lemma OwnDisk(prefix: Bytes, disk: Manifest, files: Files)
    requires Legal(prefix) && Consistent(disk, prefix) && Short(prefix, disk) && disk.incr != []
    ensures ManifestText.ThroughText(disk) == if Sds.QuoteSafe(prefix) then Ok(ManifestText.Reloaded(disk)) else Err
    ensures LoadDisk(disk, files) == if Sds.QuoteSafe(prefix) then LoadAll(disk, files) else None
  {
    assert ManifestText.Entries(disk) != [];
    hide LoadClosed, LoadOne, Sds.QuoteSafe, ManifestText.ThroughText, Consistent, Legal, Short;
    OwnManifest(prefix, disk);
    SameNames(disk);
  }

  lemma SameNames(am: Manifest)
    ensures Names(ManifestText.Reloaded(am)) == Names(am)
  {}

  lemma NamesFrom(a: Manifest, b: Manifest)
    requires SameLive(a, b)
    ensures Names(a) == Names(b)
  {}

  lemma NameAt(am: Manifest, i: nat)
    requires i < |Names(am)|
    ensures Names(am)[i] in Live(am)
    ensures am.incr != [] ==> Names(am)[|Names(am)| - 1] == Current(am)
  {
    var b := if am.base.Some? then 1 else 0;
    if i >= b { assert Names(am)[i] == am.incr[i - b].name; }
  }

  /** The open file is not one of the closed ones. */
  lemma OpenIsNotClosed(prefix: Bytes, am: Manifest)
    requires Consistent(am, prefix) && am.incr != []
    ensures Current(am) !in ClosedNames(am)
  {
    hide BaseFileName, IncrFileName;
    var last := |am.incr| - 1;
    var ns := ClosedNames(am);
    var b := if am.base.Some? then 1 else 0;
    if am.base.Some? { BaseNotIncr(prefix, am); }
    forall i | 0 <= i < |ns| ensures ns[i] != Current(am) {
      if i >= b {
        assert ns[i] == am.incr[i - b].name;
        FileNamesDiffer(prefix, am.incr[i - b].number, am.incr[last].number, false, false);
      } else {
        assert ns[i] == am.base.value.name;
      }
    }
  }

  /** While the manifest is ahead it lists one file more, which no other name clashes with. */
  lemma AheadNames(prefix: Bytes, am: Manifest, disk: Manifest)
    requires Manifests(prefix, am, disk) && !SameLive(am, disk)
    ensures disk.incr != [] && Names(disk) == Names(am) + [Current(disk)]
    ensures Current(disk) !in Names(am) && Current(disk) == IncrFileName(prefix, am.incrSeq + 1)
    ensures disk.incrSeq == am.incrSeq + 1
  {
    NextNamesUnused(prefix, am, true);
    hide BaseFileName, IncrFileName, Consistent;
    var next := NewIncr(am, prefix);
    NamesFrom(next, disk);
    assert Names(next) == Names(am) + [Current(next)];
  }

  lemma CurrentIsLive(am: Manifest)
    requires am.incr != []
    ensures Names(am) != [] && Names(am)[|Names(am)| - 1] == Current(am) && Current(am) in Names(am)
  {
    NameAt(am, |Names(am)| - 1);
  }

  lemma SameOrAhead(st: State)
    requires Manifests(st.prefix, st.am, st.disk)
    ensures Ahead(st) <==> !SameLive(st.am, st.disk)
  {
    hide BaseFileName, IncrFileName, Consistent;
    if !SameLive(st.am, st.disk) { AheadNames(st.prefix, st.am, st.disk); }
  }

  /** With the open file holding `bytes`, loading is what its bytes add to the closed files. */
  lemma LoadWithOpen(st: State, bytes: Bytes)
    requires Rep(st)
    ensures LoadAll(st.disk, WithOpen(st, bytes)) == LoadOne(Journal(bytes), st.pre, !Ahead(st))
    ensures LoadClosed(Names(st.am), WithOpen(st, bytes)) == LoadOne(Journal(bytes), st.pre, false)
  {
    hide LoadOne, Consistent, Logged, Live, Names, IncrFileName;
    SameOrAhead(st);
    var ns, files := Names(st.am), WithOpen(st, bytes);
    CurrentIsLive(st.am);
    OpenIsNotClosed(st.prefix, st.am);
    ClosedFrame(ClosedNames(st.am), st.files, files);
    if Ahead(st) {
      AheadNames(st.prefix, st.am, st.disk);
      assert Names(st.disk)[..|ns|] == ns;
      if LoadClosed(ns, files).Some? { EmptyJournal(LoadClosed(ns, files).value, true); }
    } else {
      NamesFrom(st.am, st.disk);
    }
  }

  lemma KnownLog(recs: seq<Record>)
    ensures Known(recs, TABLE)
  {}

  lemma NothingTracked(selected: int)
    requires selected == -1
    ensures Tracks([], selected, [], false) && Encode([]) == []
  {}

  lemma EmptyJournal(h: History, last: bool)
    ensures LoadOne(Journal([]), h, last) == Some(h)
  {
    assert h + [] == h;
  }

  /** A log that is complete, or lacks only the end of an annotation, loads completely, whether or not other files follow. */
  lemma WholeJournal(recs: seq<Record>, lost: nat, selected: int, h: History, pre: History, last: bool)
    requires Tracks(recs, selected, h, false) && lost <= |Encode(recs)| && (lost > 0 ==> CutNote(recs, lost))
    ensures LoadOne(Journal(Stored(recs, lost)), pre, last) == Some(pre + h)
  {
    hide Load, StateAfter, PerformAll, Encode, Stored;
    if recs == [] {
      NoRecords();
      assert pre + h == pre;
      StoredWhole(recs);
      EmptyJournal(pre, last);
    } else {
      StoredLoads(recs, lost);
      assert Pending(StateAfter(recs)) == StateAfter(recs).executed;
    }
  }

  /** All records run, also when the last annotation is cut. */
  lemma StoredLoads(recs: seq<Record>, lost: nat)
    requires recs != [] && WellFormedLog(recs) && FlatMulti(recs) && StateAfter(recs).queue.None?
    requires lost <= |Encode(recs)| && (lost > 0 ==> CutNote(recs, lost))
    ensures var l := Load(Stored(recs, lost), TABLE, true); l.status == Loaded && l.executed == StateAfter(recs).executed
  {
    hide Load, StateAfter, Encode, EncodeRecord, WellFormedLog, FlatMulti;
    KnownLog(recs);
    if lost == 0 {
      StoredWhole(recs);
      LoadWhole(recs, TABLE);
    } else {
      CutNoteRuns(recs, lost);
      LoadPrefix(recs, |Encode(recs)| - lost, TABLE);
    }
  }

  lemma WholeAt(log: seq<Record>, n: nat, j: nat)
    requires n <= |Encode(log)| && j < |log|
    requires |Encode(log[..j])| <= n < |Encode(log[..j])| + |EncodeRecord(log[j])|
    ensures Whole(log, n) == j
  {
    hide EncodeRecord, Encode;
    var k := Whole(log, n);
    if k < j { NextRecord(log, k); EncodeMonotone(log, k + 1, j); }
    if j < k { NextRecord(log, j); EncodeMonotone(log, j + 1, k); }
  }

  lemma NextRecord(log: seq<Record>, k: nat)
    requires k < |log|
    ensures |Encode(log[..k + 1])| == |Encode(log[..k])| + |EncodeRecord(log[k])|
  {
    hide EncodeRecord;
    assert log[..k + 1] == log[..k] + [log[k]];
    EncodeAppend(log[..k], [log[k]]);
    EncodeOne(log[k]);
  }

  /** The bytes of a log whose last annotation is cut. */
  lemma CutNoteRuns(recs: seq<Record>, lost: nat)
    requires CutNote(recs, lost)
    ensures var k := |recs| - 1;
            && 0 < lost < |Encode(recs)| && Stored(recs, lost) == Encode(recs[..k]) + NoteLeft(recs, lost)
            && Whole(recs, |Encode(recs)| - lost) == k && Cuts(recs, |Encode(recs)| - lost)
            && StateAfter(recs[..k]).executed == StateAfter(recs).executed
            && StateAfter(recs[..k]).queue == StateAfter(recs).queue
  {
    var k, n := |recs| - 1, |Encode(recs)| - lost;
    hide Encode, StateAfter, EncodeRecord, Whole;
    CutNoteBytes(recs, lost);
    WholeAt(recs, n, k);
    NoteState(recs);
  }

  lemma CutNoteBytes(recs: seq<Record>, lost: nat)
    requires CutNote(recs, lost)
    ensures var k := |recs| - 1;
            && |Encode(recs)| == |Encode(recs[..k])| + |EncodeRecord(recs[k])|
            && Stored(recs, lost) == Encode(recs[..k]) + NoteLeft(recs, lost)
  {
    hide Encode, EncodeRecord;
    var k := |recs| - 1;
    assert recs == recs[..k] + [recs[k]];
    EncodeAppend(recs[..k], [recs[k]]);
    EncodeOne(recs[k]);
  }

  lemma NoteState(recs: seq<Record>)
    requires recs != [] && recs[|recs| - 1].Annotation?
    ensures StateAfter(recs) == StateAfter(recs[..|recs| - 1])
  {
    hide Encode, Run;
  }

  lemma NoRecords()
    ensures Encode([]) == [] && StateAfter([]).executed == [] && PerformAll(Replay([], 0), []) == Replay([], 0)
  {}

  lemma RepReplays(st: State)
    requires Rep(st)
    ensures st.am.incr != [] && (Replays(st) <==> Sds.QuoteSafe(st.prefix))
  {
    RepRunning(st);
    hide Rep, LoadAll, LoadDisk, LoadOne, Sds.QuoteSafe, ManifestText.ThroughText;
    RepDisk(st, WithOpen(st, st.log.file + st.log.buf));
    LoadWithOpen(st, st.log.file + st.log.buf);
    WholeOpenJournal(st, !Ahead(st));
  }

  lemma RepDisk(st: State, files: Files)
    requires Rep(st)
    ensures ManifestText.ThroughText(st.disk) == if Sds.QuoteSafe(st.prefix) then Ok(ManifestText.Reloaded(st.disk)) else Err
    ensures LoadDisk(st.disk, files) == if Sds.QuoteSafe(st.prefix) then LoadAll(st.disk, files) else None
  {
    RepRunning(st);
    hide Logged, LoadClosed, Consistent, Short, Legal, LoadDisk, LoadAll, Sds.QuoteSafe, ManifestText.ThroughText;
    OwnDisk(st.prefix, st.disk, files);
  }

  /** The dataset loaded after losing everything but the first `n` bytes of the open file. */
  function CutHistory(recs: seq<Record>, n: nat, pre: History): (h: History)
    requires n <= |Encode(recs)|
  {
    pre + PerformAll(Replay([], 0), StateAfter(recs[..Whole(recs, n)]).executed).history
  }

  lemma CutJournal(recs: seq<Record>, n: nat, selected: int, h: History, pre: History, last: bool)
    requires Tracks(recs, selected, h, false) && n <= |Encode(recs)|
    ensures LoadOne(Journal(Encode(recs)[..n]), pre, last)
            == if last || !TornEnd(recs, n) then Some(CutHistory(recs, n, pre)) else None
    ensures CutHistory(recs, n, pre) <= pre + h
  {
    hide PerformAll, StateAfter, Encode;
    var k := Whole(recs, n);
    CutLogHistory(recs, k, selected, h);
    if n == 0 {
      NothingLeft(recs, TABLE);
      NoRecords();
      assert recs[..0] == [];
    } else {
      KnownLog(recs);
      hide Load;
      LoadPrefix(recs, n, TABLE);
    }
  }

  /**
   * A crash at any byte of the open file loses a suffix of the writes and nothing else. The server
   * starts again if and only if it can read its manifest and the file does not end inside a command
   * or transaction while the manifest is ahead.
   */
  lemma CrashLosesOnlyTail(st: State, n: nat)
    requires Rep(st) && n <= |st.log.file|
    ensures n <= |Encode(st.recs)| && st.log.file[..n] == Encode(st.recs)[..n]
    ensures var r := LoadDisk(st.disk, WithOpen(st, st.log.file[..n]));
            && (r.Some? <==> Sds.QuoteSafe(st.prefix) && !(Ahead(st) && TornEnd(st.recs, n)))
            && (r.Some? ==> r.value == CutHistory(st.recs, n, st.pre) && st.pre <= r.value <= st.live)
  {
    RepRunning(st);
    hide Rep, LoadDisk, LoadAll, CutHistory, TornEnd, Sds.QuoteSafe, ManifestText.ThroughText;
    CutLoads(st, n);
    RepDisk(st, WithOpen(st, st.log.file[..n]));
  }

  /** Its files load, given the manifest. */
  lemma CutLoads(st: State, n: nat)
    requires Rep(st) && n <= |st.log.file|
    ensures n <= |Encode(st.recs)| && st.log.file[..n] == Encode(st.recs)[..n]
    ensures var r := LoadAll(st.disk, WithOpen(st, st.log.file[..n]));
            && (r.Some? <==> !(Ahead(st) && TornEnd(st.recs, n)))
            && (r.Some? ==> r.value == CutHistory(st.recs, n, st.pre) && st.pre <= r.value <= st.live)
  {
    hide LoadOne, Tracks, Manifests, LoadClosed, Encode, LoadAll, CutHistory, TornEnd;
    assert st.log.file[..n] == Encode(st.recs)[..n];
    LoadWithOpen(st, st.log.file[..n]);
    CutJournal(st.recs, n, st.selected, st.live[|st.pre|..], st.pre, !Ahead(st));
    assert st.pre + st.live[|st.pre|..] == st.live;
    CutFromPre(st.recs, n, st.pre);
  }

  lemma CutFromPre(recs: seq<Record>, n: nat, pre: History)
    requires n <= |Encode(recs)|
    ensures pre <= CutHistory(recs, n, pre)
  {
    hide PerformAll, StateAfter, Encode;
  }

  // ----- Every safe step keeps the invariant -----

  lemma StartRep(prefix: Bytes, rdb: bool)
    requires Legal(prefix) && NameFits(prefix, 1)
    ensures Rep(Start(prefix, rdb))
  {
    hide BaseFileName, IncrFileName, LoadClosed, Tracks, Named;
    var st := Start(prefix, rdb);
    assert Stored([], 0) == [];
    EmptyConsistent(prefix);
    NewBaseConsistent(EMPTY, prefix, rdb);
    NewIncrConsistent(NewBase(EMPTY, prefix, rdb), prefix);
    CleanConsistent(NewIncr(NewBase(EMPTY, prefix, rdb), prefix), prefix);
    NothingTracked(-1);
    assert ClosedNames(st.am) == [st.am.base.value.name];
    OneSnapshot(st.am.base.value.name, st.files, []);
  }

  lemma EmptyConsistent(prefix: Bytes)
    ensures Consistent(EMPTY, prefix)
  {}

  lemma CleanConsistent(am: Manifest, prefix: Bytes)
    requires Consistent(am, prefix)
    ensures Consistent(am.(dirty := false), prefix)
  {}

  lemma FeedRep(st: State, ops: seq<Op>, stamps: seq<Option<nat>>, transaction: bool)
    requires Rep(st) && PropagatedAll(ops) && DueStamps(stamps) && |stamps| == |ops| + 2
    requires Joins(st.recs, st.lost, UnitRecords(st.selected, ops, stamps, transaction))
    ensures Rep(Feed(st, ops, stamps, transaction))
  {
    hide Tracks, UnitRecords, Effects, Manifests, LoadClosed, Encode, Joins, Appended, Stored, CutNote;
    var r := Feed(st, ops, stamps, transaction);
    FeedTracks(st.recs, st.lost, st.selected, st.live[|st.pre|..], ops, stamps, transaction);
    assert r.live[|st.pre|..] == st.live[|st.pre|..] + Effects(ops);
    assert r.log.file + r.log.buf
        == (st.log.file + st.log.buf) + Encode(UnitRecords(st.selected, ops, stamps, transaction));
  }

  /** Appending the records of a unit, also when the last annotation is cut. */
  lemma FeedTracks(recs: seq<Record>, lost: nat, selected: int, h: History, ops: seq<Op>, stamps: seq<Option<nat>>, transaction: bool)
    requires Tracks(recs, selected, h, false) && PropagatedAll(ops) && DueStamps(stamps) && |stamps| == |ops| + 2
    requires lost <= |Encode(recs)| && (lost > 0 ==> CutNote(recs, lost))
    requires Joins(recs, lost, UnitRecords(selected, ops, stamps, transaction))
    ensures var rs := UnitRecords(selected, ops, stamps, transaction);
            var recs', lost' := Appended(recs, lost, rs), if rs == [] then lost else 0;
            && Tracks(recs', SelectedOps(selected, ops), h + Effects(ops), false)
            && lost' <= |Encode(recs')| && Stored(recs, lost) + Encode(rs) == Stored(recs', lost')
            && (lost' > 0 ==> recs' == recs && Encode(rs) == [])
  {
    var rs := UnitRecords(selected, ops, stamps, transaction);
    hide Tracks, UnitRecords, Effects, Encode, EncodeRecord, Merged, PropagatedAll, DueStamps;
    if lost > 0 && rs != [] {
      FeedMerges(recs, lost, selected, h, ops, stamps, transaction);
    } else {
      TrackUnit(recs, selected, h, ops, stamps, transaction);
      EncodeAppend(recs, rs);
      if rs == [] {
        NoRecords();
        assert recs + rs == recs && Stored(recs, lost) + [] == Stored(recs, lost);
      } else {
        assert Stored(recs, 0) == Encode(recs) && Stored(recs + rs, 0) == Encode(recs + rs);
      }
    }
  }

  lemma FeedMerges(recs: seq<Record>, lost: nat, selected: int, h: History, ops: seq<Op>, stamps: seq<Option<nat>>, transaction: bool)
    requires Tracks(recs, selected, h, false) && PropagatedAll(ops) && DueStamps(stamps) && |stamps| == |ops| + 2
    requires CutNote(recs, lost) && lost <= |Encode(recs)|
    requires UnitRecords(selected, ops, stamps, transaction) != []
    requires Joins(recs, lost, UnitRecords(selected, ops, stamps, transaction))
    ensures var rs := UnitRecords(selected, ops, stamps, transaction);
            var recs' := Appended(recs, lost, rs);
            && Tracks(recs', SelectedOps(selected, ops), h + Effects(ops), false)
            && Stored(recs, lost) + Encode(rs) == Stored(recs', 0)
  {
    var rs := UnitRecords(selected, ops, stamps, transaction);
    var k, cut := |recs| - 1, NoteLeft(recs, lost);
    var m := Merged(cut, rs[0].text);
    NoteLeftUnfinished(recs, lost, selected, h);
    CutNoteRuns(recs, lost);
    assert Appended(recs, lost, rs) == recs[..k] + [m] + rs[1..];
    hide *;
    UnitWellFormed(recs, selected, h, ops, stamps, transaction);
    FirstWellFormed(rs);
    MergedWellFormed(cut, rs[0].text);
    MergedFile(recs[..k], cut, rs);
    StoredWhole(recs[..k] + [m] + rs[1..]);
    MergedTracks(recs, m, selected, h, ops, stamps, transaction);
  }

  lemma FirstWellFormed(rs: seq<Record>)
    requires WellFormedLog(rs) && rs != [] && rs[0].Annotation?
    ensures WellFormed(Annotation(rs[0].text))
  {
    hide WellFormed;
    assert rs[0] == Annotation(rs[0].text);
  }

  lemma StoredWhole(recs: seq<Record>)
    ensures Stored(recs, 0) == Encode(recs)
  {
    hide Encode;
  }

  lemma MergedTracks(recs: seq<Record>, m: Record, selected: int, h: History, ops: seq<Op>, stamps: seq<Option<nat>>, transaction: bool)
    requires Tracks(recs, selected, h, false) && PropagatedAll(ops) && DueStamps(stamps) && |stamps| == |ops| + 2
    requires recs != [] && recs[|recs| - 1].Annotation? && m.Annotation? && WellFormed(m)
    requires UnitRecords(selected, ops, stamps, transaction) != []
    requires UnitRecords(selected, ops, stamps, transaction)[0].Annotation?
    ensures var rs := UnitRecords(selected, ops, stamps, transaction);
            Tracks(recs[..|recs| - 1] + [m] + rs[1..], SelectedOps(selected, ops), h + Effects(ops), false)
  {
    var first := if transaction then 0 else 1;
    var later := stamps[first := None];
    assert DueStamps(later);
    hide *;
    LaterRecords(selected, ops, stamps, transaction);
    DropNote(recs, selected, h);
    AddNote(recs[..|recs| - 1], selected, h, m);
    TrackUnit(recs[..|recs| - 1] + [m], selected, h, ops, later, transaction);
  }

  lemma NoteLeftUnfinished(recs: seq<Record>, lost: nat, selected: int, h: History)
    requires CutNote(recs, lost) && Tracks(recs, selected, h, false)
    ensures UnfinishedAnnotation(NoteLeft(recs, lost))
  {
    hide EncodeRecord, StateAfter, PerformAll;
    var r := recs[|recs| - 1];
    CutAnnotation(r, |EncodeRecord(r)| - lost);
  }

  /** Without its first annotation, a unit is the same unit with no annotation due first. */
  lemma LaterRecords(selected: int, ops: seq<Op>, stamps: seq<Option<nat>>, transaction: bool)
    requires |stamps| == |ops| + 2 && UnitRecords(selected, ops, stamps, transaction) != []
    requires UnitRecords(selected, ops, stamps, transaction)[0].Annotation?
    ensures var first := if transaction then 0 else 1;
            UnitRecords(selected, ops, stamps[first := None], transaction) == UnitRecords(selected, ops, stamps, transaction)[1..]
  {
    if transaction {
      hide OpRecords;
      var later := stamps[0 := None];
      assert later[1..|ops| + 1] == stamps[1..|ops| + 1];
      LaterFirst(selected, stamps[0], OpRecords(selected, ops, stamps[1..|ops| + 1]),
                 FeedRecords(SelectedOps(selected, ops), -1, [EXEC_UPPER], stamps[|ops| + 1]));
    } else {
      var ss := stamps[1..|ops| + 1];
      assert ops != [];
      hide OpRecords;
      assert stamps[1 := None][1..|ops| + 1] == ss[0 := None];
      LaterOps(selected, ops, ss);
    }
  }

  lemma LaterFirst(selected: int, stamp: Option<nat>, body: seq<Record>, last: seq<Record>)
    ensures var rs := FeedRecords(selected, -1, [MULTI_UPPER], stamp) + body + last;
            rs[0].Annotation? ==> FeedRecords(selected, -1, [MULTI_UPPER], None) + body + last == rs[1..]
  {
    var rs := FeedRecords(selected, -1, [MULTI_UPPER], stamp);
    if rs[0].Annotation? { assert FeedRecords(selected, -1, [MULTI_UPPER], None) == rs[1..]; }
  }

  lemma {:induction false} LaterOps(selected: int, ops: seq<Op>, stamps: seq<Option<nat>>)
    requires |stamps| == |ops| && ops != []
    ensures var rs := OpRecords(selected, ops, stamps);
            rs != [] && (rs[0].Annotation? ==> OpRecords(selected, ops, stamps[0 := None]) == rs[1..])
  {
    var n := |ops| - 1;
    if n > 0 {
      hide FeedRecords;
      LaterOps(selected, ops[..n], stamps[..n]);
      assert stamps[0 := None][..n] == stamps[..n][0 := None];
    } else {
      assert ops[..0] == [] && OpRecords(selected, [], []) == [];
      assert stamps[..0] == [] && stamps[0 := None][..0] == [];
    }
  }

  lemma DropNote(recs: seq<Record>, selected: int, h: History)
    requires Tracks(recs, selected, h, false) && recs != [] && recs[|recs| - 1].Annotation?
    ensures Tracks(recs[..|recs| - 1], selected, h, false)
  {
    assert StateAfter(recs) == StateAfter(recs[..|recs| - 1]);
    hide StateAfter, PerformAll, WellFormed;
    FlatPrefix(recs, |recs| - 1);
  }

  lemma AddNote(recs: seq<Record>, selected: int, h: History, r: Record)
    requires Tracks(recs, selected, h, false) && r.Annotation? && WellFormed(r)
    ensures Tracks(recs + [r], selected, h, false)
  {
    hide StateAfter, PerformAll, Pending, WellFormed;
    StateSnoc(recs, r);
    WellFormedSnoc(recs, r);
  }

  lemma FlushRep(st: State, env: FlushEnv)
    requires Rep(st) && Flush(st.log, env).Some? && (AtEnd(st.log) || Taken(st.log, env) == 0)
    ensures Rep(st.(log := Flush(st.log, env).value))
  {
    FlushKeepsExactly(st.log, env);
    if st.log.buf == [] { FlushNothing(st.log, env); }
    hide Tracks, Flush, Manifests, LoadClosed, Encode, Stored, CutNote, Taken;
  }

  lemma FlushNothing(l: Log, env: FlushEnv)
    requires l.buf == []
    ensures Flush(l, env) == Some(l)
  {}

  lemma Forget(st: State)
    requires Rep(st)
    ensures Rep(st.(selected := -1))
  {
    hide StateAfter, PerformAll, Manifests, LoadClosed, Encode;
  }

  /** Names the counters have not issued yet are not in use. */
  lemma NextNamesUnused(prefix: Bytes, am: Manifest, rdb: bool)
    requires Consistent(am, prefix)
    ensures IncrFileName(prefix, am.incrSeq + 1) !in Names(am)
    ensures BaseFileName(prefix, am.baseSeq + 1, rdb) !in Names(am)
  {
    hide BaseFileName, IncrFileName;
    var ns, b := Names(am), if am.base.Some? then 1 else 0;
    forall i | 0 <= i < |ns|
      ensures ns[i] != IncrFileName(prefix, am.incrSeq + 1) && ns[i] != BaseFileName(prefix, am.baseSeq + 1, rdb)
    {
      var info := if i < b then am.base.value else am.incr[i - b];
      assert ns[i] == info.name;
      NamesDiffer(prefix, info, am.baseSeq, am.incrSeq);
    }
  }

  /** Files outside the manifests can come and go. */
  lemma OtherFiles(st: State, files: Files)
    requires Rep(st)
    requires forall n :: n in Names(st.am) ==> (n in st.files <==> n in files) && (n in files ==> files[n] == st.files[n])
    requires NextEmpty(st.(files := files))
    ensures Rep(st.(files := files))
  {
    hide LoadOne, Logged, Consistent, Names;
    var ns := ClosedNames(st.am);
    forall i | 0 <= i < |ns|
      ensures (ns[i] in st.files <==> ns[i] in files) && (ns[i] in files ==> files[ns[i]] == st.files[ns[i]])
    {
      assert ns[i] == Names(st.am)[i];
    }
    ClosedFrame(ns, st.files, files);
  }

  lemma Unlisted(st: State, name: Bytes, c: Content)
    requires Rep(st) && name !in Names(st.am) && !Ahead(st)
    ensures Rep(st.(files := st.files[name := c]))
    ensures Rep(st.(files := st.files[name := c] - {name}))
  {
    hide Rep, Names;
    OtherFiles(st, st.files[name := c]);
    OtherFiles(st, st.files[name := c] - {name});
  }

  /** The next INCR file, which the manifest may already list. */
  lemma NextName(st: State)
    requires Manifests(st.prefix, st.am, st.disk)
    ensures st.am.incrSeq >= 0
    ensures var name := Current(NewIncr(st.am, st.prefix));
            name !in Names(st.am) && (Ahead(st) ==> st.disk.incr != [] && Current(st.disk) == name)
  {
    NextNamesUnused(st.prefix, st.am, true);
    SameOrAhead(st);
    hide BaseFileName, IncrFileName, Names, Consistent;
    if Ahead(st) { AheadNames(st.prefix, st.am, st.disk); }
  }

  /** It is created empty. */
  lemma NextCreated(st: State)
    requires Rep(st) && st.am.incrSeq >= 0
    ensures Rep(Created(st))
  {
    hide Manifests, Names, LoadClosed, Logged, ClosedNames, IncrFileName;
    NextName(st);
    OtherFiles(st, st.files[Current(NewIncr(st.am, st.prefix)) := Journal([])]);
  }

  lemma OpenRep(st: State, openOk: bool, persist: Persist)
    requires Rep(st) && st.child.None? && (openOk ==> NameFits(st.prefix, st.am.incrSeq + 1))
    requires openOk && persist == Replaced ==> st.log.buf == [] && st.selected == -1
    ensures st.am.incr != [] && st.am.incrSeq >= 0 && Rep(OpenNewIncr(st, openOk, persist).0)
  {
    RepRunning(st);
    if openOk {
      OpenCases(st, persist);
      hide *;
      NextCreated(st);
      if persist == Replaced {
        Rotated(Created(st));
      } else if persist == ReplacedThenFailed {
        NowAhead(Created(st));
      }
    }
  }

  /** The next INCR file exists, but nothing lists it yet. */
  ghost function Created(st: State): (r: State)
    requires st.am.incrSeq >= 0
    ensures r.am == st.am && r.child == st.child && r.log == st.log && r.selected == st.selected && r.am.incrSeq >= 0
    ensures var name := Current(NewIncr(st.am, st.prefix)); r.prefix == st.prefix && name in r.files && r.files[name] == Journal([])
  {
    st.(files := st.files[Current(NewIncr(st.am, st.prefix)) := Journal([])])
  }

  /** The manifest on disk lists it. */
  ghost function Listed(st: State): (r: State)
    requires st.am.incrSeq >= 0
  {
    st.(disk := NewIncr(st.am, st.prefix).(dirty := false))
  }

  /** The server writes it. */
  ghost function Switched(st: State): (r: State)
    requires st.am.incrSeq >= 0 && st.am.incr != []
  {
    var temp := NewIncr(st.am, st.prefix).(dirty := false);
    st.(files := WithOpen(st, st.log.file), disk := temp, am := temp,
        log := st.log.(file := [], fd := Fd(false, 0), size := 0), pre := st.live, recs := [], lost := 0)
  }

  lemma OpenCases(st: State, persist: Persist)
    requires st.am.incr != [] && st.am.incrSeq >= 0
    ensures OpenNewIncr(st, true, persist).0 ==
            match persist
            case Untouched => Created(st)
            case ReplacedThenFailed => Listed(Created(st))
            case Replaced => Switched(Created(st))
  {
    hide NewIncr;
  }

  /** The manifest lists the new file, but the server stays with the old one. */
  lemma NowAhead(st: State)
    requires Rep(st) && st.child.None? && st.am.incrSeq >= 0 && NameFits(st.prefix, st.am.incrSeq + 1)
    requires var name := Current(NewIncr(st.am, st.prefix)); name in st.files && st.files[name] == Journal([])
    ensures Rep(Listed(st))
  {
    hide BaseFileName, IncrFileName, LoadClosed, Logged, Named, Ordered;
    NewIncrConsistent(st.am, st.prefix);
    CleanConsistent(NewIncr(st.am, st.prefix), st.prefix);
  }

  /** The switch to a new INCR file after the whole buffer has been written. */
  lemma Rotated(st: State)
    requires Rep(st) && st.log.buf == [] && st.selected == -1 && st.child.None? && st.am.incrSeq >= 0
    requires NameFits(st.prefix, st.am.incrSeq + 1)
    ensures st.am.incr != [] && Rep(Switched(st))
  {
    var temp := NewIncr(st.am, st.prefix).(dirty := false);
    NewIncrConsistent(st.am, st.prefix);
    CleanConsistent(NewIncr(st.am, st.prefix), st.prefix);
    hide BaseFileName, IncrFileName, LoadClosed, Logged, Named, Ordered;
    RotatedClosed(st);
    assert ClosedNames(temp) == Names(st.am);
    FreshLog(st.log, st.live);
  }

  /** With nothing buffered, the files up to the open one hold the live dataset. */
  lemma RotatedClosed(st: State)
    requires Rep(st) && st.log.buf == []
    ensures LoadClosed(Names(st.am), WithOpen(st, st.log.file)) == Some(st.live)
  {
    assert st.log.file + st.log.buf == st.log.file;
    hide *;
    LoadWithOpen(st, st.log.file);
    WholeOpenJournal(st, false);
  }

  lemma FreshLog(l: Log, live: History)
    requires l.buf == []
    ensures Logged(l.(file := [], fd := Fd(false, 0), size := 0), -1, [], 0, live[|live|..])
  {
    NothingTracked(-1);
    hide Tracks;
    assert Stored([], 0) == [] && live[|live|..] == [];
  }

  lemma RewriteRep(st: State, dirOk: bool, env: FlushEnv, openOk: bool, persist: Persist, forkOk: bool)
    requires Rep(st) && Enabled(st, Rewrite(dirOk, env, openOk, persist, forkOk)) && Safe(st, Rewrite(dirOk, env, openOk, persist, forkOk))
    requires StartRewrite(st, dirOk, env, openOk, persist, forkOk).Some?
    ensures Rep(StartRewrite(st, dirOk, env, openOk, persist, forkOk).value)
  {
    if st.child.None? && dirOk {
      FlushRep(st, env);
      if openOk && persist == Replaced { FlushAll(st.log, env); }
      var st1 := st.(log := Flush(st.log, env).value);
      Forget(st1);
      hide Flush, Rep, NewIncr, Taken;
      OpenRep(st1.(selected := -1), openOk, persist);
      var (st', rotated) := OpenNewIncr(st1.(selected := -1), openOk, persist);
      if rotated && forkOk { Forked(st'); }
    }
  }

  lemma FlushAll(l: Log, env: FlushEnv)
    requires Valid(l) && Flush(l, env).Some? && Taken(l, env) == |l.buf|
    ensures Flush(l, env).value.buf == []
  {
    hide Put, Total;
  }

  lemma Forked(st: State)
    requires Rep(st) && st.pre == st.live && !Ahead(st)
    ensures Rep(st.(child := Some(st.live)))
  {
    hide Manifests, Logged, LoadClosed;
  }

  lemma Childless(st: State)
    requires Rep(st)
    ensures Rep(st.(child := None))
  {
    hide Manifests, Logged, LoadClosed;
  }

  lemma DoneRep(st: State, success: bool, rdb: bool, renameOk: bool, persist: Persist, gc: bool, persistGc: Persist)
    requires Rep(st) && st.child.Some? && (success && renameOk ==> persist != ReplacedThenFailed)
    requires renameOk ==> NameFits(st.prefix, st.am.baseSeq + 1)
    ensures st.am.baseSeq >= 0 && Rep(RewriteDone(st, success, rdb, renameOk, persist, gc, persistGc))
  {
    RepRunning(st);
    DoneCases(st, success, rdb, renameOk, persist, gc, persistGc);
    hide *;
    if !success || !renameOk {
      Childless(st);
    } else if persist == Replaced {
      BaseReplaced(st, rdb);
      DelHistoryRep(BaseSwitched(st, rdb), gc, persistGc);
    } else {
      BaseAborted(st, rdb);
    }
  }

  /** The state once the manifest with the new BASE is in place. */
  ghost function BaseSwitched(st: State, rdb: bool): (r: State)
    requires st.child.Some? && st.am.baseSeq >= 0
  {
    var named := NewBase(st.am, st.prefix, rdb);
    var temp := MarkedRewritten(named, true).(dirty := false);
    st.(child := None, files := st.files[named.base.value.name := Snapshot(st.child.value)], disk := temp, am := temp)
  }

  /** The state once a new BASE that could not be listed is removed again. */
  ghost function BaseDropped(st: State, rdb: bool): (r: State)
    requires st.child.Some? && st.am.baseSeq >= 0
  {
    var base := NewBase(st.am, st.prefix, rdb).base.value.name;
    st.(child := None, files := st.files[base := Snapshot(st.child.value)] - {base})
  }

  lemma DoneCases(st: State, success: bool, rdb: bool, renameOk: bool, persist: Persist, gc: bool, persistGc: Persist)
    requires st.child.Some? && st.am.baseSeq >= 0
    ensures var r := RewriteDone(st, success, rdb, renameOk, persist, gc, persistGc);
            if !success || !renameOk then r == st.(child := None)
            else if persist == Replaced then r == DelHistory(BaseSwitched(st, rdb), gc, persistGc)
            else persist == Untouched ==> r == BaseDropped(st, rdb)
  {
    hide BaseFileName, MarkedRewritten, DelHistory;
  }

  lemma BaseAborted(st: State, rdb: bool)
    requires Rep(st) && st.child.Some? && st.am.baseSeq >= 0
    ensures Rep(BaseDropped(st, rdb))
  {
    Childless(st);
    NextNamesUnused(st.prefix, st.am, rdb);
    hide BaseFileName, IncrFileName, Names, Consistent, LoadClosed, Logged;
    Unlisted(st.(child := None), NewBase(st.am, st.prefix, rdb).base.value.name, Snapshot(st.child.value));
  }

  /** The new BASE takes the place of everything but the open INCR file. */
  lemma BaseReplaced(st: State, rdb: bool)
    requires Rep(st) && st.child.Some? && st.am.baseSeq >= 0 && NameFits(st.prefix, st.am.baseSeq + 1)
    ensures Rep(BaseSwitched(st, rdb)) && !Ahead(BaseSwitched(st, rdb))
  {
    hide BaseFileName, IncrFileName, Logged, LoadClosed, Named;
    var named := NewBase(st.am, st.prefix, rdb);
    var temp := MarkedRewritten(named, true);
    var files := st.files[named.base.value.name := Snapshot(st.child.value)];
    NewBaseConsistent(st.am, st.prefix, rdb);
    RewrittenConsistent(named, st.prefix, true);
    CleanConsistent(temp, st.prefix);
    assert ClosedNames(temp.(dirty := false)) == [named.base.value.name];
    OneSnapshot(named.base.value.name, files, st.child.value);
  }

  /** History entries can be dropped from either manifest. */
  lemma HistoryDropped(st: State, am: Manifest, disk: Manifest)
    requires Rep(st) && !Ahead(st)
    requires am == st.am.(history := [], dirty := am.dirty)
    requires disk == st.disk || disk == am.(dirty := false)
    ensures Rep(st.(am := am, disk := disk))
  {
    hide BaseFileName, IncrFileName, LoadClosed, Logged;
    DropConsistent(st.am, st.prefix);
    assert ClosedNames(am) == ClosedNames(st.am);
  }

  lemma HistoryIsNotLive(prefix: Bytes, am: Manifest, n: Bytes)
    requires Consistent(am, prefix) && n in Names(am)
    ensures n !in HistoryNames(am)
  {
    hide BaseFileName, IncrFileName, Live, Issued;
    var i :| 0 <= i < |Names(am)| && Names(am)[i] == n;
    NameAt(am, i);
  }

  lemma DelHistoryRep(st: State, gc: bool, persist: Persist)
    requires Rep(st) && !Ahead(st)
    ensures Rep(DelHistory(st, gc, persist))
  {
    if gc && st.am.history != [] {
      hide Consistent, LoadClosed, Logged, HistoryNames, Names;
      var files := st.files - HistoryNames(st.am);
      forall n | n in Names(st.am)
        ensures (n in st.files <==> n in files) && (n in files ==> files[n] == st.files[n])
      {
        HistoryIsNotLive(st.prefix, st.am, n);
      }
      OtherFiles(st, files);
      var r := DelHistory(st, gc, persist);
      HistoryDropped(st.(files := files), r.am, r.disk);
    }
  }

  // ----- Crash and restart -----

  lemma ReloadedDisk(prefix: Bytes, am: Manifest, disk: Manifest)
    requires Manifests(prefix, am, disk)
    ensures ManifestText.Reloaded(disk) == disk.(dirty := false)
    ensures Manifests(prefix, disk.(dirty := false), disk)
  {
    hide BaseFileName, IncrFileName;
  }

  /** The history a cut log gives. */
  function LoadedHistory(recs: seq<Record>, n: nat): (h: History)
    requires n <= |Encode(recs)|
  {
    PerformAll(Replay([], 0), Load(Encode(recs)[..n], TABLE, true).executed).history
  }

  /** What a restart leaves of the open file. */
  lemma RemainingTracked(recs: seq<Record>, n: nat, selected: int, h: History)
    requires Tracks(recs, selected, h, false) && n <= |Encode(recs)|
    requires Damaged(recs, n) ==> recs[Whole(recs, n)].Annotation?
    ensures var (left, lost) := Remaining(recs, n);
            && lost <= |Encode(left)| && Restarted(recs, n, TABLE) == Stored(left, lost)
            && Tracks(left, -1, LoadedHistory(recs, n), false)
            && (lost > 0 ==> CutNote(left, lost))
  {
    hide StateAfter, PerformAll, Encode, Load, Whole, Survivors, Restarted;
    if CutsNote(recs, n) {
      CutNoteRemains(recs, n, selected, h);
    } else {
      SurvivorsTracked(recs, n, selected, h);
      assert Stored(recs[..Survivors(recs, n)], 0) == Encode(recs[..Survivors(recs, n)]);
    }
  }

  lemma CutNoteRemains(recs: seq<Record>, n: nat, selected: int, h: History)
    requires Tracks(recs, selected, h, false) && n <= |Encode(recs)| && CutsNote(recs, n)
    ensures var (left, lost) := Remaining(recs, n);
            && lost <= |Encode(left)| && Restarted(recs, n, TABLE) == Stored(left, lost)
            && Tracks(left, -1, LoadedHistory(recs, n), false)
            && CutNote(left, lost)
  {
    hide StateAfter, PerformAll, Encode, Load, EncodeRecord, Restarted, WellFormed;
    var k := Whole(recs, n);
    var (left, lost) := Remaining(recs, n);
    KnownLog(recs);
    CutAnnotationRuns(recs, n, TABLE);
    CutAnnotationStays(recs, n, TABLE);
    assert left[..k] == recs[..k] && left[k] == recs[k];
    CutNoteRuns(left, lost);
    FlatPrefix(recs, k + 1);
    assert Pending(StateAfter(left)) == StateAfter(left).executed;
  }

  lemma SurvivorsTracked(recs: seq<Record>, n: nat, selected: int, h: History)
    requires Tracks(recs, selected, h, false) && n <= |Encode(recs)| && !Damaged(recs, n)
    ensures var j := Survivors(recs, n);
            && Restarted(recs, n, TABLE) == Encode(recs[..j])
            && Tracks(recs[..j], -1, LoadedHistory(recs, n), false)
  {
    hide StateAfter, PerformAll, Encode, Load;
    var j := Survivors(recs, n);
    KnownLog(recs);
    if n == 0 { NothingLeft(recs, TABLE); } else { RestartSettles(recs, n, TABLE); }
    FlatPrefix(recs, j);
    assert WellFormedLog(recs[..j]);
    assert Pending(StateAfter(recs[..j])) == StateAfter(recs[..j]).executed;
  }

  lemma RestartRep(st: State, kept: nat, gc: bool, persistGc: Persist)
    requires Rep(st) && Enabled(st, Crash(kept, gc, persistGc)) && Safe(st, Crash(kept, gc, persistGc))
    ensures Restart(st, kept, gc, persistGc).Some? && Rep(Restart(st, kept, gc, persistGc).value)
    ensures Restart(st, kept, gc, persistGc).value.live <= st.live
  {
    hide Rep, Reopen, TornEnd, DelHistory, Damaged, Holds;
    CutLoads(st, kept);
    ReopenRep(st, kept);
    DelHistoryRep(Reopen(st, kept).value, gc, persistGc);
    SameLiveData(Reopen(st, kept).value, gc, persistGc);
  }

  lemma SameLiveData(st: State, gc: bool, persistGc: Persist)
    ensures DelHistory(st, gc, persistGc).live == st.live
  {}

  lemma ReopenRep(st: State, kept: nat)
    requires Rep(st) && Enabled(st, Crash(kept, false, Untouched)) && Sds.QuoteSafe(st.prefix)
    requires kept <= |Encode(st.recs)| && Repaired(st, kept)
    ensures Reopen(st, kept).Some? && Rep(Reopen(st, kept).value)
    ensures Reopen(st, kept).value.live <= st.live && !Ahead(Reopen(st, kept).value)
  {
    hide Rep, Reopen, TornEnd, Damaged, Holds;
    if Ahead(st) { ReopenNext(st, kept); } else { ReopenLast(st, kept); }
  }

  lemma ReopenLast(st: State, kept: nat)
    requires Rep(st) && Enabled(st, Crash(kept, false, Untouched)) && !Ahead(st) && Sds.QuoteSafe(st.prefix)
    requires kept <= |Encode(st.recs)| && Repaired(st, kept)
    ensures Reopen(st, kept).Some? && Rep(Reopen(st, kept).value)
    ensures Reopen(st, kept).value.live <= st.live && !Ahead(Reopen(st, kept).value)
  {
    hide LoadClosed, Tracks, PerformAll, StateAfter, Encode, Load, LoadAll, CutHistory, ManifestText.Reloaded, Consistent,
      Remaining, Stored, CutNote, TornEnd, LoadDisk, ManifestText.ThroughText, Sds.QuoteSafe, Legal, Short;
    var p := st.log.file[..kept];
    CutLoads(st, kept);
    RepDisk(st, WithOpen(st, p));
    LoadWithOpen(st, p);
    RemainingTracked(st.recs, kept, st.selected, st.live[|st.pre|..]);
    ReloadedDisk(st.prefix, st.am, st.disk);
    SameOrAhead(st);
    SameLoad(st.disk, WithOpen(st, p));
    var r := Reopen(st, kept).value;
    NamesFrom(st.am, st.disk);
    assert r.log.file == Restarted(st.recs, kept, TABLE);
    assert r.live == st.pre + LoadedHistory(st.recs, kept);
    assert r.log.file + [] == r.log.file;
  }

  lemma SameLoad(am: Manifest, files: Files)
    ensures LoadAll(ManifestText.Reloaded(am), files) == LoadAll(am, files)
  {
    hide LoadClosed, LoadOne;
    SameNames(am);
  }

  /** The cut file is now a closed one, and the empty one that follows it is opened. */
  lemma ReopenNext(st: State, kept: nat)
    requires Rep(st) && Enabled(st, Crash(kept, false, Untouched)) && Ahead(st) && Sds.QuoteSafe(st.prefix)
    requires kept <= |Encode(st.recs)| && Repaired(st, kept)
    ensures Reopen(st, kept).Some? && Rep(Reopen(st, kept).value)
    ensures Reopen(st, kept).value.live <= st.live && !Ahead(Reopen(st, kept).value)
  {
    hide LoadClosed, Tracks, PerformAll, StateAfter, Encode, Load, LoadOne, LoadAll, CutHistory, ManifestText.Reloaded, Consistent, TornEnd,
      IncrFileName, Names, LoadDisk, ManifestText.ThroughText, Sds.QuoteSafe, Legal, Short;
    var p := st.log.file[..kept];
    CutLoads(st, kept);
    RepDisk(st, WithOpen(st, p));
    LoadWithOpen(st, p);
    ReloadedDisk(st.prefix, st.am, st.disk);
    SameOrAhead(st);
    AheadNames(st.prefix, st.am, st.disk);
    SameLoad(st.disk, WithOpen(st, p));
    var r := Reopen(st, kept).value;
    NamesFrom(r.am, st.disk);
    assert ClosedNames(r.am) == Names(st.am);
    NothingTracked(-1);
    assert Stored([], 0) == [];
    assert r.live[|r.live|..] == [];
  }

  // ----- Runs -----

  /** The steps of `es` can be taken one after the other and are all safe. */
  predicate Runs(st: State, es: seq<Event>)
    decreases es
  {
    es == [] ||
    (&& Enabled(st, es[0]) && Safe(st, es[0])
     && match Step(st, es[0]) case None => true case Some(st') => Runs(st', es[1..]))
  }

  /** The state after a run; None once the process has exited. */
  function After(st: State, es: seq<Event>): (r: Option<State>)
    requires Runs(st, es)
    decreases es
  {
    if es == [] then Some(st)
    else match Step(st, es[0])
      case None => None
      case Some(st') => After(st', es[1..])
  }

  lemma StepRep(st: State, e: Event)
    requires Rep(st) && Enabled(st, e) && Safe(st, e) && Step(st, e).Some?
    ensures Rep(Step(st, e).value)
  {
    hide Rep, Feed, StartRewrite, RewriteDone, Restart, Flush, Joins, Taken;
    match e
    case Unit(ops, stamps, transaction) => FeedRep(st, ops, stamps, transaction);
    case Flushing(env) => FlushRep(st, env);
    case Rewrite(dirOk, env, openOk, persist, forkOk) => RewriteRep(st, dirOk, env, openOk, persist, forkOk);
    case ChildExit(success, rdb, renameOk, persist, gc, persistGc) =>
      DoneRep(st, success, rdb, renameOk, persist, gc, persistGc);
    case Crash(kept, gc, persistGc) => RestartRep(st, kept, gc, persistGc);
  }

  lemma {:induction false} RunRep(st: State, es: seq<Event>)
    requires Rep(st) && Runs(st, es)
    ensures After(st, es).Some? ==> Rep(After(st, es).value) && After(st, es).value.prefix == st.prefix
    decreases es
  {
    hide Rep, Enabled, Safe, Step;
    if es != [] && Step(st, es[0]).Some? {
      StepRep(st, es[0]);
      SamePrefix(st, es[0]);
      RunRep(Step(st, es[0]).value, es[1..]);
    }
  }

  lemma SamePrefix(st: State, e: Event)
    requires Enabled(st, e)
    ensures Step(st, e).Some? ==> Step(st, e).value.prefix == st.prefix
  {
    hide Flush, LoadAll, ManifestText.ThroughText, Holds, Remaining, Load;
  }

  lemma RepRunning(st: State)
    requires Rep(st)
    ensures Running(st)
  {}

  /**
   * In every state a safe run from an empty directory reaches: reading the manifest on disk and
   * replaying the files it lists and then the buffer gives exactly the live dataset, if and only if
   * the configured file name is quote-safe. A crash that keeps any prefix of the open file loads a
   * prefix of it that has everything in the closed files, and it loads if and only if, in addition,
   * the file does not end inside a command or transaction while the manifest is ahead.
   */
  lemma EveryRunReplays(prefix: Bytes, rdb: bool, es: seq<Event>, n: nat)
    requires Legal(prefix) && NameFits(prefix, 1)
    requires Runs(Start(prefix, rdb), es) && After(Start(prefix, rdb), es).Some?
    ensures var st := After(Start(prefix, rdb), es).value;
            && Running(st) && (Replays(st) <==> Sds.QuoteSafe(prefix))
            && (n <= |st.log.file| ==>
                var r := LoadDisk(st.disk, WithOpen(st, st.log.file[..n]));
                && n <= |Encode(st.recs)| && (r.Some? <==> Sds.QuoteSafe(prefix) && !(Ahead(st) && TornEnd(st.recs, n)))
                && (r.Some? ==> st.pre <= r.value <= st.live))
  {
    StartsWith(prefix, rdb);
    hide Rep, Start, Runs, After, Replays, LoadDisk, TornEnd, Legal, Sds.QuoteSafe;
    StartRep(prefix, rdb);
    RunRep(Start(prefix, rdb), es);
    var st := After(Start(prefix, rdb), es).value;
    RepRunning(st);
    RepReplays(st);
    if n <= |st.log.file| { CrashLosesOnlyTail(st, n); }
  }

  lemma StartsWith(prefix: Bytes, rdb: bool)
    ensures Start(prefix, rdb).prefix == prefix
  {}

  lemma WholeOpenJournal(st: State, last: bool)
    requires Rep(st)
    ensures LoadOne(Journal(st.log.file + st.log.buf), st.pre, last) == Some(st.live)
  {
    hide LoadOne, Tracks, Manifests, LoadClosed, Encode, Stored;
    WholeJournal(st.recs, st.lost, st.selected, st.live[|st.pre|..], st.pre, last);
    assert st.pre + st.live[|st.pre|..] == st.live;
  }

  lemma UnitWellFormed(recs: seq<Record>, selected: int, h: History, ops: seq<Op>, stamps: seq<Option<nat>>, transaction: bool)
    requires Tracks(recs, selected, h, false) && PropagatedAll(ops) && DueStamps(stamps) && |stamps| == |ops| + 2
    ensures WellFormedLog(UnitRecords(selected, ops, stamps, transaction))
  {
    hide WellFormed, StateAfter, PerformAll, UnitRecords;
    var rs := UnitRecords(selected, ops, stamps, transaction);
    TrackUnit(recs, selected, h, ops, stamps, transaction);
    forall i | 0 <= i < |rs| ensures WellFormed(rs[i]) { assert (recs + rs)[|recs| + i] == rs[i]; }
  }
}
