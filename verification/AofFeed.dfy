/**
 * What the server appends to the log for an execution unit (aof.c: feedAppendOnlyFile, called
 * from propagatePendingCommands in server.c) and what replaying a log does to the databases.
 *
 * A dataset is represented by the history of writes that produced it: which command was run on
 * which database, in order. Equal histories give equal datasets under any meaning of commands.
 */
module AofFeed {
  import opened Wrappers
  import opened Words
  import opened Decimal
  import opened AofProtocol
  import opened AofRecovery

  datatype Effect = Effect(db: nat, argv: Command)

  type History = seq<Effect>

  const SELECT: Bytes := [83, 69, 76, 69, 67, 84]
  const SELECT_LOWER: Bytes := [115, 101, 108, 101, 99, 116]
  const MULTI_UPPER: Bytes := [77, 85, 76, 84, 73]
  const EXEC_UPPER: Bytes := [69, 88, 69, 67]

  predicate IsSelect(argv: Command) { |argv| == 2 && Lower(argv[0]) == SELECT_LOWER }

  // ----- Replaying commands -----

  /** The writes done so far and the database the fake client has selected. */
  datatype Replay = Replay(history: History, db: nat)

  function Perform(r: Replay, argv: Command): (r': Replay) {
    if IsSelect(argv) then (if Atoi(argv[1]) >= 0 then r.(db := Atoi(argv[1])) else r)
    else r.(history := r.history + [Effect(r.db, argv)])
  }

  function PerformAll(r: Replay, cs: seq<Command>): (r': Replay) {
    if cs == [] then r else Perform(PerformAll(r, cs[..|cs| - 1]), cs[|cs| - 1])
  }

  lemma PerformSnoc(r: Replay, cs: seq<Command>, c: Command)
    ensures PerformAll(r, cs + [c]) == Perform(PerformAll(r, cs), c)
  {
    hide Perform;
    assert (cs + [c])[..|cs|] == cs;
  }

  /** Replay only appends to the history it starts from. */
  lemma {:induction false} PerformFrom(h: History, g: History, db: nat, cs: seq<Command>)
    ensures PerformAll(Replay(h + g, db), cs) ==
            Replay(h + PerformAll(Replay(g, db), cs).history, PerformAll(Replay(g, db), cs).db)
  {
    if cs != [] {
      hide IsSelect, Atoi;
      PerformFrom(h, g, db, cs[..|cs| - 1]);
    }
  }

  lemma {:induction false} PerformAppend(r: Replay, a: seq<Command>, b: seq<Command>)
    ensures PerformAll(r, a + b) == PerformAll(PerformAll(r, a), b)
  {
    hide Perform;
    if b == [] {
      assert a + b == a;
    } else {
      var n := |b| - 1;
      assert (a + b)[..|a| + n] == a + b[..n];
      PerformAppend(r, a, b[..n]);
    }
  }

  lemma PerformFirst(r: Replay, cs: seq<Command>)
    requires cs != []
    ensures PerformAll(r, cs) == PerformAll(Perform(r, cs[0]), cs[1..])
  {
    hide Perform;
    var first := [cs[0]];
    assert first[..0] == [] && PerformAll(r, first) == Perform(PerformAll(r, first[..0]), cs[0]);
    PerformAppend(r, first, cs[1..]);
    assert first + cs[1..] == cs;
  }

  /** No write comes before the first SELECT. */
  predicate Selects(cs: seq<Command>)
    decreases cs
  {
    cs == [] || (IsSelect(cs[0]) && (Atoi(cs[0][1]) >= 0 || Selects(cs[1..])))
  }

  /** Commands do the same in database 0 as in database `db` exactly if that is 0 or they select their own. */
  lemma {:induction false} SameFromZero(db: nat, cs: seq<Command>)
    ensures PerformAll(Replay([], 0), cs).history == PerformAll(Replay([], db), cs).history <==> db == 0 || Selects(cs)
    decreases cs
  {
    if cs != [] {
      hide Atoi, IsSelect;
      PerformFirst(Replay([], 0), cs);
      PerformFirst(Replay([], db), cs);
      if IsSelect(cs[0]) {
        if Atoi(cs[0][1]) < 0 { SameFromZero(db, cs[1..]); }
      } else {
        WriteFirst(0, cs[0], cs[1..]);
        WriteFirst(db, cs[0], cs[1..]);
      }
    }
  }

  lemma WriteFirst(db: nat, argv: Command, cs: seq<Command>)
    requires !IsSelect(argv)
    ensures var h := PerformAll(Perform(Replay([], db), argv), cs).history; h != [] && h[0] == Effect(db, argv)
  {
    hide IsSelect;
    var e := [Effect(db, argv)];
    assert [] + e == e && e + [] == e;
    PerformFrom(e, [], db, cs);
  }

  lemma {:induction false} PerformExtends(r: Replay, cs: seq<Command>, k: nat)
    requires k <= |cs|
    ensures PerformAll(r, cs[..k]).history <= PerformAll(r, cs).history
  {
    if k == |cs| {
      assert cs[..k] == cs;
    } else {
      hide IsSelect, Atoi;
      var n := |cs| - 1;
      PerformExtends(r, cs[..n], k);
      assert cs[..n][..k] == cs[..k];
    }
  }

  // ----- Feeding -----

  function Stamp(t: nat): (r: Record) { Annotation([84, 83, 58] + Dec(t)) }  // TS:<t>

  function SelectRecord(db: nat): (r: Record) { Write([SELECT, Dec(db)]) }

  predicate NeedsSelect(selected: int, dictid: int) { dictid != -1 && dictid != selected }

  /** The records of one feedAppendOnlyFile call. */
  function FeedRecords(selected: int, dictid: int, argv: Command, stamp: Option<nat>): (rs: seq<Record>)
    requires dictid >= -1
  {
    (if stamp.Some? then [Stamp(stamp.value)] else [])
    + (if NeedsSelect(selected, dictid) then [SelectRecord(dictid)] else [])
    + [Write(argv)]
  }

  function SelectedAfter(selected: int, dictid: int): (s: int) { if dictid == -1 then selected else dictid }

  /** The text printed for a SELECT: "*2", then "$6" and SELECT, then the number. */
  function SelectText(db: nat): (s: Bytes) {
    [42, 50, 13, 10]
    + (([36, 54, 13, 10] + SELECT + [13, 10])
       + ([36] + Dec(|Dec(db)|) + [13, 10] + Dec(db) + [13, 10]))
  }

  lemma SelectBytes(db: nat)
    ensures EncodeRecord(SelectRecord(db)) == SelectText(db)
  {
    hide EncodeArg, EncodeArgs, Dec;
    TwoDigit();
    TwoArgs(SELECT, Dec(db));
    SelectArg();
    DbArg(db);
    assert [STAR] + Dec(2) + CRLF == [42, 50, 13, 10];
  }

  lemma TwoDigit()
    ensures Dec(2) == [50]
  {}

  lemma TwoArgs(a: Bytes, b: Bytes)
    ensures EncodeArgs([a, b]) == EncodeArg(a) + EncodeArg(b)
  {
    hide EncodeArg, EncodeArgs;
    var argv: Command := [a, b];
    NoArgs();
    LastArg(argv, 0);
    LastArg(argv, 1);
    assert argv[..0] == [] && argv[..2] == argv;
  }

  lemma SelectArg()
    ensures EncodeArg(SELECT) == [36, 54, 13, 10] + SELECT + [13, 10]
  {
    assert Dec(6) == [54];
  }

  lemma DbArg(db: nat)
    ensures EncodeArg(Dec(db)) == [36] + Dec(|Dec(db)|) + [13, 10] + Dec(db) + [13, 10]
  {
    hide Dec;
  }

  lemma EncodeOne(r: Record)
    ensures Encode([r]) == EncodeRecord(r)
  {
    hide EncodeRecord;
    assert [r][1..] == [];
    assert Encode([]) == [];
  }

  /** feedAppendOnlyFile with AOF on; `stamp` is the timestamp annotation, if one is due. */
  method FeedAppendOnlyFile(buf: Bytes, selected: int, dictid: int, argv: Command, stamp: Option<nat>)
    returns (buf': Bytes, selected': int)
    requires dictid >= -1
    ensures buf' == buf + Encode(FeedRecords(selected, dictid, argv, stamp))
    ensures selected' == SelectedAfter(selected, dictid)
  {
    hide EncodeCommand, Dec;
    selected' := selected;
    var out: Bytes := [];
    ghost var rs: seq<Record> := [];
    if stamp.Some? {
      out := out + ([HASH, 84, 83, 58] + Dec(stamp.value) + [CR, LF]);
      StampBytes(stamp.value);
      rs := [Stamp(stamp.value)];
      EncodeOne(Stamp(stamp.value));
    }
    assert out == Encode(rs);
    if dictid != -1 && dictid != selected {
      out := out + SelectText(dictid);
      SelectBytes(dictid);
      EncodeOne(SelectRecord(dictid));
      EncodeAppend(rs, [SelectRecord(dictid)]);
      rs := rs + [SelectRecord(dictid)];
      selected' := dictid;
    }
    assert out == Encode(rs);
    EncodeOne(Write(argv));
    EncodeAppend(rs, [Write(argv)]);
    out := CatCommand(out, argv);
    assert rs + [Write(argv)] == FeedRecords(selected, dictid, argv, stamp);
    buf' := buf + out;
  }

  lemma StampBytes(t: nat)
    ensures EncodeRecord(Stamp(t)) == [HASH, 84, 83, 58] + Dec(t) + [CR, LF]
  {
    hide Dec;
  }

  // ----- Execution units -----

  datatype Op = Op(db: nat, argv: Command)

  /** A write command as the server propagates it. */
  predicate Propagated(op: Op) {
    WellFormed(Write(op.argv)) && !IsSelect(op.argv) && !IsMulti(op.argv) && !IsExec(op.argv)
    && op.db < 0x8000_0000
  }

  predicate DueStamp(s: Option<nat>) { s.Some? ==> s.value < 0x8000_0000_0000_0000 }

  /** The records of the commands of a unit, one feed call each. */
  function OpRecords(selected: int, ops: seq<Op>, stamps: seq<Option<nat>>): (rs: seq<Record>)
    requires |stamps| == |ops|
  {
    if ops == [] then []
    else
      var n := |ops| - 1;
      OpRecords(selected, ops[..n], stamps[..n])
      + FeedRecords(SelectedOps(selected, ops[..n]), ops[n].db, ops[n].argv, stamps[n])
  }

  function SelectedOps(selected: int, ops: seq<Op>): (s: int) {
    if ops == [] then selected else ops[|ops| - 1].db
  }

  /** A unit of several commands is wrapped in MULTI and EXEC, fed without a SELECT of their own. */
  function UnitRecords(selected: int, ops: seq<Op>, stamps: seq<Option<nat>>, transaction: bool): (rs: seq<Record>)
    requires |stamps| == |ops| + 2
  {
    var body := OpRecords(selected, ops, stamps[1..|ops| + 1]);
    if transaction then
      FeedRecords(selected, -1, [MULTI_UPPER], stamps[0]) + body
      + FeedRecords(SelectedOps(selected, ops), -1, [EXEC_UPPER], stamps[|ops| + 1])
    else body
  }

  function Effects(ops: seq<Op>): (h: History)
    ensures |h| == |ops|
  {
    seq(|ops|, i requires 0 <= i < |ops| => Effect(ops[i].db, ops[i].argv))
  }

  method FeedOps(buf: Bytes, selected: int, ops: seq<Op>, stamps: seq<Option<nat>>)
    returns (buf': Bytes, selected': int)
    requires |stamps| == |ops|
    ensures buf' == buf + Encode(OpRecords(selected, ops, stamps))
    ensures selected' == SelectedOps(selected, ops)
  {
    hide FeedRecords, EncodeRecord;
    buf', selected' := buf, selected;
    assert ops[..0] == [];
    for j := 0 to |ops|
      invariant buf' == buf + Encode(OpRecords(selected, ops[..j], stamps[..j]))
      invariant selected' == SelectedOps(selected, ops[..j])
    {
      assert ops[..j + 1][..j] == ops[..j] && stamps[..j + 1][..j] == stamps[..j];
      EncodeAppend(OpRecords(selected, ops[..j], stamps[..j]),
                   FeedRecords(selected', ops[j].db, ops[j].argv, stamps[j]));
      buf', selected' := FeedAppendOnlyFile(buf', selected', ops[j].db, ops[j].argv, stamps[j]);
    }
    assert ops[..|ops|] == ops && stamps[..|ops|] == stamps;
  }

  /** propagatePendingCommands, as far as the AOF is concerned. */
  method Propagate(buf: Bytes, selected: int, ops: seq<Op>, stamps: seq<Option<nat>>, transaction: bool)
    returns (buf': Bytes, selected': int)
    requires |stamps| == |ops| + 2
    ensures buf' == buf + Encode(UnitRecords(selected, ops, stamps, transaction))
    ensures selected' == SelectedOps(selected, ops)
  {
    hide FeedRecords, OpRecords, EncodeRecord;
    var n := |ops|;
    if transaction {
      buf', selected' := FeedAppendOnlyFile(buf, selected, -1, [MULTI_UPPER], stamps[0]);
      ghost var open := FeedRecords(selected, -1, [MULTI_UPPER], stamps[0]);
      buf', selected' := FeedOps(buf', selected', ops, stamps[1..n + 1]);
      ghost var body := OpRecords(selected, ops, stamps[1..n + 1]);
      ghost var close := FeedRecords(selected', -1, [EXEC_UPPER], stamps[n + 1]);
      EncodeAppend(open, body);
      EncodeAppend(open + body, close);
      buf', selected' := FeedAppendOnlyFile(buf', selected', -1, [EXEC_UPPER], stamps[n + 1]);
    } else {
      buf', selected' := FeedOps(buf, selected, ops, stamps[1..n + 1]);
    }
  }

  // ----- What the appended records mean -----

  lemma StateSnoc(log: seq<Record>, r: Record)
    ensures StateAfter(log + [r]) ==
            if r.Write? then Run(StateAfter(log), r.argv, |Encode(log + [r])|) else StateAfter(log)
  {
    hide Run, Encode;
    assert (log + [r])[..|log|] == log;
  }

  /** The commands run or waiting for EXEC. */
  function Pending(st: LoadState): (cs: seq<Command>) {
    st.executed + (if st.queue.Some? then st.queue.value else [])
  }

  /**
   * Replaying `log` from database 0 does the writes `h`, and the database it ends in is the one
   * the server thinks is selected; `open` inside MULTI.
   */
  ghost predicate Tracks(log: seq<Record>, selected: int, h: History, open: bool) {
    var st := StateAfter(log);
    var r := PerformAll(Replay([], 0), Pending(st));
    && WellFormedLog(log) && FlatMulti(log)
    && st.queue.Some? == open
    && r.history == h && (selected == -1 || selected == r.db)
  }

  lemma RunPending(st: LoadState, argv: Command, end: nat)
    ensures var st' := Run(st, argv, end);
            if !IsMulti(argv) && !IsExec(argv) then
              Pending(st') == Pending(st) + [argv] && st'.queue.Some? == st.queue.Some?
            else if IsMulti(argv) && st.queue.None? then
              Pending(st') == Pending(st) && st'.queue.Some?
            else IsExec(argv) && st.queue.Some? ==>
              Pending(st') == Pending(st) && st'.queue.None?
  {
    hide IsMulti, IsExec;
  }

  lemma WellFormedSnoc(log: seq<Record>, r: Record)
    requires WellFormedLog(log) && FlatMulti(log) && WellFormed(r)
    requires r.Write? && IsMulti(r.argv) ==> StateAfter(log).queue.None?
    ensures WellFormedLog(log + [r]) && FlatMulti(log + [r])
  {
    hide WellFormed, IsMulti, StateAfter;
    var log' := log + [r];
    forall i | 0 <= i < |log'| && log'[i].Write? && IsMulti(log'[i].argv) ensures StateAfter(log'[..i]).queue.None? {
      assert log'[..i] == if i < |log| then log[..i] else log;
    }
  }

  lemma TrackAnnotation(log: seq<Record>, selected: int, h: History, open: bool, t: nat)
    requires Tracks(log, selected, h, open) && t < 0x8000_0000_0000_0000
    ensures Tracks(log + [Stamp(t)], selected, h, open)
  {
    StampWellFormed(t);
    hide StateAfter, PerformAll, Pending, WellFormed;
    StateSnoc(log, Stamp(t));
    WellFormedSnoc(log, Stamp(t));
  }

  lemma StampWellFormed(t: nat)
    requires t < 0x8000_0000_0000_0000
    ensures WellFormed(Stamp(t))
  {
    hide Dec, Pow10;
    Pow10Of20();
    DecShape(t);
    DecLength(t, 20);
  }

  lemma TrackCommand(log: seq<Record>, selected: int, h: History, open: bool, argv: Command, r: Replay, s: int)
    requires Tracks(log, selected, h, open)
    requires r == PerformAll(Replay([], 0), Pending(StateAfter(log)))
    requires WellFormed(Write(argv)) && !IsMulti(argv) && !IsExec(argv)
    requires s == -1 || s == Perform(r, argv).db
    ensures Tracks(log + [Write(argv)], s, Perform(r, argv).history, open)
  {
    hide StateAfter, PerformAll, WellFormed, Run, IsMulti, IsExec, Perform;
    var st := StateAfter(log);
    StateSnoc(log, Write(argv));
    WellFormedSnoc(log, Write(argv));
    hide Pending;
    RunPending(st, argv, |Encode(log + [Write(argv)])|);
    PerformSnoc(Replay([], 0), Pending(st), argv);
  }

  lemma SelectCommand(db: nat)
    requires db < 0x8000_0000
    ensures var argv: Command := [SELECT, Dec(db)];
            IsSelect(argv) && Atoi(argv[1]) == db && !IsMulti(argv) && !IsExec(argv) && WellFormed(Write(argv))
  {
    AtoiOfDec(db, []);
    assert Dec(db) + [] == Dec(db);
    hide Dec, Atoi, Pow10;
    Pow10Of20();
    DecLength(db, 20);
    assert Lower(SELECT) == SELECT_LOWER;
    assert SELECT_LOWER[0] != MULTI[0] && SELECT_LOWER[0] != EXEC[0];
  }

  /** One propagated command, with whatever annotation and SELECT come first. */
  lemma TrackOp(log: seq<Record>, selected: int, h: History, open: bool, op: Op, stamp: Option<nat>)
    requires Tracks(log, selected, h, open) && Propagated(op) && DueStamp(stamp)
    ensures Tracks(log + FeedRecords(selected, op.db, op.argv, stamp), op.db, h + [Effect(op.db, op.argv)], open)
  {
    hide Tracks, Dec, WellFormed, IsMulti, IsExec, IsSelect, Atoi;
    var log1 := log + (if stamp.Some? then [Stamp(stamp.value)] else []);
    if stamp.Some? {
      TrackAnnotation(log, selected, h, open, stamp.value);
    } else {
      assert log1 == log;
    }
    var log2 := log1 + (if NeedsSelect(selected, op.db) then [SelectRecord(op.db)] else []);
    if NeedsSelect(selected, op.db) {
      TrackSelect(log1, selected, h, open, op.db);
    } else {
      assert log2 == log1;
    }
    TrackWrite(log2, h, open, op);
    assert log2 + [Write(op.argv)] == log + FeedRecords(selected, op.db, op.argv, stamp);
  }

  lemma TrackSelect(log: seq<Record>, selected: int, h: History, open: bool, db: nat)
    requires Tracks(log, selected, h, open) && db < 0x8000_0000
    ensures Tracks(log + [SelectRecord(db)], db, h, open)
  {
    SelectCommand(db);
    hide WellFormed, IsMulti, IsExec, IsSelect, Atoi, Dec, StateAfter, PerformAll;
    var r := PerformAll(Replay([], 0), Pending(StateAfter(log)));
    TrackCommand(log, selected, h, open, [SELECT, Dec(db)], r, db);
    assert Perform(r, [SELECT, Dec(db)]).history == h;
  }

  lemma TrackWrite(log: seq<Record>, h: History, open: bool, op: Op)
    requires Tracks(log, op.db, h, open) && Propagated(op)
    ensures Tracks(log + [Write(op.argv)], op.db, h + [Effect(op.db, op.argv)], open)
  {
    hide WellFormed, IsMulti, IsExec, IsSelect, Atoi, StateAfter, PerformAll;
    var r := PerformAll(Replay([], 0), Pending(StateAfter(log)));
    TrackCommand(log, op.db, h, open, op.argv, r, op.db);
    assert Perform(r, op.argv).history == h + [Effect(op.db, op.argv)];
  }

  predicate PropagatedAll(ops: seq<Op>) { forall i :: 0 <= i < |ops| ==> Propagated(ops[i]) }

  predicate DueStamps(ss: seq<Option<nat>>) { forall i :: 0 <= i < |ss| ==> DueStamp(ss[i]) }

  lemma {:induction false} TrackOps(log: seq<Record>, selected: int, h: History, open: bool, ops: seq<Op>, stamps: seq<Option<nat>>)
    requires Tracks(log, selected, h, open) && PropagatedAll(ops) && DueStamps(stamps) && |stamps| == |ops|
    ensures Tracks(log + OpRecords(selected, ops, stamps), SelectedOps(selected, ops), h + Effects(ops), open)
  {
    hide Tracks, FeedRecords, Propagated;
    if ops == [] {
      assert log + [] == log && h + Effects(ops) == h;
    } else {
      var n := |ops| - 1;
      TrackOps(log, selected, h, open, ops[..n], stamps[..n]);
      var log', sel := log + OpRecords(selected, ops[..n], stamps[..n]), SelectedOps(selected, ops[..n]);
      TrackOp(log', sel, h + Effects(ops[..n]), open, ops[n], stamps[n]);
      assert h + Effects(ops[..n]) + [Effect(ops[n].db, ops[n].argv)] == h + Effects(ops);
      assert log' + FeedRecords(sel, ops[n].db, ops[n].argv, stamps[n]) == log + OpRecords(selected, ops, stamps);
    }
  }

  lemma TrackBracketCommand(log: seq<Record>, selected: int, h: History, open: bool, argv: Command)
    requires Tracks(log, selected, h, open)
    requires WellFormed(Write(argv)) && IsMulti(argv) == !open && IsExec(argv) == open
    ensures Tracks(log + [Write(argv)], selected, h, !open)
  {
    hide StateAfter, PerformAll, WellFormed, IsMulti, IsExec, Run, Pending;
    StateSnoc(log, Write(argv));
    WellFormedSnoc(log, Write(argv));
    RunPending(StateAfter(log), argv, |Encode(log + [Write(argv)])|);
  }

  lemma BracketCommand(open: bool)
    ensures var argv: Command := [if open then EXEC_UPPER else MULTI_UPPER];
            IsMulti(argv) == !open && IsExec(argv) == open && WellFormed(Write(argv))
  {
    assert Lower(MULTI_UPPER) == MULTI && Lower(EXEC_UPPER) == EXEC && MULTI[0] != EXEC[0];
  }

  /** MULTI and EXEC open and close the transaction without a write of their own. */
  lemma TrackBracket(log: seq<Record>, selected: int, h: History, open: bool, stamp: Option<nat>)
    requires Tracks(log, selected, h, open) && DueStamp(stamp)
    ensures Tracks(log + FeedRecords(selected, -1, [if open then EXEC_UPPER else MULTI_UPPER], stamp), selected, h, !open)
  {
    var argv: Command := [if open then EXEC_UPPER else MULTI_UPPER];
    BracketCommand(open);
    hide Tracks, WellFormed, IsMulti, IsExec;
    var log1 := log + (if stamp.Some? then [Stamp(stamp.value)] else []);
    if stamp.Some? {
      TrackAnnotation(log, selected, h, open, stamp.value);
    } else {
      assert log1 == log;
    }
    TrackBracketCommand(log1, selected, h, open, argv);
    assert log1 + [Write(argv)] == log + FeedRecords(selected, -1, argv, stamp);
  }

  /** Feeding an execution unit makes the log replay exactly the unit's writes as well. */
  lemma TrackUnit(log: seq<Record>, selected: int, h: History, ops: seq<Op>, stamps: seq<Option<nat>>, transaction: bool)
    requires Tracks(log, selected, h, false) && PropagatedAll(ops) && DueStamps(stamps) && |stamps| == |ops| + 2
    ensures Tracks(log + UnitRecords(selected, ops, stamps, transaction), SelectedOps(selected, ops), h + Effects(ops), false)
  {
    hide Tracks, FeedRecords, OpRecords, Propagated;
    var n := |ops|;
    if transaction {
      var l1 := log + FeedRecords(selected, -1, [MULTI_UPPER], stamps[0]);
      TrackBracket(log, selected, h, false, stamps[0]);
      var l2 := l1 + OpRecords(selected, ops, stamps[1..n + 1]);
      TrackOps(l1, selected, h, true, ops, stamps[1..n + 1]);
      TrackBracket(l2, SelectedOps(selected, ops), h + Effects(ops), true, stamps[n + 1]);
      assert l2 + FeedRecords(SelectedOps(selected, ops), -1, [EXEC_UPPER], stamps[n + 1])
          == log + UnitRecords(selected, ops, stamps, transaction);
    } else {
      TrackOps(log, selected, h, false, ops, stamps[1..n + 1]);
    }
  }

  // ----- Losing the end of a log -----

  /** What a prefix of the log runs is a prefix of what the log runs. */
  lemma {:induction false} ExecutedExtends(log: seq<Record>, k: nat)
    requires k <= |log|
    ensures StateAfter(log[..k]).executed <= StateAfter(log).executed
  {
    hide *;
    if k == |log| {
      assert log[..k] == log;
    } else {
      var n := |log| - 1;
      ExecutedExtends(log[..n], k);
      assert log[..n][..k] == log[..k] && log[..n + 1] == log;
      StateAt(log, n + 1);
      if log[n].Write? { RunExtends(StateAfter(log[..n]), log[n].argv, |Encode(log)|); }
    }
  }

  lemma RunExtends(st: LoadState, argv: Command, end: nat)
    ensures st.executed <= Run(st, argv, end).executed
  {}

  lemma CutLogHistory(log: seq<Record>, k: nat, selected: int, h: History)
    requires k <= |log| && Tracks(log, selected, h, false)
    ensures PerformAll(Replay([], 0), StateAfter(log[..k]).executed).history <= h
  {
    hide PerformAll, StateAfter;
    ExecutedExtends(log, k);
    var cs := StateAfter(log).executed;
    assert Pending(StateAfter(log)) == cs;
    var m := |StateAfter(log[..k]).executed|;
    assert cs[..m] == StateAfter(log[..k]).executed;
    PerformExtends(Replay([], 0), cs, m);
  }

  // ----- What a unit writes -----

  /** One feed call writes an annotation only if one is due and a SELECT only if the database changes. */
  lemma FeedShape(selected: int, dictid: int, argv: Command, stamp: Option<nat>)
    requires dictid >= -1
    ensures var rs := FeedRecords(selected, dictid, argv, stamp);
            && |rs| == 1 + (if stamp.Some? then 1 else 0) + (if dictid == -1 || dictid == selected then 0 else 1)
            && rs[|rs| - 1] == Write(argv)
            && (stamp.Some? ==> rs[0] == Annotation([84, 83, 58] + Dec(stamp.value)))
            && (dictid != -1 && dictid != selected ==> rs[|rs| - 2] == Write([SELECT, Dec(dictid)]))
  {
    hide Dec;
  }

  lemma {:induction false} NoExecInOps(selected: int, ops: seq<Op>, stamps: seq<Option<nat>>)
    requires |stamps| == |ops| && PropagatedAll(ops)
    ensures !HasExec(OpRecords(selected, ops, stamps))
  {
    if ops != [] {
      var n := |ops| - 1;
      hide Dec;
      NoExecInOps(selected, ops[..n], stamps[..n]);
      assert Propagated(ops[n]);
      SelectCommand(ops[n].db);
      hide IsExec, IsMulti, IsSelect, Atoi;
      NoExecAppend(OpRecords(selected, ops[..n], stamps[..n]), FeedRecords(SelectedOps(selected, ops[..n]), ops[n].db, ops[n].argv, stamps[n]));
    }
  }

  lemma NoExecAppend(a: seq<Record>, b: seq<Record>)
    ensures HasExec(a + b) <==> HasExec(a) || HasExec(b)
  {
    hide IsExec;
    if HasExec(a) { var i :| 0 <= i < |a| && a[i].Write? && IsExec(a[i].argv); assert (a + b)[i] == a[i]; }
    if HasExec(b) { var i :| 0 <= i < |b| && b[i].Write? && IsExec(b[i].argv); assert (a + b)[|a| + i] == b[i]; }
    if HasExec(a + b) {
      var i :| 0 <= i < |a + b| && (a + b)[i].Write? && IsExec((a + b)[i].argv);
      assert i >= |a| ==> (a + b)[i] == b[i - |a|];
    }
  }

  /** In a transaction, everything up to the EXEC only queues. */
  lemma {:induction false} OnlyQueues(log: seq<Record>, m: seq<Record>, k: nat)
    requires StateAfter(log).queue.Some? && !HasExec(m) && k <= |m|
    ensures StateAfter(log + m[..k]).queue.Some? && StateAfter(log + m[..k]).executed == StateAfter(log).executed
    decreases k
  {
    hide *;
    if k == 0 {
      assert log + m[..0] == log;
    } else {
      OnlyQueues(log, m, k - 1);
      StateAppended(log, m, k);
      NotExecAt(m, k);
      if m[k - 1].Write? { Queues(StateAfter(log + m[..k - 1]), m[k - 1].argv, |Encode(log + m[..k])|); }
    }
  }

  lemma Queues(st: LoadState, argv: Command, end: nat)
    requires st.queue.Some? && !IsExec(argv)
    ensures Run(st, argv, end).queue.Some? && Run(st, argv, end).executed == st.executed
  {}

  /** The records of a transaction: perhaps an annotation, MULTI, records without EXEC, EXEC. */
  lemma UnitShape(selected: int, ops: seq<Op>, stamps: seq<Option<nat>>) returns (notes: seq<Record>, body: seq<Record>)
    requires |stamps| == |ops| + 2 && PropagatedAll(ops)
    ensures UnitRecords(selected, ops, stamps, true) == notes + [Write([MULTI_UPPER])] + body + [Write([EXEC_UPPER])]
    ensures NoCommands(notes) && !HasExec(body)
  {
    notes := if stamps[0].Some? then [Stamp(stamps[0].value)] else [];
    var middle := OpRecords(selected, ops, stamps[1..|ops| + 1]);
    var last := if stamps[|ops| + 1].Some? then [Stamp(stamps[|ops| + 1].value)] else [];
    body := middle + last;
    hide OpRecords, Dec;
    NoExecInOps(selected, ops, stamps[1..|ops| + 1]);
    NoExecAppend(middle, last);
    assert FeedRecords(selected, -1, [MULTI_UPPER], stamps[0]) == notes + [Write([MULTI_UPPER])];
    assert FeedRecords(SelectedOps(selected, ops), -1, [EXEC_UPPER], stamps[|ops| + 1]) == last + [Write([EXEC_UPPER])];
    assert notes + [Write([MULTI_UPPER])] + middle + (last + [Write([EXEC_UPPER])])
        == notes + [Write([MULTI_UPPER])] + body + [Write([EXEC_UPPER])];
  }

  lemma NoteAt(notes: seq<Record>, i: nat)
    requires i < |notes| && NoCommands(notes)
    ensures notes[i].Annotation?
  {}

  lemma {:induction false} OnlyNotes(log: seq<Record>, notes: seq<Record>, k: nat)
    requires k <= |notes| && NoCommands(notes)
    ensures StateAfter(log + notes[..k]) == StateAfter(log)
    decreases k
  {
    hide *;
    if k == 0 {
      assert log + notes[..0] == log;
    } else {
      NoteAt(notes, k - 1);
      OnlyNotes(log, notes, k - 1);
      StateAppended(log, notes, k);
    }
  }

  lemma PartOfUnit(log: seq<Record>, notes: seq<Record>, body: seq<Record>, k: nat)
    requires StateAfter(log).queue.None? && !HasExec(body) && NoCommands(notes) && k <= |notes| + 1 + |body|
    ensures StateAfter(log + (notes + [Write([MULTI_UPPER])] + body)[..k]).executed == StateAfter(log).executed
  {
    hide *;
    var all := notes + [Write([MULTI_UPPER])] + body;
    if k <= |notes| {
      assert all[..k] == notes[..k];
      OnlyNotes(log, notes, k);
    } else {
      var d := k - |notes| - 1;
      var open := log + notes + [Write([MULTI_UPPER])];
      assert log + all[..k] == open + body[..d];
      assert notes[..|notes|] == notes;
      OnlyNotes(log, notes, |notes|);
      OpensMulti(log + notes);
      OnlyQueues(open, body, d);
    }
  }

  lemma OpensMulti(log: seq<Record>)
    requires StateAfter(log).queue.None?
    ensures var st := StateAfter(log + [Write([MULTI_UPPER])]); st.queue.Some? && st.executed == StateAfter(log).executed
  {
    BracketCommand(false);
    var m := [Write([MULTI_UPPER])];
    assert (log + m)[..|log|] == log && (log + m)[|log|] == m[0];
    hide Encode, IsMulti, IsExec;
  }

  /**
   * A transaction is replayed whole or not at all: with any part of its bytes missing, loading runs
   * exactly what the log before it runs.
   */
  lemma TransactionAtomic(log: seq<Record>, selected: int, ops: seq<Op>, stamps: seq<Option<nat>>, n: nat, known: Command -> bool)
    requires WellFormedLog(log) && Known(log, known) && StateAfter(log).queue.None?
    requires |stamps| == |ops| + 2 && PropagatedAll(ops)
    requires var rs := UnitRecords(selected, ops, stamps, true);
             && WellFormedLog(rs) && Known(rs, known) && 0 < n && |Encode(log)| <= n < |Encode(log + rs)|
    ensures var rs := UnitRecords(selected, ops, stamps, true);
            Load(Encode(log + rs)[..n], known, true).executed == StateAfter(log).executed
  {
    hide *;
    var rs := UnitRecords(selected, ops, stamps, true);
    var k := Whole(log + rs, n);
    JoinedLog(log, rs, known);
    LoadPrefix(log + rs, n, known);
    WholeBetween(log, rs, n);
    assert (log + rs)[..k] == log + rs[..k - |log|];
    UnitPart(log, selected, ops, stamps, k - |log|);
  }

  lemma JoinedLog(a: seq<Record>, b: seq<Record>, known: Command -> bool)
    requires WellFormedLog(a) && Known(a, known) && WellFormedLog(b) && Known(b, known)
    ensures WellFormedLog(a + b) && Known(a + b, known)
  {
    hide WellFormed;
  }

  /** No part of a transaction runs anything. */
  lemma UnitPart(log: seq<Record>, selected: int, ops: seq<Op>, stamps: seq<Option<nat>>, k: nat)
    requires StateAfter(log).queue.None? && |stamps| == |ops| + 2 && PropagatedAll(ops)
    requires k < |UnitRecords(selected, ops, stamps, true)|
    ensures StateAfter(log + UnitRecords(selected, ops, stamps, true)[..k]).executed == StateAfter(log).executed
  {
    hide *;
    var notes, body := UnitShape(selected, ops, stamps);
    var rs := UnitRecords(selected, ops, stamps, true);
    assert rs[..k] == (notes + [Write([MULTI_UPPER])] + body)[..k];
    PartOfUnit(log, notes, body, k);
  }

  lemma WholeBetween(log: seq<Record>, rs: seq<Record>, n: nat)
    requires |Encode(log)| <= n < |Encode(log + rs)|
    ensures |log| <= Whole(log + rs, n) < |log + rs|
  {
    hide EncodeRecord;
    var k := Whole(log + rs, n);
    assert (log + rs)[..|log + rs|] == log + rs;
    if k < |log| {
      var next := (log + rs)[..k + 1];
      assert next == log[..k + 1] && log == log[..k + 1] + log[k + 1..] && next == next[..k] + [next[k]];
      assert next[..k] == (log + rs)[..k];
      EncodeAppend(log[..k + 1], log[k + 1..]);
      EncodeOne(next[k]);
      EncodeAppend(next[..k], [next[k]]);
      assert false;
    }
  }

  lemma OneArg(word: Bytes)
    ensures EncodeCommand([word]) == [42, 49, 13, 10] + EncodeArg(word)
  {
    hide EncodeArg;
    var argv: Command := [word];
    assert argv[1..] == [];
    assert EncodeArgs(argv) == EncodeArg(word) + EncodeArgs([]);
    assert EncodeArgs([]) == [] && Dec(1) == [49];
  }

  lemma ShortArg(word: Bytes)
    requires |word| <= 9
    ensures EncodeArg(word) == [36, 48 + |word|, 13, 10] + word + [13, 10]
  {
    assert Dec(|word|) == [48 + |word|];
    assert [36] + [48 + |word|] + [13, 10] == [36, 48 + |word|, 13, 10];
  }

  /** The words the server writes itself, as they are in the file. */
  lemma WrittenWords()
    ensures EncodeCommand([MULTI_UPPER]) == [42, 49, 13, 10] + ([36, 53, 13, 10] + [77, 85, 76, 84, 73] + [13, 10])
    ensures EncodeCommand([EXEC_UPPER]) == [42, 49, 13, 10] + ([36, 52, 13, 10] + [69, 88, 69, 67] + [13, 10])
    ensures EncodeArg(SELECT) == [36, 54, 13, 10] + [83, 69, 76, 69, 67, 84] + [13, 10]
  {
    hide EncodeArg, EncodeCommand, EncodeArgs, Dec;
    OneArg(MULTI_UPPER);
    OneArg(EXEC_UPPER);
    ShortArg(MULTI_UPPER);
    ShortArg(EXEC_UPPER);
    ShortArg(SELECT);
  }
}
