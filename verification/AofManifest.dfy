/**
 * The manifest of the append-only files (aof.c): one BASE file, the HISTORY files waiting to be
 * deleted and the INCR files, with its text form and the updates the server makes to it.
 */
module AofManifest {
  import opened Wrappers
  import opened Words
  import opened Decimal
  import opened Sds

  const BASE: Byte := 98
  const HIST: Byte := 104
  const INCR: Byte := 105

  datatype Info = Info(name: Bytes, number: int, kind: Byte)

  datatype Manifest = Manifest(base: Option<Info>, history: seq<Info>, incr: seq<Info>,
                               baseSeq: int, incrSeq: int, dirty: bool)

  const EMPTY := Manifest(None, [], [], 0, 0, false)

  // ----- File names -----

  const DOT: Byte := 46
  const BASE_SUFFIX: Bytes := [46, 98, 97, 115, 101]   // .base
  const INCR_SUFFIX: Bytes := [46, 105, 110, 99, 114]  // .incr
  const RDB_SUFFIX: Bytes := [46, 114, 100, 98]        // .rdb
  const AOF_SUFFIX: Bytes := [46, 97, 111, 102]        // .aof

  function BaseFileName(prefix: Bytes, n: nat, rdb: bool): (name: Bytes) {
    prefix + [DOT] + Dec(n) + BASE_SUFFIX + (if rdb then RDB_SUFFIX else AOF_SUFFIX)
  }

  function IncrFileName(prefix: Bytes, n: nat): (name: Bytes) {
    prefix + [DOT] + Dec(n) + INCR_SUFFIX + AOF_SUFFIX
  }

  /** The decimal number between a fixed prefix and a nine-byte suffix can be read off the name. */
  lemma NumberInName(prefix: Bytes, m: nat, n: nat, s: Bytes, t: Bytes)
    requires |s| == |t| == 9
    requires prefix + [DOT] + Dec(m) + s == prefix + [DOT] + Dec(n) + t
    ensures m == n && s == t
  {
    hide Dec;
    var a, b := prefix + [DOT] + Dec(m) + s, prefix + [DOT] + Dec(n) + t;
    var i := |prefix| + 1;
    assert |a| == i + |Dec(m)| + 9 && |b| == i + |Dec(n)| + 9;
    assert Dec(m) == a[i..|a| - 9] == b[i..|b| - 9] == Dec(n);
    assert s == a[|a| - 9..] == b[|b| - 9..] == t;
    DecInjective(m, n);
  }

  /** Different numbers or different roles give different file names. */
  lemma FileNamesDiffer(prefix: Bytes, m: nat, n: nat, rdb: bool, rdb': bool)
    ensures m != n ==> BaseFileName(prefix, m, rdb) != BaseFileName(prefix, n, rdb')
    ensures m != n ==> IncrFileName(prefix, m) != IncrFileName(prefix, n)
    ensures BaseFileName(prefix, m, rdb) != IncrFileName(prefix, n)
  {
    hide Dec;
    var b := BASE_SUFFIX + (if rdb then RDB_SUFFIX else AOF_SUFFIX);
    var b' := BASE_SUFFIX + (if rdb' then RDB_SUFFIX else AOF_SUFFIX);
    var i := INCR_SUFFIX + AOF_SUFFIX;
    assert b[1] == 98 && i[1] == 105;
    assert BaseFileName(prefix, m, rdb) == prefix + [DOT] + Dec(m) + b;
    assert BaseFileName(prefix, n, rdb') == prefix + [DOT] + Dec(n) + b';
    assert IncrFileName(prefix, m) == prefix + [DOT] + Dec(m) + i;
    assert IncrFileName(prefix, n) == prefix + [DOT] + Dec(n) + i;
    if BaseFileName(prefix, m, rdb) == BaseFileName(prefix, n, rdb') { NumberInName(prefix, m, n, b, b'); }
    if IncrFileName(prefix, m) == IncrFileName(prefix, n) { NumberInName(prefix, m, n, i, i); }
    if BaseFileName(prefix, m, rdb) == IncrFileName(prefix, n) {
      NumberInName(prefix, m, n, b, i);
    }
  }

  // ----- Updates -----

  /** getNewBaseFileNameAndMarkPreAsHistory */
  function NewBase(am: Manifest, prefix: Bytes, rdb: bool): (r: Manifest)
    requires am.baseSeq >= 0
  {
    var n := am.baseSeq + 1;
    am.(base := Some(Info(BaseFileName(prefix, n, rdb), n, BASE)),
        history := (if am.base.Some? then [am.base.value.(kind := HIST)] else []) + am.history,
        baseSeq := n, dirty := true)
  }

  /** getNewIncrAofName */
  function NewIncr(am: Manifest, prefix: Bytes): (r: Manifest)
    requires am.incrSeq >= 0
  {
    var n := am.incrSeq + 1;
    am.(incr := am.incr + [Info(IncrFileName(prefix, n), n, INCR)], incrSeq := n, dirty := true)
  }

  function AsHistory(infos: seq<Info>): (r: seq<Info>)
    ensures |r| == |infos|
  {
    seq(|infos|, i requires 0 <= i < |infos| => infos[i].(kind := HIST))
  }

  /** The INCR files that a finished rewrite supersedes: all but the one being written. */
  function Superseded(am: Manifest, open: bool): (k: nat)
    ensures k <= |am.incr|
  {
    if open && am.incr != [] then |am.incr| - 1 else |am.incr|
  }

  /** markRewrittenIncrAofAsHistory as a whole. */
  function MarkedRewritten(am: Manifest, open: bool): (r: Manifest) {
    if am.incr == [] then am
    else
      var k := Superseded(am, open);
      am.(history := AsHistory(am.incr[..k]) + am.history, incr := am.incr[k..], dirty := true)
  }

  /** markRewrittenIncrAofAsHistory: walks the list from its tail, moving entries one by one. */
  method MarkRewrittenIncrAofAsHistory(am: Manifest, open: bool) returns (r: Manifest)
    ensures r == MarkedRewritten(am, open)
  {
    r := am;
    if |r.incr| == 0 { return; }
    var li := |r.incr|;
    if open { li := li - 1; }
    ghost var k := li;
    while li > 0
      invariant 0 <= li <= k
      invariant r.history == AsHistory(am.incr[li..k]) + am.history
      invariant r.incr == am.incr[..li] + am.incr[k..]
      invariant r == am.(history := r.history, incr := r.incr)
    {
      li := li - 1;
      r := r.(history := [r.incr[li].(kind := HIST)] + r.history,
              incr := r.incr[..li] + r.incr[li + 1..]);
      assert AsHistory(am.incr[li..k]) == [am.incr[li].(kind := HIST)] + AsHistory(am.incr[li + 1..k]);
    }
    assert am.incr[0..k] == am.incr[..k];
    r := r.(dirty := true);
  }

  // ----- What every update keeps -----

  /** At most one BASE, numbered by its counter; INCR numbers increase up to theirs. */
  predicate Ordered(am: Manifest) {
    && am.baseSeq >= 0 && am.incrSeq >= 0
    && (am.base.Some? ==> am.base.value.kind == BASE && am.base.value.number == am.baseSeq > 0)
    && (forall i :: 0 <= i < |am.history| ==> am.history[i].kind == HIST)
    && (forall i :: 0 <= i < |am.incr| ==> am.incr[i].kind == INCR && 0 < am.incr[i].number <= am.incrSeq)
    && (forall i, j :: 0 <= i < j < |am.incr| ==> am.incr[i].number < am.incr[j].number)
  }

  /** A name issued for BASE or INCR number `info.number`. */
  predicate Issued(prefix: Bytes, info: Info, baseSeq: int, incrSeq: int) {
    || (0 < info.number <= baseSeq
        && (info.name == BaseFileName(prefix, info.number, false) || info.name == BaseFileName(prefix, info.number, true)))
    || (0 < info.number <= incrSeq && info.name == IncrFileName(prefix, info.number))
  }

  function Live(am: Manifest): (names: set<Bytes>) {
    (if am.base.Some? then {am.base.value.name} else {}) + set i | 0 <= i < |am.incr| :: am.incr[i].name
  }

  /** Every listed file was issued by the counters, and no history file is also live. */
  predicate Named(am: Manifest, prefix: Bytes) {
    && (am.base.Some? ==> am.base.value.number > 0 && (am.base.value.name == BaseFileName(prefix, am.base.value.number, false)
                                              || am.base.value.name == BaseFileName(prefix, am.base.value.number, true)))
    && (forall i :: 0 <= i < |am.incr| ==> am.incr[i].number > 0 && am.incr[i].name == IncrFileName(prefix, am.incr[i].number))
    && (forall i :: 0 <= i < |am.history| ==> Issued(prefix, am.history[i], am.baseSeq, am.incrSeq))
    && (forall i :: 0 <= i < |am.history| ==> am.history[i].name !in Live(am))
  }

  predicate Consistent(am: Manifest, prefix: Bytes) { Ordered(am) && Named(am, prefix) }

  lemma NamesDiffer(prefix: Bytes, a: Info, baseSeq: int, incrSeq: int)
    requires Issued(prefix, a, baseSeq, incrSeq) && baseSeq >= 0 && incrSeq >= 0
    ensures a.name != BaseFileName(prefix, baseSeq + 1, false) && a.name != BaseFileName(prefix, baseSeq + 1, true)
    ensures a.name != IncrFileName(prefix, incrSeq + 1)
  {
    hide Dec, BaseFileName, IncrFileName;
    FileNamesDiffer(prefix, a.number, baseSeq + 1, false, false);
    FileNamesDiffer(prefix, a.number, baseSeq + 1, false, true);
    FileNamesDiffer(prefix, a.number, baseSeq + 1, true, false);
    FileNamesDiffer(prefix, a.number, baseSeq + 1, true, true);
    FileNamesDiffer(prefix, baseSeq + 1, a.number, false, false);
    FileNamesDiffer(prefix, baseSeq + 1, a.number, true, true);
    FileNamesDiffer(prefix, a.number, incrSeq + 1, false, false);
    FileNamesDiffer(prefix, a.number, incrSeq + 1, true, true);
  }

  lemma BaseNotIncr(prefix: Bytes, am: Manifest)
    requires Named(am, prefix) && am.base.Some?
    ensures forall i :: 0 <= i < |am.incr| ==> am.incr[i].name != am.base.value.name
  {
    hide Dec, BaseFileName, IncrFileName;
    forall i | 0 <= i < |am.incr| ensures am.incr[i].name != am.base.value.name {
      FileNamesDiffer(prefix, am.base.value.number, am.incr[i].number, false, false);
      FileNamesDiffer(prefix, am.base.value.number, am.incr[i].number, true, true);
    }
  }

  lemma NewBaseConsistent(am: Manifest, prefix: Bytes, rdb: bool)
    requires Consistent(am, prefix)
    ensures Consistent(NewBase(am, prefix, rdb), prefix)
  {
    hide Dec, BaseFileName, IncrFileName;
    var r := NewBase(am, prefix, rdb);
    if am.base.Some? {
      BaseNotIncr(prefix, am);
      NamesDiffer(prefix, am.base.value, am.baseSeq, am.incrSeq);
    }
    forall i | 0 <= i < |r.history|
      ensures Issued(prefix, r.history[i], r.baseSeq, r.incrSeq) && r.history[i].name !in Live(r)
    {
      var h := r.history[i];
      if am.base.None? || i > 0 {
        var j := if am.base.Some? then i - 1 else i;
        assert h == am.history[j];
        NamesDiffer(prefix, h, am.baseSeq, am.incrSeq);
        assert am.history[j].name !in Live(am);
      } else {
        assert h.name == am.base.value.name;
      }
    }
  }

  lemma NewIncrConsistent(am: Manifest, prefix: Bytes)
    requires Consistent(am, prefix)
    ensures Consistent(NewIncr(am, prefix), prefix)
  {
    hide Dec, BaseFileName, IncrFileName;
    var r := NewIncr(am, prefix);
    forall i | 0 <= i < |r.history|
      ensures Issued(prefix, r.history[i], r.baseSeq, r.incrSeq) && r.history[i].name !in Live(r)
    {
      NamesDiffer(prefix, am.history[i], am.baseSeq, am.incrSeq);
      assert am.history[i].name !in Live(am);
    }
  }

  lemma RewrittenConsistent(am: Manifest, prefix: Bytes, open: bool)
    requires Consistent(am, prefix)
    ensures Consistent(MarkedRewritten(am, open), prefix)
  {
    hide Dec, BaseFileName, IncrFileName;
    var r, k := MarkedRewritten(am, open), Superseded(am, open);
    if am.base.Some? { BaseNotIncr(prefix, am); }
    forall i | 0 <= i < |r.history| && am.incr != []
      ensures Issued(prefix, r.history[i], r.baseSeq, r.incrSeq) && r.history[i].name !in Live(r)
    {
      if i < k {
        forall j | k <= j < |am.incr| ensures am.incr[j].name != am.incr[i].name {
          FileNamesDiffer(prefix, am.incr[i].number, am.incr[j].number, false, false);
        }
      } else {
        assert r.history[i] == am.history[i - k] && am.history[i - k].name !in Live(am);
      }
    }
  }

  datatype Update = AddBase(rdb: bool) | AddIncr | Rewritten(open: bool) | DropHistory

  function Apply(am: Manifest, u: Update, prefix: Bytes): (r: Manifest)
    requires am.baseSeq >= 0 && am.incrSeq >= 0
    ensures r.baseSeq >= 0 && r.incrSeq >= 0
  {
    match u
    case AddBase(rdb) => NewBase(am, prefix, rdb)
    case AddIncr => NewIncr(am, prefix)
    case Rewritten(open) => MarkedRewritten(am, open)
    case DropHistory => am.(history := [], dirty := true)
  }

  function ApplyAll(am: Manifest, us: seq<Update>, prefix: Bytes): (r: Manifest)
    requires am.baseSeq >= 0 && am.incrSeq >= 0
    decreases us
  {
    if us == [] then am else ApplyAll(Apply(am, us[0], prefix), us[1..], prefix)
  }

  /** Every run of updates keeps the manifest consistent. */
  lemma {:induction false} EveryRunConsistent(am: Manifest, us: seq<Update>, prefix: Bytes)
    requires Consistent(am, prefix)
    ensures Consistent(ApplyAll(am, us, prefix), prefix)
    decreases us
  {
    hide NewBase, NewIncr, MarkedRewritten, Named;
    if us != [] {
      match us[0] {
        case AddBase(rdb) => NewBaseConsistent(am, prefix, rdb);
        case AddIncr => NewIncrConsistent(am, prefix);
        case Rewritten(open) => RewrittenConsistent(am, prefix, open);
        case DropHistory => DropConsistent(am, prefix);
      }
      EveryRunConsistent(Apply(am, us[0], prefix), us[1..], prefix);
    }
  }

  lemma DropConsistent(am: Manifest, prefix: Bytes)
    requires Consistent(am, prefix)
    ensures Consistent(am.(history := [], dirty := true), prefix)
  {}
}
