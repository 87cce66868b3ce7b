/**
 * Which configured file names the server can read back from its own manifest (aof.c, config.c):
 * all names in a manifest are the configured one with a number and a suffix.
 */
module ManifestNames {
  import opened Wrappers
  import opened Words
  import opened Decimal
  import opened Sds
  import opened AofManifest
  import opened ManifestText

  const NAME_MAX: nat := 255  // the longest file name a file system takes

  /** What isValidAOFfilename asks of `appendfilename`. */
  predicate Legal(prefix: Bytes) { CString(prefix) && BaseName(prefix) }

  /** File number `n` has a name that can be created. */
  predicate NameFits(prefix: Bytes, n: int) { n >= 0 && |prefix| + |Dec(n)| + 10 <= NAME_MAX }

  predicate Short(prefix: Bytes, am: Manifest) { NameFits(prefix, am.baseSeq) && NameFits(prefix, am.incrSeq) }

  lemma NameLengths(prefix: Bytes, n: nat, rdb: bool)
    ensures |BaseFileName(prefix, n, rdb)| == |IncrFileName(prefix, n)| == |prefix| + |Dec(n)| + 10
  {
    hide Dec;
  }

  /** What comes after the configured part of a name: a dot, digits and letters. */
  predicate Plain(s: Bytes) { forall i :: 0 <= i < |s| ==> IsDigit(s[i]) || s[i] == DOT || 97 <= s[i] <= 122 }

  lemma {:induction false} DecMonotone(m: nat, n: nat)
    requires m <= n
    ensures |Dec(m)| <= |Dec(n)|
  {
    if n >= 10 && m >= 10 { DecMonotone(m / 10, n / 10); }
  }

  lemma NameParts(prefix: Bytes, ai: Info) returns (suffix: Bytes)
    requires Issued(prefix, ai, ai.number, ai.number)
    ensures ai.name == prefix + suffix && Plain(suffix) && |suffix| == |Dec(ai.number)| + 10
  {
    hide Dec;
    DecShape(ai.number);
    NameLengths(prefix, ai.number, true);
    NameLengths(prefix, ai.number, false);
    suffix := ai.name[|prefix|..];
    assert ai.name == prefix + suffix;
  }

  lemma {:induction false} ReprAppend(s: Bytes, t: Bytes)
    ensures ReprBody(s + t) == ReprBody(s) + ReprBody(t)
  {
    hide ReprByte;
    if s == [] {
      assert s + t == t;
    } else {
      assert (s + t)[1..] == s[1..] + t;
      ReprAppend(s[1..], t);
    }
  }

  lemma {:induction false} ReprPlain(s: Bytes)
    requires Plain(s)
    ensures ReprBody(s) == s
  {
    if s != [] {
      ReprPlain(s[1..]);
      assert ReprByte(s[0]) == [s[0]];
    }
  }

  lemma {:induction false} ReprLength(s: Bytes)
    ensures |ReprBody(s)| <= 4 * |s|
  {
    if s != [] { ReprLength(s[1..]); }
  }

  lemma ShownLength(prefix: Bytes, suffix: Bytes)
    requires Plain(suffix)
    ensures |Shown(prefix + suffix)| <= 4 * |prefix| + |suffix| + 2
  {
    hide ReprByte, ReprBody, NeedsRepr;
    ReprAppend(prefix, suffix);
    ReprPlain(suffix);
    ReprLength(prefix);
  }

  lemma SameNeeds(prefix: Bytes, suffix: Bytes)
    requires Plain(suffix)
    ensures QuoteSafe(prefix + suffix) <==> QuoteSafe(prefix)
  {
    var name := prefix + suffix;
    forall i | 0 <= i < |name| ensures if i < |prefix| then name[i] == prefix[i] else !Special(name[i]) && name[i] != SQUOTE {
      if i >= |prefix| { assert name[i] == suffix[i - |prefix|]; }
    }
    if NeedsRepr(prefix) {
      var i :| 0 <= i < |prefix| && Special(prefix[i]);
      assert Special(name[i]);
    }
    if SQUOTE in prefix {
      var i :| 0 <= i < |prefix| && prefix[i] == SQUOTE;
      assert name[i] == SQUOTE;
    }
  }

  lemma ProperName(prefix: Bytes, suffix: Bytes)
    requires Legal(prefix) && Plain(suffix)
    ensures CString(prefix + suffix) && BaseName(prefix + suffix)
  {
    var name := prefix + suffix;
    forall i | 0 <= i < |name| ensures name[i] != 0 && name[i] != 47 && name[i] != BACKSLASH {
      if i >= |prefix| { assert name[i] == suffix[i - |prefix|]; } else { assert name[i] in prefix; }
    }
  }

  lemma FormatLength(ai: Info)
    requires ai.number >= 0
    ensures |Format(ai)| == |Shown(ai.name)| + |Dec(ai.number)| + 18
  {
    hide Shown, Dec;
  }

  /** An entry whose file could be created is printed on one line that the loader can read. */
  lemma EntryPrintable(prefix: Bytes, ai: Info)
    requires Legal(prefix) && Issued(prefix, ai, ai.number, ai.number) && NameFits(prefix, ai.number)
    requires ai.kind == BASE || ai.kind == HIST || ai.kind == INCR
    ensures Printable(ai) && (QuoteSafe(ai.name) <==> QuoteSafe(prefix)) && ai.name[|ai.name| - 1] != SQUOTE
  {
    var suffix := NameParts(prefix, ai);
    hide Dec, Shown, Format, Issued, CString, BaseName, QuoteSafe, Plain;
    ProperName(prefix, suffix);
    SameNeeds(prefix, suffix);
    ShownLength(prefix, suffix);
    FormatLength(ai);
    LastPlain(prefix, suffix);
  }

  lemma LastPlain(prefix: Bytes, suffix: Bytes)
    requires Plain(suffix) && suffix != []
    ensures (prefix + suffix)[|prefix + suffix| - 1] != SQUOTE
  {
    assert (prefix + suffix)[|prefix + suffix| - 1] == suffix[|suffix| - 1];
  }

  predicate Listable(prefix: Bytes, ai: Info) {
    && ai.number > 0 && Issued(prefix, ai, ai.number, ai.number) && NameFits(prefix, ai.number)
    && (ai.kind == BASE || ai.kind == HIST || ai.kind == INCR)
  }

  lemma EntriesListable(prefix: Bytes, am: Manifest)
    requires Consistent(am, prefix) && Short(prefix, am)
    ensures forall i :: 0 <= i < |Entries(am)| ==> Listable(prefix, Entries(am)[i])
  {
    hide BaseFileName, IncrFileName, Dec;
    var es, b := Entries(am), if am.base.Some? then 1 else 0;
    forall i | 0 <= i < |es| ensures Listable(prefix, es[i]) {
      if i < b {
        assert es[i] == am.base.value;
        DecMonotone(es[i].number, am.baseSeq);
      } else if i < b + |am.history| {
        assert es[i] == am.history[i - b];
        assert Issued(prefix, es[i], am.baseSeq, am.incrSeq);
        if es[i].number <= am.baseSeq { DecMonotone(es[i].number, am.baseSeq); }
        if es[i].number <= am.incrSeq { DecMonotone(es[i].number, am.incrSeq); }
      } else {
        assert es[i] == am.incr[i - b - |am.history|];
        DecMonotone(es[i].number, am.incrSeq);
      }
    }
  }

  /**
   * The server reads its own manifest back if and only if the configured name has no single quote,
   * or has a byte that makes the printer put quotes around it.
   */
  lemma OwnManifest(prefix: Bytes, am: Manifest)
    requires Legal(prefix) && Consistent(am, prefix) && Short(prefix, am) && Entries(am) != []
    ensures Numbered(Entries(am))
    ensures ThroughText(am) == if QuoteSafe(prefix) then Ok(Reloaded(am)) else Err
  {
    hide Dec, QuoteSafe, Named, Issued, Entries, Printable, Reloaded;
    var es := Entries(am);
    EntriesListable(prefix, am);
    forall i | 0 <= i < |es|
      ensures es[i].number > 0 && Printable(es[i]) && (QuoteSafe(es[i].name) <==> QuoteSafe(prefix))
    {
      assert Listable(prefix, es[i]);
      EntryPrintable(prefix, es[i]);
    }
    if QuoteSafe(prefix) {
      ManifestRoundTrip(am);
    } else {
      EntryPrintable(prefix, es[0]);
      FirstUnread(es);
    }
  }

  lemma FirstUnread(es: seq<Info>)
    requires es != [] && Numbered(es) && Printable(es[0]) && !QuoteSafe(es[0].name) && es[0].name[|es[0].name| - 1] != SQUOTE
    ensures LoadLines(Lines(es), EMPTY, true) == Err
  {
    hide Printable, QuoteSafe, Format, ParseLine;
    LoadOneLine(es[0], Lines(es[1..]), EMPTY, true);
    LineRoundTrip(es[0]);
  }

  const APPENDONLY: Bytes := [97, 112, 112, 101, 110, 100, 111, 110, 108, 121, 46, 97, 111, 102]

  lemma PlainShown(name: Bytes)
    requires Plain(name)
    ensures Shown(name) == name
  {
    forall i | 0 <= i < |name| ensures !Special(name[i]) {}
  }

  /** The names of the files with the default prefix. */
  lemma DefaultNames(d: nat)
    requires 1 <= d <= 9
    ensures BaseFileName(APPENDONLY, d, true) == [97, 112, 112, 101, 110, 100, 111, 110, 108, 121, 46, 97, 111, 102, 46] + [48 + d] + [46, 98, 97, 115, 101, 46, 114, 100, 98]
    ensures BaseFileName(APPENDONLY, d, false) == [97, 112, 112, 101, 110, 100, 111, 110, 108, 121, 46, 97, 111, 102, 46] + [48 + d] + [46, 98, 97, 115, 101, 46, 97, 111, 102]
    ensures IncrFileName(APPENDONLY, d) == [97, 112, 112, 101, 110, 100, 111, 110, 108, 121, 46, 97, 111, 102, 46] + [48 + d] + [46, 105, 110, 99, 114, 46, 97, 111, 102]
    ensures Plain(BaseFileName(APPENDONLY, d, true)) && Plain(IncrFileName(APPENDONLY, d))
  {
    assert Dec(d) == [48 + d];
  }

  /** A line of a manifest with an ordinary name in it. */
  lemma PlainLine(name: Bytes, d: nat, kind: Byte)
    requires 1 <= d <= 9 && Plain(name)
    ensures Format(Info(name, d, kind)) == [102, 105, 108, 101, 32] + name + [32, 115, 101, 113, 32] + [48 + d] + [32, 116, 121, 112, 101, 32] + [kind, 10]
  {
    hide Shown;
    PlainShown(name);
    assert Dec(d) == [48 + d];
  }

  /** The lines of the manifest that the documentation shows, for any sequence number of one digit. */
  lemma DocumentedLines(d: nat)
    requires 1 <= d <= 9
    ensures Format(Info(BaseFileName(APPENDONLY, d, true), d, BASE)) ==
            [102, 105, 108, 101, 32] + ([97, 112, 112, 101, 110, 100, 111, 110, 108, 121, 46, 97, 111, 102, 46] + [48 + d] + [46, 98, 97, 115, 101, 46, 114, 100, 98])
            + [32, 115, 101, 113, 32] + [48 + d] + [32, 116, 121, 112, 101, 32] + [98, 10]
    ensures Format(Info(IncrFileName(APPENDONLY, d), d, HIST)) ==
            [102, 105, 108, 101, 32] + ([97, 112, 112, 101, 110, 100, 111, 110, 108, 121, 46, 97, 111, 102, 46] + [48 + d] + [46, 105, 110, 99, 114, 46, 97, 111, 102])
            + [32, 115, 101, 113, 32] + [48 + d] + [32, 116, 121, 112, 101, 32] + [104, 10]
    ensures Format(Info(IncrFileName(APPENDONLY, d), d, INCR)) ==
            [102, 105, 108, 101, 32] + ([97, 112, 112, 101, 110, 100, 111, 110, 108, 121, 46, 97, 111, 102, 46] + [48 + d] + [46, 105, 110, 99, 114, 46, 97, 111, 102])
            + [32, 115, 101, 113, 32] + [48 + d] + [32, 116, 121, 112, 101, 32] + [105, 10]
  {
    hide Format, BaseFileName, IncrFileName, Plain;
    DefaultNames(d);
    PlainLine(BaseFileName(APPENDONLY, d, true), d, BASE);
    PlainLine(IncrFileName(APPENDONLY, d), d, HIST);
    PlainLine(IncrFileName(APPENDONLY, d), d, INCR);
  }
}
