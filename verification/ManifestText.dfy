/** The text form of the manifest (aof.c: getAofManifestAsString, aofLoadManifestFromFile). */
module ManifestText {
  import opened Wrappers
  import opened Words
  import opened Decimal
  import opened Sds
  import opened AofManifest

  const LINE_MAX: nat := 1024  // MANIFEST_MAX_LINE
  const HASH: Byte := 35
  const FILE: Bytes := [102, 105, 108, 101]
  const SEQ: Bytes := [115, 101, 113]
  const TYPE: Bytes := [116, 121, 112, 101]

  // ----- Printing -----

  /** What follows the file name on a line. */
  function Attributes(ai: Info): (s: Bytes)
    requires ai.number >= 0
  {
    [SPACE] + SEQ + [SPACE] + Dec(ai.number) + [SPACE] + TYPE + [SPACE] + [ai.kind]
  }

  function Body(ai: Info): (s: Bytes)
    requires ai.number >= 0
  {
    FILE + [SPACE] + Shown(ai.name) + Attributes(ai)
  }

  /** aofInfoFormat */
  function Format(ai: Info): (s: Bytes)
    requires ai.number >= 0
  {
    Body(ai) + [LF]
  }

  predicate Numbered(es: seq<Info>) { forall i :: 0 <= i < |es| ==> es[i].number > 0 }

  function Lines(es: seq<Info>): (s: Bytes)
    requires Numbered(es)
  {
    if es == [] then [] else Format(es[0]) + Lines(es[1..])
  }

  function Entries(am: Manifest): (es: seq<Info>) {
    (if am.base.Some? then [am.base.value] else []) + am.history + am.incr
  }

  lemma {:induction false} LinesAppend(a: seq<Info>, b: seq<Info>)
    requires Numbered(a) && Numbered(b)
    ensures Numbered(a + b) && Lines(a + b) == Lines(a) + Lines(b)
  {
    hide Format;
    if a == [] {
      assert a + b == b;
    } else {
      assert (a + b)[1..] == a[1..] + b;
      LinesAppend(a[1..], b);
    }
  }

  /** getAofManifestAsString */
  method PrintManifest(am: Manifest) returns (buf: Bytes)
    requires Numbered(Entries(am))
    ensures buf == Lines(Entries(am))
  {
    hide Format, Lines;
    var b := if am.base.Some? then [am.base.value] else [];
    PrintableParts(am);
    buf := [];
    if am.base.Some? { buf := buf + Format(am.base.value); }
    OneLine(b);
    buf := PrintList(buf, am.history);
    LinesAppend(b, am.history);
    buf := PrintList(buf, am.incr);
    LinesAppend(b + am.history, am.incr);
  }

  lemma PrintableParts(am: Manifest)
    requires Numbered(Entries(am))
    ensures Numbered(am.history) && Numbered(am.incr) && (am.base.Some? ==> am.base.value.number > 0)
  {
    var b := if am.base.Some? then [am.base.value] else [];
    NumberedParts(b + am.history, am.incr);
    NumberedParts(b, am.history);
    assert am.base.Some? ==> b[0].number > 0;
  }

  lemma NumberedParts(a: seq<Info>, b: seq<Info>)
    requires Numbered(a + b)
    ensures Numbered(a) && Numbered(b)
  {
    forall i | 0 <= i < |a| ensures a[i].number > 0 { assert (a + b)[i] == a[i]; }
    forall i | 0 <= i < |b| ensures b[i].number > 0 { assert (a + b)[|a| + i] == b[i]; }
  }

  lemma OneLine(es: seq<Info>)
    requires Numbered(es) && |es| <= 1
    ensures Lines(es) == if es == [] then [] else Format(es[0])
  {
    if es != [] { assert Lines(es[1..]) == []; }
  }

  /** One of the two list walks of getAofManifestAsString. */
  method PrintList(buf: Bytes, es: seq<Info>) returns (out: Bytes)
    requires Numbered(es)
    ensures out == buf + Lines(es)
  {
    hide Format, Lines;
    out := buf;
    NoLines();
    assert es[..0] == [];
    for i := 0 to |es|
      invariant out == buf + Lines(es[..i])
    {
      NextLine(es, i);
      out := out + Format(es[i]);
    }
    assert es[..|es|] == es;
  }

  lemma NoLines()
    ensures Lines([]) == []
  {}

  lemma NextLine(es: seq<Info>, k: nat)
    requires Numbered(es) && k < |es|
    ensures Lines(es[..k + 1]) == Lines(es[..k]) + Format(es[k])
  {
    hide Format;
    assert es[..k + 1] == es[..k] + [es[k]];
    LinesAppend(es[..k], [es[k]]);
    assert Lines([es[k]]) == Format(es[k]) + Lines([es[k]][1..]);
  }

  // ----- Loading -----

  predicate Trimmed(b: Byte) { b == SPACE || b == 9 || b == CR || b == LF }

  function TrimLeft(s: Bytes): (t: Bytes) {
    if s != [] && Trimmed(s[0]) then TrimLeft(s[1..]) else s
  }

  function TrimRight(s: Bytes): (t: Bytes) {
    if s != [] && Trimmed(s[|s| - 1]) then TrimRight(s[..|s| - 1]) else s
  }

  predicate BaseName(s: Bytes) { 47 !in s && BACKSLASH !in s }

  /** The pairs of a line from argument `i` on; unknown keys are ignored, later ones win. */
  function Fields(argv: seq<Bytes>, i: nat, ai: Info): (r: Result<Info>)
    requires i <= |argv| && (|argv| - i) % 2 == 0
    decreases |argv| - i
  {
    if i == |argv| then Ok(ai)
    else
      var key, value := Lower(argv[i]), argv[i + 1];
      if key == FILE then
        if BaseName(value) then Fields(argv, i + 2, ai.(name := value)) else Err
      else if key == SEQ then Fields(argv, i + 2, ai.(number := Atoi(value)))
      else if key == TYPE then Fields(argv, i + 2, ai.(kind := At(value, 0)))
      else Fields(argv, i + 2, ai)
  }

  predicate HasFile(argv: seq<Bytes>) {
    exists i :: 0 <= i < |argv| && i % 2 == 0 && Lower(argv[i]) == FILE
  }

  /** One line of the file, comments excepted. */
  function ParseLine(buf: Bytes): (r: Result<Info>) {
    if LF !in buf then Err
    else
      var line := TrimRight(TrimLeft(buf));
      if line == [] then Err
      else match SplitArgs(line)
        case None => Err
        case Some(argv) =>
          if |argv| < 6 || |argv| % 2 != 0 then Err
          else match Fields(argv, 0, Info([], 0, 0))
            case Err => Err
            case Ok(ai) => if HasFile(argv) && ai.number != 0 && ai.kind != 0 then Ok(ai) else Err
  }

  function Add(am: Manifest, ai: Info): (r: Result<Manifest>) {
    if ai.kind == BASE then
      if am.base.Some? then Err else Ok(am.(base := Some(ai), baseSeq := ai.number))
    else if ai.kind == HIST then Ok(am.(history := am.history + [ai]))
    else if ai.kind == INCR then
      if ai.number <= am.incrSeq then Err
      else Ok(am.(incr := am.incr + [ai], incrSeq := ai.number))
    else Err
  }

  /** The loop of aofLoadManifestFromFile; `first` until a line has been read. */
  function LoadLines(text: Bytes, am: Manifest, first: bool): (r: Result<Manifest>)
    decreases |text|
  {
    if text == [] then if first then Err else Ok(am)
    else
      var n := LineLength(text, LINE_MAX);
      if text[0] == HASH then LoadLines(text[n..], am, false)
      else match ParseLine(text[..n])
        case Err => Err
        case Ok(ai) =>
          match Add(am, ai)
          case Err => Err
          case Ok(am') => LoadLines(text[n..], am', false)
  }

  method LoadManifest(text: Bytes) returns (r: Result<Manifest>)
    ensures r == LoadLines(text, EMPTY, true)
  {
    hide ParseLine, Add, LineLength;
    var rest, am, first := text, EMPTY, true;
    while rest != []
      invariant LoadLines(text, EMPTY, true) == LoadLines(rest, am, first)
      decreases |rest|
    {
      var n := LineLength(rest, LINE_MAX);
      var buf := rest[..n];
      if rest[0] == HASH { rest, first := rest[n..], false; continue; }
      var ai := ParseLine(buf);
      if ai.Err? { return Err; }
      var next := Add(am, ai.value);
      if next.Err? { return Err; }
      rest, am, first := rest[n..], next.value, false;
    }
    if first { return Err; }
    r := Ok(am);
  }

  // ----- Reading a printed line back -----

  /** What the server lists: a proper file name, a positive number, one of the three types. */
  predicate Printable(ai: Info) {
    && CString(ai.name) && BaseName(ai.name) && ai.number > 0
    && (ai.kind == BASE || ai.kind == HIST || ai.kind == INCR)
    && |Format(ai)| <= LINE_MAX
  }

  /** The arguments of a printed line, given the one read for the file name. */
  function Args(name: Bytes, ai: Info): (argv: seq<Bytes>)
    requires ai.number >= 0
  {
    [FILE, name, SEQ, Dec(ai.number), TYPE, [ai.kind]]
  }

  lemma BareWords(ai: Info)
    requires Printable(ai)
    ensures AllBare(SEQ) && AllBare(TYPE) && AllBare(FILE) && AllBare([ai.kind]) && AllBare(Dec(ai.number))
    ensures !IsSpace(Dec(ai.number)[0])
  {
    hide Format, Dec;
    DecShape(ai.number);
    assert IsDigit(Dec(ai.number)[0]);
  }

  lemma SplitAttributes(ai: Info)
    requires Printable(ai)
    ensures SplitArgs(Attributes(ai)) == Some([SEQ, Dec(ai.number), TYPE, [ai.kind]])
  {
    BareWords(ai);
    hide SplitArgs, Dec, Format;
    var d: Bytes := [SPACE] + [ai.kind];
    var c: Bytes := [SPACE] + TYPE + d;
    var b: Bytes := [SPACE] + Dec(ai.number) + c;
    assert Attributes(ai) == [SPACE] + SEQ + b;
    SplitEmpty();
    SplitWord([ai.kind], []);
    assert d == [SPACE] + [ai.kind] + [];
    assert [[ai.kind]] + [] == [[ai.kind]];
    SplitWord(TYPE, d);
    assert [TYPE] + [[ai.kind]] == [TYPE, [ai.kind]];
    SplitWord(Dec(ai.number), c);
    assert [Dec(ai.number)] + [TYPE, [ai.kind]] == [Dec(ai.number), TYPE, [ai.kind]];
    SplitWord(SEQ, b);
    assert [SEQ] + [Dec(ai.number), TYPE, [ai.kind]] == [SEQ, Dec(ai.number), TYPE, [ai.kind]];
  }

  lemma SplitWord(tok: Bytes, rest: Bytes)
    requires tok != [] && AllBare(tok) && !IsSpace(tok[0])
    requires rest == [] || rest[0] == SPACE
    requires SplitArgs(rest).Some?
    ensures SplitArgs([SPACE] + tok + rest) == Some([tok] + SplitArgs(rest).value)
  {
    var s: Bytes := [SPACE] + tok + rest;
    hide SplitArgs;
    assert s[1..] == tok + rest;
    SplitSpace(s);
    SplitBare(tok, rest);
  }

  lemma TrimBody(ai: Info)
    requires Printable(ai)
    ensures TrimRight(TrimLeft(Format(ai))) == Body(ai)
    ensures LF !in Body(ai) && LF in Format(ai) && Format(ai)[0] == 102
  {
    var f := Format(ai);
    hide Dec, Shown;
    assert f[..|f| - 1] == Body(ai) && f[|f| - 1] == LF;
    assert Body(ai)[|Body(ai)| - 1] == ai.kind;
    assert TrimRight(f) == TrimRight(Body(ai));
    NoNewline(ai);
  }

  lemma NoNewline(ai: Info)
    requires Printable(ai)
    ensures LF !in Body(ai)
  {
    hide Dec, Repr, Format;
    DecShape(ai.number);
    assert LF !in Dec(ai.number);
    ShownNoNewline(ai.name);
  }

  lemma ShownNoNewline(name: Bytes)
    ensures LF !in Shown(name)
  {
    ReprNoNewline(name);
  }

  lemma {:induction false} ReprNoNewline(s: Bytes)
    ensures LF !in ReprBody(s)
  {
    if s != [] { ReprNoNewline(s[1..]); }
  }

  lemma ReadFields(name: Bytes, ai: Info)
    requires Printable(ai) && BaseName(name)
    ensures Fields(Args(name, ai), 0, Info([], 0, 0)) == Ok(ai.(name := name)) && HasFile(Args(name, ai))
  {
    var argv := Args(name, ai);
    AtoiOfDec(ai.number, []);
    assert Dec(ai.number) + [] == Dec(ai.number);
    hide Dec, Atoi, Format;
    assert Lower(FILE) == FILE && Lower(SEQ) == SEQ && Lower(TYPE) == TYPE;
    assert Fields(argv, 4, Info(name, ai.number, 0)) == Ok(ai.(name := name)) by {
      assert Fields(argv, 6, ai.(name := name)) == Ok(ai.(name := name));
    }
    assert Fields(argv, 2, Info(name, 0, 0)) == Fields(argv, 4, Info(name, ai.number, 0));
    assert Lower(argv[0]) == FILE;
  }

  lemma BodyParts(ai: Info)
    requires ai.number >= 0
    ensures Body(ai) == FILE + ([SPACE] + (Shown(ai.name) + Attributes(ai)))
  {
    hide Shown, Attributes;
  }

  lemma SplitFile(ai: Info)
    requires Printable(ai)
    ensures SplitArgs(Body(ai)) ==
            match SplitArgs(Shown(ai.name) + Attributes(ai)) case None => None case Some(more) => Some([FILE] + more)
  {
    BareWords(ai);
    BodyParts(ai);
    hide SplitArgs, Dec, Format, Shown, Attributes, Body;
    var t: Bytes := Shown(ai.name) + Attributes(ai);
    SplitBare(FILE, [SPACE] + t);
    SplitSpace([SPACE] + t);
    assert ([SPACE] + t)[1..] == t;
  }

  lemma SplitSafeBody(ai: Info)
    requires Printable(ai) && QuoteSafe(ai.name)
    ensures SplitArgs(Body(ai)) == Some(Args(ai.name, ai))
  {
    SplitAttributes(ai);
    AttributesTame(ai);
    hide SplitArgs, Dec, Format, Shown, Attributes, Body;
    SplitFile(ai);
    SplitShown(ai.name, Attributes(ai));
    assert [FILE] + ([ai.name] + SplitArgs(Attributes(ai)).value) == Args(ai.name, ai);
  }

  lemma SplitUnsafeBody(ai: Info)
    requires Printable(ai) && !QuoteSafe(ai.name)
    ensures SplitArgs(Body(ai)).Some? ==>
              exists name :: name != ai.name && SplitArgs(Body(ai)).value == Args(name, ai)
    ensures ai.name[|ai.name| - 1] != SQUOTE ==> SplitArgs(Body(ai)) == None
  {
    SplitAttributes(ai);
    AttributesTame(ai);
    ShownBare(ai.name);
    hide SplitArgs, Dec, Format, Shown, Attributes, Body, Tame, QuoteSafe;
    SplitFile(ai);
    SplitUnsafe(ai.name, Attributes(ai));
    if SplitArgs(Body(ai)).Some? {
      var argv := SplitArgs(ai.name + Attributes(ai)).value;
      assert argv == [argv[0]] + argv[1..];
      assert [FILE] + argv == Args(argv[0], ai);
    }
  }

  lemma ShownBare(name: Bytes)
    requires !QuoteSafe(name)
    ensures Shown(name) == name
  {}

  lemma AttributesTame(ai: Info)
    requires Printable(ai)
    ensures Tame(Attributes(ai)) && SQUOTE !in Attributes(ai)
    ensures Attributes(ai) != [] && Attributes(ai)[0] == SPACE
  {
    hide Dec, Format;
    DecShape(ai.number);
    assert Tame(Dec(ai.number)) && SQUOTE !in Dec(ai.number);
  }

  /** A printed line is read back as written exactly if its file name keeps its quotes. */
  lemma LineRoundTrip(ai: Info)
    requires Printable(ai)
    ensures ParseLine(Format(ai)) == Ok(ai) <==> QuoteSafe(ai.name)
    ensures ParseLine(Format(ai)).Ok? ==> ParseLine(Format(ai)).value.(name := ai.name) == ai
    ensures !QuoteSafe(ai.name) && ai.name[|ai.name| - 1] != SQUOTE ==> ParseLine(Format(ai)) == Err
  {
    TrimBody(ai);
    hide SplitArgs, TrimLeft, TrimRight, Dec, Format, Body, Fields, HasFile;
    if QuoteSafe(ai.name) {
      SplitSafeBody(ai);
      ReadFields(ai.name, ai);
    } else if SplitArgs(Body(ai)).Some? {
      SplitUnsafeBody(ai);
      assert ai.name[|ai.name| - 1] == SQUOTE;
      var name :| name != ai.name && SplitArgs(Body(ai)).value == Args(name, ai);
      if BaseName(name) { ReadFields(name, ai); } else { BadBaseName(name, ai); }
    }
  }

  lemma BadBaseName(name: Bytes, ai: Info)
    requires Printable(ai) && !BaseName(name)
    ensures Fields(Args(name, ai), 0, Info([], 0, 0)) == Err
  {
    hide Dec, Format;
    assert Lower(FILE) == FILE;
  }

  // ----- Reading a printed manifest back -----

  predicate PrintableAll(es: seq<Info>) { forall i :: 0 <= i < |es| ==> Printable(es[i]) }

  lemma LoadOneLine(ai: Info, t: Bytes, am: Manifest, first: bool)
    requires Printable(ai)
    ensures LoadLines(Format(ai) + t, am, first) ==
            match ParseLine(Format(ai))
            case Err => Err
            case Ok(ai') =>
              match Add(am, ai')
              case Err => Err
              case Ok(am') => LoadLines(t, am', false)
  {
    TrimBody(ai);
    var text := Format(ai) + t;
    assert text == Body(ai) + [LF] + t;
    assert |Body(ai)| + 1 == |Format(ai)|;
    WholeLine(Body(ai), t, LINE_MAX);
    hide ParseLine, Add, Format, LineLength;
    assert text[..|Format(ai)|] == Format(ai) && text[|Format(ai)|..] == t;
    assert text[0] == Format(ai)[0];
  }

  /** The manifest built from entries that are all accepted. */
  function Built(es: seq<Info>, am: Manifest): (r: Result<Manifest>)
    decreases es
  {
    if es == [] then Ok(am)
    else match Add(am, es[0])
      case Err => Err
      case Ok(am') => Built(es[1..], am')
  }

  lemma {:induction false} LoadSafe(es: seq<Info>, am: Manifest)
    requires PrintableAll(es) && Numbered(es)
    requires forall i :: 0 <= i < |es| ==> QuoteSafe(es[i].name)
    ensures LoadLines(Lines(es), am, false) == Built(es, am)
    decreases es
  {
    hide Printable, QuoteSafe, Format, ParseLine, Add;
    if es != [] {
      LoadOneLine(es[0], Lines(es[1..]), am, false);
      LineRoundTrip(es[0]);
      match Add(am, es[0])
      case Err =>
      case Ok(am') => LoadSafe(es[1..], am');
    }
  }

  predicate AllOf(es: seq<Info>, kind: Byte) { forall i :: 0 <= i < |es| ==> es[i].kind == kind }

  /** Numbers that increase from above `floor`. */
  predicate Increasing(es: seq<Info>, floor: int) {
    && (forall i :: 0 <= i < |es| ==> es[i].number > floor)
    && (forall i, j :: 0 <= i < j < |es| ==> es[i].number < es[j].number)
  }

  /** What loading remembers of a manifest: its counters are those of the listed files. */
  function Reloaded(am: Manifest): (r: Manifest) {
    Manifest(am.base, am.history, am.incr,
             if am.base.Some? then am.base.value.number else 0,
             if am.incr == [] then 0 else am.incr[|am.incr| - 1].number, false)
  }

  lemma {:induction false} BuildHistory(es: seq<Info>, am: Manifest)
    requires AllOf(es, HIST)
    ensures Built(es, am) == Ok(am.(history := am.history + es))
    decreases es
  {
    if es == [] {
      assert am.history + es == am.history;
    } else {
      BuildHistory(es[1..], am.(history := am.history + [es[0]]));
      assert am.history + [es[0]] + es[1..] == am.history + es;
    }
  }

  lemma {:induction false} BuildIncr(es: seq<Info>, am: Manifest)
    requires AllOf(es, INCR) && Increasing(es, am.incrSeq)
    ensures Built(es, am) ==
            Ok(am.(incr := am.incr + es, incrSeq := if es == [] then am.incrSeq else es[|es| - 1].number))
    decreases es
  {
    if es == [] {
      assert am.incr + es == am.incr;
    } else {
      BuildIncr(es[1..], am.(incr := am.incr + [es[0]], incrSeq := es[0].number));
      assert am.incr + [es[0]] + es[1..] == am.incr + es;
    }
  }

  lemma {:induction false} BuildAppend(a: seq<Info>, b: seq<Info>, am: Manifest)
    requires Built(a, am).Ok?
    ensures Built(a + b, am) == Built(b, Built(a, am).value)
    decreases a
  {
    hide Add;
    if a == [] {
      assert a + b == b;
    } else {
      assert (a + b)[1..] == a[1..] + b;
      BuildAppend(a[1..], b, Add(am, a[0]).value);
    }
  }

  lemma BuildBase(am: Manifest)
    requires Ordered(am)
    ensures Built(if am.base.Some? then [am.base.value] else [], EMPTY) ==
            Ok(EMPTY.(base := am.base, baseSeq := if am.base.Some? then am.base.value.number else 0))
  {
    if am.base.Some? {
      var m := Add(EMPTY, am.base.value).value;
      assert [am.base.value][1..] == [];
      assert Built([], m) == Ok(m);
    }
  }

  lemma BuildChain(b: seq<Info>, h: seq<Info>, i: seq<Info>, m0: Manifest, m1: Manifest, m2: Manifest)
    requires Built(b, EMPTY) == Ok(m0) && Built(h, m0) == Ok(m1) && Built(i, m1) == Ok(m2)
    ensures Built(b + h + i, EMPTY) == Ok(m2)
  {
    hide Built;
    BuildAppend(b, h, EMPTY);
    BuildAppend(b + h, i, EMPTY);
  }

  lemma OrderedParts(am: Manifest)
    requires Ordered(am)
    ensures AllOf(am.history, HIST) && AllOf(am.incr, INCR) && Increasing(am.incr, 0)
  {}

  lemma BuildsReloaded(am: Manifest)
    requires Ordered(am)
    ensures Built(Entries(am), EMPTY) == Ok(Reloaded(am))
  {
    OrderedParts(am);
    hide Built, Add, Ordered, AllOf, Increasing;
    var b := if am.base.Some? then [am.base.value] else [];
    var m0 := EMPTY.(base := am.base, baseSeq := if am.base.Some? then am.base.value.number else 0);
    var m1 := m0.(history := am.history);
    BuildBase(am);
    BuildHistory(am.history, m0);
    assert m0.history + am.history == am.history;
    BuildIncr(am.incr, m1);
    assert m1.incr + am.incr == am.incr;
    BuildChain(b, am.history, am.incr, m0, m1, Reloaded(am));
  }

  lemma {:induction false} LoadExtends(text: Bytes, am: Manifest, first: bool)
    ensures var r := LoadLines(text, am, first);
            r.Ok? ==> am.history <= r.value.history && am.incr <= r.value.incr
                      && (am.base.Some? ==> r.value.base == am.base)
    decreases |text|
  {
    hide ParseLine, LineLength;
    if text != [] {
      var n := LineLength(text, LINE_MAX);
      if text[0] == HASH {
        LoadExtends(text[n..], am, false);
      } else if ParseLine(text[..n]).Ok? && Add(am, ParseLine(text[..n]).value).Ok? {
        LoadExtends(text[n..], Add(am, ParseLine(text[..n]).value).value, false);
      }
    }
  }

  /** Entries that name the same files in the same places. */
  predicate SameFiles(a: Manifest, b: Manifest) {
    a.base == b.base && a.history == b.history && a.incr == b.incr
  }

  /** If a listed name is not safe, what is loaded is not what the entries build. */
  lemma {:induction false} LoadUnsafe(es: seq<Info>, am: Manifest)
    requires PrintableAll(es) && Numbered(es)
    requires exists i :: 0 <= i < |es| && !QuoteSafe(es[i].name)
    requires Built(es, am).Ok?
    ensures var r := LoadLines(Lines(es), am, false);
            r.Ok? ==> !SameFiles(r.value, Built(es, am).value)
    decreases es
  {
    hide Printable, QuoteSafe, Format, ParseLine;
    var e, t := es[0], Lines(es[1..]);
    LoadOneLine(e, t, am, false);
    LineRoundTrip(e);
    BuiltExtends(es[1..], Add(am, e).value);
    if QuoteSafe(e.name) {
      LoadUnsafe(es[1..], Add(am, e).value);
    } else if ParseLine(Format(e)).Ok? {
      var e' := ParseLine(Format(e)).value;
      if Add(am, e').Ok? {
        LoadExtends(t, Add(am, e').value, false);
        WrongEntry(am, e, e');
      }
    }
  }

  lemma {:induction false} BuiltExtends(es: seq<Info>, am: Manifest)
    ensures var r := Built(es, am);
            r.Ok? ==> am.history <= r.value.history && am.incr <= r.value.incr
                      && (am.base.Some? ==> r.value.base == am.base)
    decreases es
  {
    if es != [] && Add(am, es[0]).Ok? { BuiltExtends(es[1..], Add(am, es[0]).value); }
  }

  /** Two different entries of one kind leave different manifests, whatever is added later. */
  lemma WrongEntry(am: Manifest, e: Info, e': Info)
    requires e != e' && e.kind == e'.kind && Add(am, e).Ok? && Add(am, e').Ok?
    ensures forall a: Manifest, b: Manifest ::
              && Add(am, e).value.history <= a.history && Add(am, e').value.history <= b.history
              && Add(am, e).value.incr <= a.incr && Add(am, e').value.incr <= b.incr
              && (e.kind == BASE ==> a.base == Some(e) && b.base == Some(e'))
              ==> !SameFiles(a, b)
  {
    forall a: Manifest, b: Manifest |
      && Add(am, e).value.history <= a.history && Add(am, e').value.history <= b.history
      && Add(am, e).value.incr <= a.incr && Add(am, e').value.incr <= b.incr
      && (e.kind == BASE ==> a.base == Some(e) && b.base == Some(e'))
      ensures !SameFiles(a, b)
    {
      if e.kind == HIST {
        assert a.history[|am.history|] == e && b.history[|am.history|] == e';
      } else if e.kind == INCR {
        assert a.incr[|am.incr|] == e && b.incr[|am.incr|] == e';
      }
    }
  }

  /**
   * Loading a printed, non-empty manifest gives back the same BASE, HISTORY and INCR lists in
   * order if and only if no listed name carries a single quote without needing quotes.
   */
  lemma ManifestRoundTrip(am: Manifest)
    requires Ordered(am) && Entries(am) != [] && Numbered(Entries(am)) && PrintableAll(Entries(am))
    ensures var r := LoadLines(Lines(Entries(am)), EMPTY, true);
            (r.Ok? && SameFiles(r.value, am))
            <==> forall i :: 0 <= i < |Entries(am)| ==> QuoteSafe(Entries(am)[i].name)
    ensures (forall i :: 0 <= i < |Entries(am)| ==> QuoteSafe(Entries(am)[i].name)) ==>
              LoadLines(Lines(Entries(am)), EMPTY, true) == Ok(Reloaded(am))
  {
    hide Printable, QuoteSafe, Ordered, Entries, Format;
    var es := Entries(am);
    BuildsReloaded(am);
    SomeLine(es);
    FirstLine(Lines(es), EMPTY);
    if forall i :: 0 <= i < |es| ==> QuoteSafe(es[i].name) {
      LoadSafe(es, EMPTY);
    } else {
      LoadUnsafe(es, EMPTY);
    }
  }

  lemma SomeLine(es: seq<Info>)
    requires es != [] && Numbered(es)
    ensures Lines(es) != []
  {}

  lemma FirstLine(text: Bytes, am: Manifest)
    ensures text != [] ==> LoadLines(text, am, true) == LoadLines(text, am, false)
  {
    hide ParseLine, Add, LineLength;
  }

  /** A manifest after it has been written to its file and loaded again. */
  function ThroughText(am: Manifest): (r: Result<Manifest>) {
    if Numbered(Entries(am)) then LoadLines(Lines(Entries(am)), EMPTY, true) else Err
  }
}
