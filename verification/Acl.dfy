/**
 * Command permissions of an ACL selector (acl.c).
 *
 * Every rule changes a bitmap of command ids, the allowed first arguments and the string of
 * rules. The string is what is saved and shown, so replaying it must give the same permissions.
 */
module Acl {
  import opened Wrappers
  import opened Words
  import opened Decimal
  import opened Sds
  import opened AclRules

  const BITS_COUNT: nat := 1024  // USER_COMMAND_BITS_COUNT
  const AT_SIGN: Byte := 64
  const PLUS: Byte := 43
  const MINUS: Byte := 45

  const ALL: Bytes := [97, 108, 108]                             // all
  const ALLCOMMANDS: Bytes := ALL + [99, 111, 109, 109, 97, 110, 100, 115]  // allcommands
  const NOCOMMANDS: Bytes := [110, 111, 99, 111, 109, 109, 97, 110, 100, 115]

  // ----- The command table -----

  datatype Sub = Sub(name: Bytes, id: nat, categories: set<Bytes>)

  /** A command; with subcommands it is a container. */
  datatype Cmd = Cmd(name: Bytes, id: nat, categories: set<Bytes>, subs: seq<Sub>)

  datatype Table = Table(commands: seq<Cmd>, categories: set<Bytes>)

  /** Lower-case text that stands for itself in a rule. */
  predicate Word(s: Bytes) {
    s != [] && AllBare(s) && Lower(s) == s && PIPE !in s && s[0] != AT_SIGN
  }

  predicate ValidCmd(c: Cmd) {
    && Word(c.name) && c.id < BITS_COUNT - 1
    && (forall i :: 0 <= i < |c.subs| ==> Word(c.subs[i].name) && c.subs[i].id < BITS_COUNT - 1)
    && (forall i, j :: 0 <= i < j < |c.subs| ==> c.subs[i].name != c.subs[j].name)
  }

  /** What ACLGetCommandID and the command registration guarantee. */
  predicate ValidTable(t: Table) {
    && (forall i :: 0 <= i < |t.commands| ==> ValidCmd(t.commands[i]))
    && (forall i, j :: 0 <= i < j < |t.commands| ==> t.commands[i].name != t.commands[j].name)
    && (forall i, j :: 0 <= i < j < |t.commands| ==> t.commands[i].id != t.commands[j].id)
    && (forall c, d, i :: c in t.commands && d in t.commands && 0 <= i < |c.subs| ==> c.subs[i].id != d.id)
    && (forall k :: k in t.categories ==> Word(k) && k != ALL)
  }

  function FindCmd(cs: seq<Cmd>, name: Bytes): (r: Option<Cmd>)
    ensures r.Some? ==> r.value in cs && r.value.name == name
  {
    if cs == [] then None else if cs[0].name == name then Some(cs[0]) else FindCmd(cs[1..], name)
  }

  function FindSub(ss: seq<Sub>, name: Bytes): (r: Option<Sub>)
    ensures r.Some? ==> r.value in ss && r.value.name == name
  {
    if ss == [] then None else if ss[0].name == name then Some(ss[0]) else FindSub(ss[1..], name)
  }

  /** The position of the last `|`, or -1. */
  function LastPipe(s: Bytes): (i: int)
    ensures -1 <= i < |s| && (i >= 0 ==> s[i] == PIPE)
    ensures forall j :: i < j < |s| ==> s[j] != PIPE
  {
    if s == [] then -1
    else if s[|s| - 1] == PIPE then |s| - 1
    else LastPipe(s[..|s| - 1])
  }

  /** What a rule speaks about. */
  datatype Target =
    | Whole(c: Cmd)
    | Part(c: Cmd, s: Sub)
    | Category(k: Bytes)
    | FirstArg(c: Cmd, arg: Bytes)

  /** ACLLookupCommand: a command, or a container's subcommand. */
  function Lookup(t: Table, name: Bytes): (r: Option<Target>) {
    var i := LastPipe(name);
    if i < 0 then
      (match FindCmd(t.commands, Lower(name)) case None => None case Some(c) => Some(Whole(c)))
    else if PIPE in name[..i] then None
    else match FindCmd(t.commands, Lower(name[..i]))
      case None => None
      case Some(c) =>
        if c.subs == [] then None
        else match FindSub(c.subs, Lower(name[i + 1..])) case None => None case Some(s) => Some(Part(c, s))
  }

  datatype Errno = ENOENT | EINVAL | ECHILD | EEXIST | EISDIR

  datatype Resolved = Found(target: Target) | Fails(errno: Errno)

  /** The target of "+name" or "-name", or why there is none. */
  function Resolve(t: Table, allow: bool, name: Bytes): (r: Resolved) {
    if name != [] && name[0] == AT_SIGN then
      if Lower(name[1..]) in t.categories then Found(Category(Lower(name[1..]))) else Fails(ENOENT)
    else
      var i := LastPipe(name);
      if !allow || i < 0 then
        (match Lookup(t, name) case None => Fails(ENOENT) case Some(x) => Found(x))
      else match Lookup(t, name[..i])
        case None => Fails(ENOENT)
        case Some(x) =>
          if x.Part? then Fails(ECHILD)
          else if i + 1 == |name| then Fails(EINVAL)
          else if x.Whole? && x.c.subs != [] then
            (match Lookup(t, name) case None => Fails(ENOENT) case Some(y) => Found(y))
          else if x.Whole? then Found(FirstArg(x.c, name[i + 1..]))
          else Fails(EINVAL)
  }

  /** The rule text of a target, lower case. */
  function Name(x: Target): (s: Bytes) {
    match x
    case Whole(c) => c.name
    case Part(c, s) => c.name + [PIPE] + s.name
    case Category(k) => [AT_SIGN] + k
    case FirstArg(c, arg) => c.name + [PIPE] + Lower(arg)
  }

  /** A target that rules of this table can have. */
  predicate Known(t: Table, x: Target) {
    match x
    case Whole(c) => c in t.commands
    case Part(c, s) => c in t.commands && s in c.subs
    case Category(k) => k in t.categories
    case FirstArg(c, arg) => c in t.commands && c.subs == [] && arg != [] && PIPE !in arg
  }

  // ----- What a rule does -----

  /** Command bits, and (command id, first argument in lower case) pairs. */
  datatype Perms = Perms(bits: set<nat>, first: set<(nat, Bytes)>)

  function SubIds(c: Cmd): (ids: set<nat>) { set i | 0 <= i < |c.subs| :: c.subs[i].id }

  /** Commands and subcommands that carry the category themselves. */
  function Members(t: Table, k: Bytes): (ids: set<nat>) {
    (set c | c in t.commands && k in c.categories :: c.id)
    + (set c, i | c in t.commands && 0 <= i < |c.subs| && k in c.subs[i].categories :: c.subs[i].id)
  }

  /** The bits a rule writes: a command's permission extends to all its subcommands. */
  function Ids(t: Table, x: Target): (ids: set<nat>) {
    match x
    case Whole(c) => {c.id} + SubIds(c)
    case Part(_, s) => {s.id}
    case Category(k) =>
      Members(t, k) + (set c, i | c in t.commands && k in c.categories && i in SubIds(c) :: i)
    case FirstArg(_, _) => {}
  }

  /** The commands whose first-argument lists a rule empties. */
  function Resets(t: Table, x: Target): (ids: set<nat>) {
    match x
    case Whole(c) => {c.id}
    case Part(_, s) => {s.id}
    case Category(k) => Members(t, k)
    case FirstArg(_, _) => {}
  }

  function Without(first: set<(nat, Bytes)>, ids: set<nat>): (r: set<(nat, Bytes)>) {
    set q | q in first && q.0 !in ids
  }

  datatype Rule = Rule(allow: bool, x: Target)

  function Apply(t: Table, p: Perms, r: Rule): (p': Perms) {
    if r.x.FirstArg? then p.(first := p.first + {(r.x.c.id, Lower(r.x.arg))})
    else Perms(if r.allow then p.bits + Ids(t, r.x) else p.bits - Ids(t, r.x), Without(p.first, Resets(t, r.x)))
  }

  function Below(n: nat): (ids: set<nat>)
    ensures forall i: nat :: i in ids <==> i < n
  {
    if n == 0 then {} else Below(n - 1) + {n - 1}
  }

  function AllBits(): (ids: set<nat>) { Below(BITS_COUNT) }

  function Base(all: bool): (p: Perms) { Perms(if all then AllBits() else {}, {}) }

  function Replay(t: Table, p: Perms, rs: seq<Rule>): (p': Perms)
    decreases rs
  {
    if rs == [] then p else Replay(t, Apply(t, p, rs[0]), rs[1..])
  }

  lemma {:induction false} ReplaySnoc(t: Table, p: Perms, rs: seq<Rule>, r: Rule)
    ensures Replay(t, p, rs + [r]) == Apply(t, Replay(t, p, rs), r)
    decreases rs
  {
    hide Apply;
    if rs == [] {
      assert rs + [r] == [r];
      assert Replay(t, Apply(t, p, r), [r][1..]) == Apply(t, p, r);
    } else {
      assert (rs + [r])[1..] == rs[1..] + [r];
      ReplaySnoc(t, Apply(t, p, rs[0]), rs[1..], r);
    }
  }

  predicate KnownRule(t: Table, r: Rule) { Known(t, r.x) && (r.x.FirstArg? ==> r.allow) }

  /** First-argument lists belong to commands, never to subcommands. */
  predicate Clean(t: Table, p: Perms) {
    forall q :: q in p.first ==> exists c :: c in t.commands && c.id == q.0
  }

  lemma ApplyClean(t: Table, p: Perms, r: Rule)
    requires Clean(t, p) && KnownRule(t, r)
    ensures Clean(t, Apply(t, p, r))
  {
    hide Ids, Resets;
  }

  // ----- A newer rule makes the ones it supersedes irrelevant -----

  /** `p` and `q` differ only where a rule about `x` writes. */
  ghost predicate Near(t: Table, x: Target, p: Perms, q: Perms) {
    && (forall i :: i !in Ids(t, x) ==> (i in p.bits <==> i in q.bits))
    && (forall e: (nat, Bytes) :: e.0 !in Resets(t, x) && !(x.FirstArg? && e == (x.c.id, Lower(x.arg)))
          ==> (e in p.first <==> e in q.first))
  }

  lemma NearPreserved(t: Table, x: Target, p: Perms, q: Perms, r: Rule)
    requires Near(t, x, p, q)
    ensures Near(t, x, Apply(t, p, r), Apply(t, q, r))
  {
    hide Ids, Resets, Lower;
  }

  lemma NearForgotten(t: Table, r: Rule, p: Perms, q: Perms)
    requires Near(t, r.x, p, q)
    ensures Apply(t, p, r) == Apply(t, q, r)
  {
    hide Ids, Resets, Lower;
    if r.x.FirstArg? {
      NoIds(t, r.x);
      var e0 := (r.x.c.id, Lower(r.x.arg));
      forall e: (nat, Bytes) ensures e in p.first + {e0} <==> e in q.first + {e0} {}
      assert p.bits == q.bits && p.first + {e0} == q.first + {e0};
    } else {
      var ids := Resets(t, r.x);
      forall e: (nat, Bytes) ensures e in Without(p.first, ids) <==> e in Without(q.first, ids) {}
      assert Without(p.first, ids) == Without(q.first, ids);
    }
  }

  lemma NoIds(t: Table, x: Target)
    requires x.FirstArg?
    ensures Ids(t, x) == {} && Resets(t, x) == {}
  {}

  /** The part of a name before its first `|` is the command. */
  lemma SameCommand(a: Bytes, b: Bytes, rest: Bytes)
    requires PIPE !in a && PIPE !in b
    requires a <= b + [PIPE] + rest && |a| < |b + [PIPE] + rest| && (b + [PIPE] + rest)[|a|] == PIPE
    ensures a == b
  {
    var s := b + [PIPE] + rest;
    assert forall i :: 0 <= i < |a| ==> s[i] == a[i] && a[i] in a;
    assert forall i :: 0 <= i < |b| ==> s[i] == b[i] && b[i] in b;
    assert s[|b|] == PIPE;
    assert a == s[..|a|] && b == s[..|b|];
  }

  lemma SameParts(a: Bytes, b: Bytes, u: Bytes, v: Bytes)
    requires PIPE !in a && PIPE !in b && a + [PIPE] + u == b + [PIPE] + v
    ensures a == b && u == v
  {
    var s := a + [PIPE] + u;
    assert s[|a|] == PIPE && a <= s;
    SameCommand(a, b, v);
    assert u == s[|a| + 1..] && v == s[|b| + 1..];
  }

  lemma UniqueCmd(t: Table, c: Cmd, d: Cmd)
    requires ValidTable(t) && c in t.commands && d in t.commands && c.name == d.name
    ensures c == d
  {
    var i :| 0 <= i < |t.commands| && t.commands[i] == c;
    var j :| 0 <= j < |t.commands| && t.commands[j] == d;
    assert i == j;
  }

  lemma UniqueId(t: Table, c: Cmd, d: Cmd)
    requires ValidTable(t) && c in t.commands && d in t.commands && c.id == d.id
    ensures c == d
  {
    var i :| 0 <= i < |t.commands| && t.commands[i] == c;
    var j :| 0 <= j < |t.commands| && t.commands[j] == d;
    assert i == j;
  }

  lemma UniqueSub(t: Table, c: Cmd, r: Sub, s: Sub)
    requires ValidTable(t) && c in t.commands && r in c.subs && s in c.subs && r.name == s.name
    ensures r == s
  {
    assert ValidCmd(c);
    var i :| 0 <= i < |c.subs| && c.subs[i] == r;
    var j :| 0 <= j < |c.subs| && c.subs[j] == s;
    assert i == j;
  }

  lemma KnownWords(t: Table, x: Target)
    requires ValidTable(t) && Known(t, x)
    ensures x.Whole? || x.Part? || x.FirstArg? ==> Word(x.c.name)
    ensures x.Part? ==> Word(x.s.name)
    ensures x.Category? ==> Word(x.k)
    ensures x.FirstArg? ==> PIPE !in Lower(x.arg)
  {
    hide Word;
    if !x.Category? { assert ValidCmd(x.c); }
    if x.FirstArg? { LowerPipe(x.arg); }
  }

  lemma LowerPipe(s: Bytes)
    ensures PIPE in s <==> PIPE in Lower(s)
  {
    if PIPE in s {
      var i :| 0 <= i < |s| && s[i] == PIPE;
      assert Lower(s)[i] == PIPE;
    }
    if PIPE in Lower(s) {
      var i :| 0 <= i < |s| && Lower(s)[i] == PIPE;
      assert s[i] == PIPE;
    }
  }

  /** What a superseding name says about the two targets. */
  lemma SupersededTarget(t: Table, x: Target, y: Target)
    requires ValidTable(t) && Known(t, x) && Known(t, y) && Supersedes(Name(x), Name(y))
    ensures match x
            case Whole(c) => !y.Category? && y.c == c
            case Part(_, _) => y == x
            case Category(_) => y == x
            case FirstArg(c, arg) => y.FirstArg? && y.c == c && Lower(y.arg) == Lower(arg)
  {
    KnownWords(t, x);
    KnownWords(t, y);
    hide ValidTable, Lower, Known;
    match x
    case Whole(c) => SupersededByWhole(t, c, y);
    case Part(c, s) => SupersededByPair(t, x, c, s.name, y);
    case FirstArg(c, arg) => SupersededByPair(t, x, c, Lower(arg), y);
    case Category(k) => SupersededByCategory(t, k, y);
  }

  lemma FirstOfName(t: Table, y: Target)
    requires ValidTable(t) && Known(t, y)
    ensures Name(y) != [] && (Name(y)[0] == AT_SIGN <==> y.Category?)
    ensures PIPE in Name(y) <==> y.Part? || y.FirstArg?
  {
    KnownWords(t, y);
    hide Lower, ValidTable;
    if y.Part? || y.FirstArg? { assert Name(y)[|y.c.name|] == PIPE; }
  }

  lemma SupersedesWord(a: Bytes, w: Bytes)
    requires PIPE !in w && Supersedes(a, w)
    ensures a == w
  {
    assert forall i :: 0 <= i < |w| ==> w[i] in w;
  }

  lemma SupersededByWhole(t: Table, c: Cmd, y: Target)
    requires ValidTable(t) && c in t.commands && Known(t, y) && Supersedes(c.name, Name(y))
    ensures !y.Category? && y.c == c
  {
    KnownWords(t, y);
    KnownWords(t, Whole(c));
    FirstOfName(t, y);
    assert Name(y)[0] == c.name[0];
    hide ValidTable, Lower, Supersedes;
    match y
    case Whole(d) => SupersedesWord(c.name, d.name); UniqueCmd(t, c, d);
    case Part(d, s) => PipeAfter(c.name, d.name, s.name); UniqueCmd(t, c, d);
    case FirstArg(d, arg) => PipeAfter(c.name, d.name, Lower(arg)); UniqueCmd(t, c, d);
    case Category(k) =>
  }

  lemma PipeAfter(a: Bytes, b: Bytes, rest: Bytes)
    requires PIPE !in a && PIPE !in b && Supersedes(a, b + [PIPE] + rest)
    ensures a == b
  {
    var s := b + [PIPE] + rest;
    assert s[|b|] == PIPE;
    assert forall i :: 0 <= i < |a| ==> a[i] in a;
    SameCommand(a, b, rest);
  }

  lemma SupersededByPair(t: Table, x: Target, c: Cmd, u: Bytes, y: Target)
    requires ValidTable(t) && Known(t, x) && Known(t, y)
    requires (x.Part? || x.FirstArg?) && x.c == c && u == (if x.Part? then x.s.name else Lower(x.arg))
    requires Supersedes(c.name + [PIPE] + u, Name(y))
    ensures if x.Part? then y == x else y.FirstArg? && y.c == c && Lower(y.arg) == u
  {
    KnownWords(t, x);
    KnownWords(t, y);
    FirstOfName(t, y);
    var a := c.name + [PIPE] + u;
    assert Name(y)[|c.name|] == a[|c.name|] == PIPE;
    hide ValidTable, Lower;
    var v := if y.Part? then y.s.name else Lower(y.arg);
    PairIsPair(c.name, u, y.c.name, v);
    UniqueCmd(t, c, y.c);
    if x.Part? && y.Part? { UniqueSub(t, c, x.s, y.s); }
  }

  lemma PairIsPair(a: Bytes, u: Bytes, b: Bytes, v: Bytes)
    requires PIPE !in a && PIPE !in b && PIPE !in v && Supersedes(a + [PIPE] + u, b + [PIPE] + v)
    ensures a == b && u == v
  {
    var s, r := a + [PIPE] + u, b + [PIPE] + v;
    assert r[|a|] == s[|a|] == PIPE && a <= r;
    SameCommand(a, b, v);
    assert forall i :: |b| < i < |r| ==> r[i] == v[i - |b| - 1] && r[i] in v;
    assert |r| == |s|;
    SameParts(a, b, u, v);
  }

  lemma SupersededByCategory(t: Table, k: Bytes, y: Target)
    requires ValidTable(t) && k in t.categories && Known(t, y) && Supersedes([AT_SIGN] + k, Name(y))
    ensures y == Category(k)
  {
    KnownWords(t, y);
    FirstOfName(t, y);
    var a: Bytes := [AT_SIGN] + k;
    assert Name(y)[0] == a[0];
    SupersedesWord(a, Name(y));
    assert y.k == Name(y)[1..] && k == a[1..];
  }

  /** Leaving out a superseded rule changes only what the newer rule overwrites. */
  lemma SupersededNear(t: Table, x: Target, r: Rule, p: Perms)
    requires ValidTable(t) && Known(t, x) && KnownRule(t, r) && Clean(t, p) && Supersedes(Name(x), Name(r.x))
    ensures Near(t, x, Apply(t, p, r), p)
  {
    SupersededTarget(t, x, r.x);
    if x.Whole? && r.x.Part? {
      NoSubPairs(t, x.c, r.x.s, p);
    }
    hide Name, Supersedes, ValidTable;
    assert Ids(t, r.x) <= Ids(t, x);
  }

  lemma NoSubPairs(t: Table, c: Cmd, s: Sub, p: Perms)
    requires ValidTable(t) && c in t.commands && s in c.subs && Clean(t, p)
    ensures forall q :: q in p.first ==> q.0 != s.id
    ensures s.id in SubIds(c)
  {
    var i :| 0 <= i < |c.subs| && c.subs[i] == s;
    forall q | q in p.first ensures q.0 != s.id {
      var d :| d in t.commands && d.id == q.0;
      assert c.subs[i].id != d.id;
    }
  }

  // ----- Lists of rules -----

  function Text(r: Rule): (s: Bytes) { [if r.allow then PLUS else MINUS] + Name(r.x) }

  function Texts(rs: seq<Rule>): (ts: seq<Bytes>)
    ensures |ts| == |rs|
  {
    seq(|rs|, i requires 0 <= i < |rs| => Text(rs[i]))
  }

  /** First arguments are kept in lower case and must stand for themselves. */
  predicate Canonical(x: Target) { Lowered(x) && (x.FirstArg? ==> AllBare(x.arg)) }

  predicate Lowered(x: Target) { x.FirstArg? ==> Lower(x.arg) == x.arg }

  function Canon(x: Target): (y: Target) { if x.FirstArg? then x.(arg := Lower(x.arg)) else x }

  predicate GoodRule(t: Table, r: Rule) { KnownRule(t, r) && Canonical(r.x) }

  predicate GoodRules(t: Table, rs: seq<Rule>) { forall i :: 0 <= i < |rs| ==> GoodRule(t, rs[i]) }

  function Surviving(rs: seq<Rule>, x: Target): (kept: seq<Rule>) {
    if rs == [] then []
    else (if Supersedes(Name(x), Name(rs[0].x)) then [] else [rs[0]]) + Surviving(rs[1..], x)
  }

  /** The list after a rule is added. */
  function Added(rs: seq<Rule>, r: Rule): (rs': seq<Rule>) { Surviving(rs, r.x) + [r] }

  lemma LowerLower(s: Bytes)
    ensures Lower(Lower(s)) == Lower(s)
    ensures AllBare(s) <==> AllBare(Lower(s))
  {
    assert forall i :: 0 <= i < |s| ==> (Bare(s[i]) <==> Bare(Lower(s)[i]));
  }

  lemma TextIsRule(t: Table, r: Rule)
    requires ValidTable(t) && GoodRule(t, r)
    ensures IsRule(Text(r)) && Signed(Text(r)) && AllBare(Text(r)) && Text(r)[1..] == Name(r.x)
  {
    KnownWords(t, r.x);
    hide Lower, ValidTable, Known;
    var s := Text(r);
    assert AllBare(s);
    assert forall i :: 0 <= i < |s| ==> Bare(s[i]);
  }

  lemma TextsAreRules(t: Table, rs: seq<Rule>)
    requires ValidTable(t) && GoodRules(t, rs)
    ensures AreRules(Texts(rs))
    ensures forall i :: 0 <= i < |rs| ==> Signed(Texts(rs)[i]) && AllBare(Texts(rs)[i])
  {
    hide Text, ValidTable, GoodRule, AllBare, IsRule;
    forall i | 0 <= i < |rs| ensures IsRule(Text(rs[i])) && Signed(Text(rs[i])) && AllBare(Text(rs[i])) {
      TextIsRule(t, rs[i]);
    }
  }

  /** Dropping superseded texts drops exactly the superseded rules. */
  lemma {:induction false} KeptTexts(t: Table, rs: seq<Rule>, x: Target)
    requires ValidTable(t) && GoodRules(t, rs) && AreRules(Texts(rs))
    ensures Kept(Texts(rs), Name(x)) == Texts(Surviving(rs, x))
  {
    hide Text, ValidTable, GoodRule, Name, Supersedes;
    if rs != [] {
      TextIsRule(t, rs[0]);
      assert Texts(rs)[1..] == Texts(rs[1..]);
      KeptTexts(t, rs[1..], x);
      var k := if Supersedes(Name(x), Name(rs[0].x)) then [] else [rs[0]];
      assert Texts(k + Surviving(rs[1..], x)) == Texts(k) + Texts(Surviving(rs[1..], x));
    }
  }

  lemma {:induction false} SurvivingGood(t: Table, rs: seq<Rule>, x: Target)
    requires GoodRules(t, rs)
    ensures GoodRules(t, Surviving(rs, x))
    ensures forall r :: r in Surviving(rs, x) ==> r in rs && !Supersedes(Name(x), Name(r.x))
  {
    hide GoodRule, Supersedes, Name;
    if rs != [] { SurvivingGood(t, rs[1..], x); }
  }

  /** Superseded rules only make a difference where the newer rule writes. */
  lemma {:induction false} SurvivingNear(t: Table, rs: seq<Rule>, x: Target, p: Perms, q: Perms)
    requires ValidTable(t) && GoodRules(t, rs) && Known(t, x) && Clean(t, p) && Clean(t, q) && Near(t, x, p, q)
    ensures Near(t, x, Replay(t, p, rs), Replay(t, q, Surviving(rs, x)))
    decreases rs
  {
    hide ValidTable, Apply, Near, Clean, Known, Name, Supersedes;
    if rs != [] {
      var r := rs[0];
      assert GoodRule(t, r);
      ApplyClean(t, p, r);
      ApplyClean(t, q, r);
      if Supersedes(Name(x), Name(r.x)) {
        SupersededNear(t, x, r, p);
        NearTransitive(t, x, Apply(t, p, r), p, q);
        SurvivingNear(t, rs[1..], x, Apply(t, p, r), q);
        assert Surviving(rs, x) == Surviving(rs[1..], x);
      } else {
        NearPreserved(t, x, p, q, r);
        SurvivingNear(t, rs[1..], x, Apply(t, p, r), Apply(t, q, r));
        assert Surviving(rs, x) == [r] + Surviving(rs[1..], x);
        assert ([r] + Surviving(rs[1..], x))[1..] == Surviving(rs[1..], x);
      }
    }
  }

  lemma NearTransitive(t: Table, x: Target, p: Perms, q: Perms, s: Perms)
    requires Near(t, x, p, q) && Near(t, x, q, s)
    ensures Near(t, x, p, s)
  {
    hide Ids, Resets, Lower;
  }

  /**
   * Editing the list of rules keeps its meaning: forgetting what the new rule supersedes and
   * appending it gives the permissions of all the old rules followed by the new one.
   */
  lemma AddedReplays(t: Table, rs: seq<Rule>, r: Rule, all: bool)
    requires ValidTable(t) && GoodRules(t, rs) && GoodRule(t, r)
    ensures Replay(t, Base(all), Added(rs, r)) == Apply(t, Replay(t, Base(all), rs), r)
  {
    hide ValidTable, Apply, Ids, Resets, Known, Name, Replay;
    var p := Base(all);
    SurvivingNear(t, rs, r.x, p, p);
    NearForgotten(t, r, Replay(t, p, rs), Replay(t, p, Surviving(rs, r.x)));
    ReplaySnoc(t, p, Surviving(rs, r.x), r);
  }

  /** No rule is superseded by a later one. */
  predicate Latest(rs: seq<Rule>) {
    forall i, j :: 0 <= i < j < |rs| ==> !Supersedes(Name(rs[j].x), Name(rs[i].x))
  }

  lemma {:induction false} NothingSuperseded(rs: seq<Rule>, x: Target)
    requires forall i :: 0 <= i < |rs| ==> !Supersedes(Name(x), Name(rs[i].x))
    ensures Surviving(rs, x) == rs
  {
    hide Supersedes, Name;
    if rs != [] { NothingSuperseded(rs[1..], x); }
  }

  lemma {:induction false} SurvivingLatest(t: Table, rs: seq<Rule>, x: Target)
    requires GoodRules(t, rs) && Latest(rs)
    ensures Latest(Surviving(rs, x))
  {
    hide GoodRule, Supersedes, Name;
    if rs != [] {
      SurvivingGood(t, rs[1..], x);
      SurvivingLatest(t, rs[1..], x);
      var s := Surviving(rs[1..], x);
      forall j | 0 <= j < |s| ensures !Supersedes(Name(s[j].x), Name(rs[0].x)) {
        assert s[j] in rs[1..];
        var i :| 0 <= i < |rs[1..]| && rs[1..][i] == s[j];
        assert rs[i + 1] == s[j];
      }
    }
  }

  lemma AddedLatest(t: Table, rs: seq<Rule>, r: Rule)
    requires GoodRules(t, rs) && GoodRule(t, r) && Latest(rs)
    ensures Latest(Added(rs, r)) && GoodRules(t, Added(rs, r))
  {
    hide GoodRule, Supersedes, Name;
    SurvivingGood(t, rs, r.x);
    SurvivingLatest(t, rs, r.x);
    var s := Surviving(rs, r.x);
    assert forall i :: 0 <= i < |s| ==> s[i] in s;
  }

  /** Adding the rules of an edited list again, one by one, drops none of them. */
  lemma ReaddedPrefix(rs: seq<Rule>, k: nat)
    requires Latest(rs) && k < |rs|
    ensures Added(rs[..k], rs[k]) == rs[..k + 1]
  {
    hide Supersedes, Name;
    NothingSuperseded(rs[..k], rs[k].x);
  }

  // ----- From text to rules -----

  lemma FoundCmd(cs: seq<Cmd>, c: Cmd)
    requires c in cs && forall d :: d in cs && d.name == c.name ==> d == c
    ensures FindCmd(cs, c.name) == Some(c)
  {}

  lemma FoundSub(ss: seq<Sub>, s: Sub)
    requires s in ss && forall d :: d in ss && d.name == s.name ==> d == s
    ensures FindSub(ss, s.name) == Some(s)
  {}

  lemma FindKnown(t: Table, c: Cmd)
    requires ValidTable(t) && c in t.commands
    ensures FindCmd(t.commands, c.name) == Some(c)
  {
    forall d | d in t.commands && d.name == c.name ensures d == c { UniqueCmd(t, d, c); }
    FoundCmd(t.commands, c);
  }

  lemma FindKnownSub(t: Table, c: Cmd, s: Sub)
    requires ValidTable(t) && c in t.commands && s in c.subs
    ensures FindSub(c.subs, s.name) == Some(s)
  {
    forall d | d in c.subs && d.name == s.name ensures d == s { UniqueSub(t, c, d, s); }
    FoundSub(c.subs, s);
  }

  lemma LastPipeAt(a: Bytes, b: Bytes)
    requires PIPE !in b
    ensures LastPipe(a + [PIPE] + b) == |a|
    ensures (a + [PIPE] + b)[..|a|] == a && (a + [PIPE] + b)[|a| + 1..] == b
  {
    var s := a + [PIPE] + b;
    forall j | |a| < j < |s| ensures s[j] != PIPE {
      assert s[j] == b[j - |a| - 1];
    }
    LastPipeIs(s, |a|);
  }

  lemma LastPipeIs(s: Bytes, i: nat)
    requires i < |s| && s[i] == PIPE && forall j :: i < j < |s| ==> s[j] != PIPE
    ensures LastPipe(s) == i
  {
    hide *;
    var k := LastPipe(s);
    assert k >= i;
  }

  lemma NoPipe(s: Bytes)
    requires PIPE !in s
    ensures LastPipe(s) == -1
  {
    assert forall i :: 0 <= i < |s| ==> s[i] in s;
  }

  lemma LookupWhole(t: Table, c: Cmd)
    requires ValidTable(t) && c in t.commands
    ensures Lookup(t, c.name) == Some(Whole(c)) && LastPipe(c.name) == -1
  {
    KnownWords(t, Whole(c));
    hide ValidTable;
    FindKnown(t, c);
    NoPipe(c.name);
  }

  lemma LookupPart(t: Table, c: Cmd, s: Sub)
    requires ValidTable(t) && c in t.commands && s in c.subs
    ensures Lookup(t, c.name + [PIPE] + s.name) == Some(Part(c, s))
  {
    KnownWords(t, Part(c, s));
    hide ValidTable;
    FindKnown(t, c);
    FindKnownSub(t, c, s);
    LastPipeAt(c.name, s.name);
  }

  /** The text of a rule names its target again. */
  lemma ResolveName(t: Table, r: Rule)
    requires ValidTable(t) && KnownRule(t, r) && Lowered(r.x)
    ensures Resolve(t, r.allow, Name(r.x)) == Found(r.x)
  {
    KnownWords(t, r.x);
    FirstOfName(t, r.x);
    hide ValidTable, Lookup, LastPipe;
    match r.x
    case Whole(c) =>
      LookupWhole(t, c);
    case Part(c, s) =>
      LookupWhole(t, c);
      LookupPart(t, c, s);
      LastPipeAt(c.name, s.name);
    case FirstArg(c, arg) =>
      ResolveFirstArg(t, c, arg);
    case Category(k) =>
      assert Name(r.x)[1..] == k;
  }

  lemma ResolveFirstArg(t: Table, c: Cmd, arg: Bytes)
    requires ValidTable(t) && c in t.commands && c.subs == [] && arg != [] && PIPE !in arg
    requires c.name != [] && c.name[0] != AT_SIGN
    ensures Resolve(t, true, c.name + [PIPE] + arg) == Found(FirstArg(c, arg))
  {
    LookupWhole(t, c);
    hide ValidTable, Lookup, LastPipe, Lower;
    LastPipeAt(c.name, arg);
  }

  /** A resolved name is the lower-case name of a target of this table. */
  lemma ResolveKnown(t: Table, allow: bool, name: Bytes)
    requires ValidTable(t) && Resolve(t, allow, name).Found?
    ensures var x := Resolve(t, allow, name).target;
            KnownRule(t, Rule(allow, x)) && Lower(name) == Name(x)
  {
    if name != [] && name[0] == AT_SIGN {
      assert Lower(name) == [AT_SIGN] + Lower(name[1..]);
    } else {
      hide ValidTable, LastPipe, Lower, Lookup;
      var i := LastPipe(name);
      LookupKnown(t, name);
      if allow && i >= 0 {
        SplitLower(name, i);
        LookupKnown(t, name[..i]);
        assert forall j :: i < j < |name| ==> name[i + 1..][j - i - 1] == name[j];
      }
    }
  }

  lemma LookupKnown(t: Table, name: Bytes)
    ensures var x := Lookup(t, name);
            x.Some? ==> (x.value.Whole? || x.value.Part?) && Known(t, x.value) && Lower(name) == Name(x.value)
  {
    hide LastPipe, Lower;
    var i := LastPipe(name);
    if i >= 0 { SplitLower(name, i); }
  }

  lemma SplitLower(s: Bytes, i: nat)
    requires i < |s| && s[i] == PIPE
    ensures Lower(s) == Lower(s[..i]) + [PIPE] + Lower(s[i + 1..])
  {}
}
