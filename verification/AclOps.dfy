/** The operations of ACL SETUSER on commands: what they change, and the rules they leave (acl.c). */
module AclOps {
  import opened Wrappers
  import W = Words
  import opened Decimal
  import opened Sds
  import opened AclRules
  import opened Acl

  const ALLKEYS: Bytes := ALL + [107, 101, 121, 115]
  const RESETKEYS: Bytes := [114, 101, 115, 101, 116, 107, 101, 121, 115]
  const ALLCHANNELS: Bytes := ALL + [99, 104, 97, 110, 110, 101, 108, 115]
  const RESETCHANNELS: Bytes := [114, 101, 115, 101, 116, 99, 104, 97, 110, 110, 101, 108, 115]

  /** Operations on key and channel patterns; they touch none of the state modelled here. */
  predicate KeyOp(op: Bytes) {
    || Lower(op) == ALLKEYS || Lower(op) == RESETKEYS || Lower(op) == ALLCHANNELS || Lower(op) == RESETCHANNELS
    || (op != [] && (op[0] == 126 || op[0] == 37 || op[0] == 38))
  }

  datatype Op = Everything(all: bool) | Change(allow: bool, name: Bytes) | Bad

  function Parse(op: Bytes): (p: Op) {
    if Lower(op) == ALLCOMMANDS || Lower(op) == [PLUS, AT_SIGN] + ALL then Everything(true)
    else if Lower(op) == NOCOMMANDS || Lower(op) == [MINUS, AT_SIGN] + ALL then Everything(false)
    else if op != [] && (op[0] == PLUS || op[0] == MINUS) then Change(op[0] == PLUS, op[1..])
    else Bad
  }

  /** The error of an operation, if it fails. */
  function Error(t: Table, op: Bytes): (e: Option<Errno>) {
    match Parse(op)
    case Everything(_) => None
    case Bad => Some(EINVAL)
    case Change(allow, name) =>
      match Resolve(t, allow, name) case Found(_) => None case Fails(e) => Some(e)
  }

  /** What an operation does to the permissions. */
  function Effect(t: Table, p: Perms, op: Bytes): (p': Perms) {
    match Parse(op)
    case Everything(all) => Base(all)
    case Bad => p
    case Change(allow, name) =>
      match Resolve(t, allow, name) case Found(x) => Apply(t, p, Rule(allow, x)) case Fails(_) => p
  }

  /** The rules an operation leaves: those since the last +@all or -@all, and which of the two it was. */
  datatype Ruled = Ruled(all: bool, list: seq<Rule>)

  function Next(t: Table, s: Ruled, op: Bytes): (s': Ruled) {
    match Parse(op)
    case Everything(all) => Ruled(all, [])
    case Bad => s
    case Change(allow, name) =>
      match Resolve(t, allow, name)
      case Found(x) => s.(list := Added(s.list, Rule(allow, Canon(x))))
      case Fails(_) => s
  }

  /** A first argument that would need quotes in the rule string. */
  predicate NeedsQuotes(t: Table, op: Bytes) {
    && Parse(op).Change?
    && var r := Resolve(t, Parse(op).allow, Parse(op).name);
       r.Found? && r.target.FirstArg? && !AllBare(r.target.arg)
  }

  ghost predicate GoodState(t: Table, s: Ruled) { GoodRules(t, s.list) && Latest(s.list) }

  lemma NextGood(t: Table, s: Ruled, op: Bytes)
    requires ValidTable(t) && GoodState(t, s) && !NeedsQuotes(t, op)
    ensures GoodState(t, Next(t, s, op))
  {
    hide ValidTable, Resolve, Added, Known, Parse;
    match Parse(op)
    case Everything(_) =>
    case Bad =>
    case Change(allow, name) =>
      if Resolve(t, allow, name).Found? {
        var x := Resolve(t, allow, name).target;
        CanonGood(t, allow, name);
        AddedLatest(t, s.list, Rule(allow, Canon(x)));
      }
  }

  lemma CanonGood(t: Table, allow: bool, name: Bytes)
    requires ValidTable(t) && Resolve(t, allow, name).Found?
    requires var x := Resolve(t, allow, name).target; x.FirstArg? ==> AllBare(x.arg)
    ensures var x := Resolve(t, allow, name).target;
            GoodRule(t, Rule(allow, Canon(x))) && Name(Canon(x)) == Lower(name)
    ensures var x := Resolve(t, allow, name).target;
            forall p :: Apply(t, p, Rule(allow, Canon(x))) == Apply(t, p, Rule(allow, x))
  {
    ResolveKnown(t, allow, name);
    hide ValidTable, Resolve, Lower, Ids, Resets;
    var x := Resolve(t, allow, name).target;
    if x.FirstArg? {
      LowerLower(x.arg);
      LowerPipe(x.arg);
    }
  }

  lemma CanonName(x: Target)
    ensures Name(Canon(x)) == Name(x)
  {
    if x.FirstArg? { LowerLower(x.arg); }
  }

  /** One operation keeps the permissions equal to the replayed rules. */
  lemma NextReplays(t: Table, s: Ruled, op: Bytes)
    requires ValidTable(t) && GoodState(t, s) && !NeedsQuotes(t, op)
    ensures var s' := Next(t, s, op);
            Replay(t, Base(s'.all), s'.list) == Effect(t, Replay(t, Base(s.all), s.list), op)
  {
    hide ValidTable, Resolve, Added, Latest, Known, Parse, Apply;
    match Parse(op)
    case Everything(_) =>
    case Bad =>
    case Change(allow, name) =>
      if Resolve(t, allow, name).Found? {
        var x := Resolve(t, allow, name).target;
        CanonGood(t, allow, name);
        AddedReplays(t, s.list, Rule(allow, Canon(x)), s.all);
      }
  }

  function EffectAll(t: Table, p: Perms, ops: seq<Bytes>): (p': Perms)
    decreases ops
  {
    if ops == [] then p else EffectAll(t, Effect(t, p, ops[0]), ops[1..])
  }

  function NextAll(t: Table, s: Ruled, ops: seq<Bytes>): (s': Ruled)
    decreases ops
  {
    if ops == [] then s else NextAll(t, Next(t, s, ops[0]), ops[1..])
  }

  /** Over every run, replaying the edited rules from their base gives the permissions of the run. */
  lemma {:induction false} EveryRunReplays(t: Table, s: Ruled, ops: seq<Bytes>)
    requires ValidTable(t) && GoodState(t, s) && forall i :: 0 <= i < |ops| ==> !NeedsQuotes(t, ops[i])
    ensures var s' := NextAll(t, s, ops);
            GoodState(t, s') && Replay(t, Base(s'.all), s'.list) == EffectAll(t, Replay(t, Base(s.all), s.list), ops)
    decreases ops
  {
    hide ValidTable, GoodState, Next, Effect, Replay, NeedsQuotes;
    if ops != [] {
      NextGood(t, s, ops[0]);
      NextReplays(t, s, ops[0]);
      EveryRunReplays(t, Next(t, s, ops[0]), ops[1..]);
    }
  }

  /** The text of a rule is an operation that adds that rule. */
  lemma ParseText(t: Table, r: Rule)
    requires ValidTable(t) && KnownRule(t, r) && Lowered(r.x)
    ensures !KeyOp(Text(r)) && Parse(Text(r)) == Change(r.allow, Name(r.x))
  {
    hide ValidTable, Known, Lower, Name, Lowered, KeyOp, Parse;
    LowerName(t, r.x);
    NotAll(t, r.x);
    var s := Text(r);
    assert s[1..] == Name(r.x);
    LowerCons(s);
    ParseSigned(s);
  }

  lemma ParseSigned(s: Bytes)
    requires s != [] && (s[0] == PLUS || s[0] == MINUS) && Lower(s) == s && s[1..] != [AT_SIGN] + ALL
    ensures !KeyOp(s) && Parse(s) == Change(s[0] == PLUS, s[1..])
  {
    hide Lower;
    assert ([PLUS, AT_SIGN] + ALL)[1..] == [AT_SIGN] + ALL;
    assert ([MINUS, AT_SIGN] + ALL)[1..] == [AT_SIGN] + ALL;
  }

  lemma LowerCons(s: Bytes)
    requires s != [] && (s[0] == PLUS || s[0] == MINUS) && Lower(s[1..]) == s[1..]
    ensures Lower(s) == s
  {
    assert forall i :: 1 <= i < |s| ==> Lower(s)[i] == Lower(s[1..])[i - 1];
  }

  lemma LowerName(t: Table, x: Target)
    requires ValidTable(t) && Known(t, x) && Lowered(x)
    ensures Lower(Name(x)) == Name(x)
  {
    KnownWords(t, x);
    if x.Part? { LowerPair(x.c.name, x.s.name); }
    if x.FirstArg? { LowerPair(x.c.name, x.arg); }
    if x.Category? { assert forall i :: 1 <= i < |Name(x)| ==> Lower(Name(x))[i] == Lower(x.k)[i - 1]; }
  }

  lemma LowerPair(a: Bytes, b: Bytes)
    requires Lower(a) == a && Lower(b) == b
    ensures Lower(a + [PIPE] + b) == a + [PIPE] + b
  {
    var s := a + [PIPE] + b;
    assert forall i :: 0 <= i < |a| ==> Lower(s)[i] == Lower(a)[i];
    assert forall i :: |a| < i < |s| ==> Lower(s)[i] == Lower(b)[i - |a| - 1];
  }

  lemma NotAll(t: Table, x: Target)
    requires ValidTable(t) && Known(t, x)
    ensures Name(x) != [AT_SIGN] + ALL
  {
    FirstOfName(t, x);
    assert ([AT_SIGN] + ALL)[1..] == ALL;
    assert x.Category? ==> Name(x)[1..] == x.k;
  }

  /** Only +@all sets the reserved bit, and only -@all clears it. */
  lemma {:induction false} Reserved(t: Table, p: Perms, rs: seq<Rule>)
    requires ValidTable(t) && GoodRules(t, rs)
    ensures BITS_COUNT - 1 in Replay(t, p, rs).bits <==> BITS_COUNT - 1 in p.bits
    decreases rs
  {
    hide ValidTable, Ids;
    if rs != [] {
      assert GoodRule(t, rs[0]);
      IdsInRange(t, rs[0].x);
      Reserved(t, Apply(t, p, rs[0]), rs[1..]);
    }
  }

  lemma IdsInRange(t: Table, x: Target)
    requires ValidTable(t) && Known(t, x)
    ensures BITS_COUNT - 1 !in Ids(t, x)
  {
    assert forall c :: c in t.commands ==> ValidCmd(c);
  }

  lemma BaseOp(t: Table, all: bool, s: Ruled)
    ensures var op := [if all then PLUS else MINUS, AT_SIGN] + ALL;
            !KeyOp(op) && !NeedsQuotes(t, op) && Error(t, op) == None && Next(t, s, op) == Ruled(all, [])
  {
    var op := [if all then PLUS else MINUS, AT_SIGN] + ALL;
    assert op[0] == if all then PLUS else MINUS;
    assert Lower(op) == op;
  }

  /** The rule string splits into the texts of the rules. */
  lemma TextsSplit(t: Table, s: Ruled)
    requires ValidTable(t) && GoodState(t, s)
    ensures SplitArgs(Join(Texts(s.list))) == Some(Texts(s.list))
  {
    hide ValidTable, SplitArgs, Join, Texts, AllBare;
    TextsAreRules(t, s.list);
    SplitJoined(Texts(s.list));
  }

  /** Adding back rule `i` after the ones before it. */
  lemma TextReadded(t: Table, s: Ruled, i: nat)
    requires ValidTable(t) && GoodState(t, s) && i < |s.list|
    ensures var op := Texts(s.list)[i];
            && !KeyOp(op) && !NeedsQuotes(t, op) && Error(t, op) == None
            && Next(t, Ruled(s.all, s.list[..i]), op) == Ruled(s.all, s.list[..i + 1])
  {
    hide ValidTable, Known, Resolve, Parse, KeyOp, Added, Latest, Lower, Name;
    var r := s.list[i];
    assert GoodRule(t, r);
    ParseText(t, r);
    ResolveName(t, r);
    ReaddedPrefix(s.list, i);
  }

  // ----- What an operation allows and denies, read off the command table -----

  predicate HasSub(c: Cmd, id: nat) { exists i :: 0 <= i < |c.subs| && c.subs[i].id == id }

  /** Subcommand `i` of `c` has category `k` and number `id`. */
  predicate SubIn(c: Cmd, i: nat, k: Bytes, id: nat)
    requires i < |c.subs|
  {
    k in c.subs[i].categories && c.subs[i].id == id
  }

  predicate SubsIn(c: Cmd, k: Bytes, id: nat) { exists i :: 0 <= i < |c.subs| && SubIn(c, i, k, id) }

  predicate SubNamed(c: Cmd, i: nat, name: Bytes, id: nat)
    requires i < |c.subs|
  {
    name == c.name + [PIPE] + c.subs[i].name && c.subs[i].id == id
  }

  predicate SubsNamed(c: Cmd, name: Bytes, id: nat) { exists i :: 0 <= i < |c.subs| && SubNamed(c, i, name, id) }

  /**
   * The text after the sign names bit `id`: a command and all its subcommands, a category with the
   * commands and subcommands that have it and the subcommands of those commands, or one subcommand.
   */
  predicate NamesBit(t: Table, name: Bytes, id: nat) {
    exists c :: c in t.commands && CmdNamesBit(t, c, name, id)
  }

  predicate CmdNamesBit(t: Table, c: Cmd, name: Bytes, id: nat) {
    || (name == c.name && (id == c.id || HasSub(c, id)))
    || SubsNamed(c, name, id)
    || (exists k :: k in t.categories && name == [AT_SIGN] + k && ((k in c.categories && (id == c.id || HasSub(c, id))) || SubsIn(c, k, id)))
  }

  /** Bit `id` after an accepted operation: all or none, or the sign where it is named and as before elsewhere. */
  predicate BitAfter(t: Table, op: Bytes, before: set<nat>, id: nat) {
    if Lower(op) == ALLCOMMANDS || Lower(op) == [PLUS, AT_SIGN] + ALL then true
    else if Lower(op) == NOCOMMANDS || Lower(op) == [MINUS, AT_SIGN] + ALL then false
    else if op != [] && NamesBit(t, Lower(op[1..]), id) then op[0] == PLUS
    else id in before
  }

  ghost predicate BitsAfter(t: Table, op: Bytes, before: set<nat>, after: set<nat>) {
    forall id :: 0 <= id < BITS_COUNT ==> (id in after <==> BitAfter(t, op, before, id))
  }

  lemma NotNamed(t: Table, c: Cmd, name: Bytes, id: nat)
    requires ValidTable(t) && c in t.commands && name != [] && (PIPE !in name || name[0] == AT_SIGN)
    ensures !SubsNamed(c, name, id)
  {
    KnownWords(t, Whole(c));
    forall i | 0 <= i < |c.subs| ensures !SubNamed(c, i, name, id) {
      var pair := c.name + [PIPE] + c.subs[i].name;
      assert pair[|c.name|] == PIPE && pair[0] == c.name[0];
    }
  }

  lemma NamesWhole(t: Table, c: Cmd, id: nat)
    requires ValidTable(t) && c in t.commands
    ensures NamesBit(t, c.name, id) <==> id == c.id || HasSub(c, id)
  {
    KnownWords(t, Whole(c));
    forall d | d in t.commands && CmdNamesBit(t, d, c.name, id) ensures d == c && (id == c.id || HasSub(c, id)) {
      NotNamed(t, d, c.name, id);
      assert forall k: Bytes :: ([AT_SIGN] + k)[0] == AT_SIGN;
      UniqueCmd(t, c, d);
    }
    assert id == c.id || HasSub(c, id) ==> CmdNamesBit(t, c, c.name, id);
  }

  lemma NamesCategory(t: Table, k: Bytes, id: nat)
    requires ValidTable(t) && k in t.categories
    ensures NamesBit(t, [AT_SIGN] + k, id)
            <==> exists c :: c in t.commands && ((k in c.categories && (id == c.id || HasSub(c, id))) || SubsIn(c, k, id))
  {
    var name := [AT_SIGN] + k;
    forall d | d in t.commands && CmdNamesBit(t, d, name, id)
      ensures (k in d.categories && (id == d.id || HasSub(d, id))) || SubsIn(d, k, id)
    {
      KnownWords(t, Whole(d));
      assert d.name[0] != AT_SIGN && name[0] == AT_SIGN;
      NotNamed(t, d, name, id);
      var j :| j in t.categories && name == [AT_SIGN] + j && ((j in d.categories && (id == d.id || HasSub(d, id))) || SubsIn(d, j, id));
      assert j == name[1..] == k;
    }
    if c :| c in t.commands && ((k in c.categories && (id == c.id || HasSub(c, id))) || SubsIn(c, k, id)) {
      assert CmdNamesBit(t, c, name, id);
    }
  }

  lemma NamesPair(t: Table, c: Cmd, u: Bytes, id: nat)
    requires ValidTable(t) && c in t.commands && PIPE !in u
    ensures NamesBit(t, c.name + [PIPE] + u, id) <==> exists i :: 0 <= i < |c.subs| && c.subs[i].name == u && c.subs[i].id == id
  {
    var name := c.name + [PIPE] + u;
    KnownWords(t, Whole(c));
    assert name[|c.name|] == PIPE && name[0] == c.name[0];
    forall d | d in t.commands && CmdNamesBit(t, d, name, id)
      ensures exists i :: 0 <= i < |c.subs| && c.subs[i].name == u && c.subs[i].id == id
    {
      KnownWords(t, Whole(d));
      assert PIPE !in d.name;
      assert forall k: Bytes :: ([AT_SIGN] + k)[0] == AT_SIGN;
      assert SubsNamed(d, name, id);
      var i :| 0 <= i < |d.subs| && SubNamed(d, i, name, id);
      SameParts(c.name, d.name, u, d.subs[i].name);
      UniqueCmd(t, c, d);
    }
    if i :| 0 <= i < |c.subs| && c.subs[i].name == u && c.subs[i].id == id {
      assert SubNamed(c, i, name, id);
      assert CmdNamesBit(t, c, name, id);
    }
  }

  /** The rule's own account of its bits is the one of the table. */
  lemma IdsAreNamed(t: Table, x: Target, id: nat)
    requires ValidTable(t) && Known(t, x)
    ensures id in Ids(t, x) <==> NamesBit(t, Name(x), id)
  {
    match x
    case Whole(c) => NamesWhole(t, c, id);
    case Category(k) => hide ValidTable; CategoryIds(t, k, id); NamesCategory(t, k, id);
    case Part(c, s) => PartNamed(t, c, s, id);
    case FirstArg(c, arg) => LowerPipe(arg); NamesPair(t, c, Lower(arg), id);
  }

  lemma PartNamed(t: Table, c: Cmd, s: Sub, id: nat)
    requires ValidTable(t) && c in t.commands && s in c.subs
    ensures id == s.id <==> NamesBit(t, c.name + [PIPE] + s.name, id)
  {
    KnownWords(t, Part(c, s));
    NamesPair(t, c, s.name, id);
    hide NamesBit;
    if i :| 0 <= i < |c.subs| && c.subs[i].name == s.name && c.subs[i].id == id { UniqueSub(t, c, c.subs[i], s); }
  }

  lemma CategoryIds(t: Table, k: Bytes, id: nat)
    ensures id in Ids(t, Category(k))
            <==> exists c :: c in t.commands && ((k in c.categories && (id == c.id || HasSub(c, id))) || SubsIn(c, k, id))
  {
    if id in Ids(t, Category(k)) {
      if c :| c in t.commands && k in c.categories && id == c.id {
      } else if c, i :| c in t.commands && 0 <= i < |c.subs| && k in c.subs[i].categories && id == c.subs[i].id {
        assert SubIn(c, i, k, id);
      } else {
        var c :| c in t.commands && k in c.categories && id in SubIds(c);
        assert HasSub(c, id);
      }
    }
    if c :| c in t.commands && ((k in c.categories && (id == c.id || HasSub(c, id))) || SubsIn(c, k, id)) {
      if SubsIn(c, k, id) {
        var i :| 0 <= i < |c.subs| && SubIn(c, i, k, id);
        assert c.subs[i].id in Members(t, k);
      } else if HasSub(c, id) {
        assert id in SubIds(c);
      } else {
        assert c.id in Members(t, k);
      }
    }
  }

  /** An accepted operation sets or clears exactly the bits it names, and no other bit changes. */
  lemma EffectBits(t: Table, p: Perms, op: Bytes)
    requires ValidTable(t) && Error(t, op) == None
    ensures BitsAfter(t, op, p.bits, Effect(t, p, op).bits)
  {
    hide ValidTable, Resolve, NamesBit, Ids, Lower;
    forall id | 0 <= id < BITS_COUNT ensures id in Effect(t, p, op).bits <==> BitAfter(t, op, p.bits, id) {
      if Parse(op).Change? {
        ResolveKnown(t, Parse(op).allow, Parse(op).name);
        var x := Resolve(t, Parse(op).allow, Parse(op).name).target;
        IdsAreNamed(t, x, id);
        if x.FirstArg? { NoIds(t, x); }
      }
    }
  }

  // ----- Which operations are accepted -----

  predicate IsCommand(t: Table, name: Bytes) { exists c :: c in t.commands && c.name == name }

  predicate IsSubOf(c: Cmd, name: Bytes) { exists s :: s in c.subs && s.name == name }

  predicate Sign(b: W.Byte) { b == PLUS || b == MINUS }

  lemma {:induction false} FindsCmd(cs: seq<Cmd>, name: Bytes)
    ensures FindCmd(cs, name).Some? <==> exists c :: c in cs && c.name == name
  {
    if cs != [] {
      FindsCmd(cs[1..], name);
      assert forall c :: c in cs <==> c == cs[0] || c in cs[1..];
    }
  }

  lemma {:induction false} FindsSub(ss: seq<Sub>, name: Bytes)
    ensures FindSub(ss, name).Some? <==> exists s :: s in ss && s.name == name
  {
    if ss != [] {
      FindsSub(ss[1..], name);
      assert forall s :: s in ss <==> s == ss[0] || s in ss[1..];
    }
  }

  lemma TailsDiffer(a: W.Byte, x: Bytes, b: W.Byte, y: Bytes)
    requires x != y
    ensures [a] + x != [b] + y
  {
    assert ([a] + x)[1..] == x && ([b] + y)[1..] == y;
  }

  lemma LowerSigned(sign: W.Byte, name: Bytes)
    requires Sign(sign)
    ensures Lower([sign] + name) == [sign] + Lower(name) && ([sign] + name)[1..] == name
  {}

  lemma SignedChange(sign: W.Byte, name: Bytes)
    requires Sign(sign) && Lower(name) != [AT_SIGN] + ALL
    ensures Parse([sign] + name) == Change(sign == PLUS, name)
  {
    LowerSigned(sign, name);
    TailsDiffer(sign, Lower(name), PLUS, [AT_SIGN] + ALL);
    TailsDiffer(sign, Lower(name), MINUS, [AT_SIGN] + ALL);
    assert [PLUS, AT_SIGN] + ALL == [PLUS] + ([AT_SIGN] + ALL) && [MINUS, AT_SIGN] + ALL == [MINUS] + ([AT_SIGN] + ALL);
    assert ([sign] + Lower(name))[0] == sign && ALLCOMMANDS[0] == 97 && NOCOMMANDS[0] == 110;
    hide Lower;
  }

  /** A single word is accepted, with either sign, exactly if it is a command. */
  lemma WordAccepted(t: Table, sign: W.Byte, w: Bytes)
    requires Sign(sign) && PIPE !in w && (w == [] || w[0] != AT_SIGN)
    ensures Error(t, [sign] + w) == if IsCommand(t, Lower(w)) then None else Some(ENOENT)
  {
    assert ([AT_SIGN] + ALL)[0] == AT_SIGN;
    assert w != [] ==> Lower(w)[0] == if 65 <= w[0] <= 90 then w[0] + 32 else w[0];
    SignedChange(sign, w);
    NoPipe(w);
    FindsCmd(t.commands, Lower(w));
    hide Parse, Lower, FindCmd;
  }

  /** A category is accepted exactly if it exists. */
  lemma CategoryAccepted(t: Table, sign: W.Byte, k: Bytes)
    requires Sign(sign) && Lower(k) != ALL
    ensures Error(t, [sign] + ([AT_SIGN] + k)) == if Lower(k) in t.categories then None else Some(ENOENT)
  {
    var name := [AT_SIGN] + k;
    assert name[1..] == k;
    assert forall i :: 1 <= i < |name| ==> Lower(name)[i] == Lower(k)[i - 1];
    assert Lower(name)[1..] == Lower(k);
    assert ([AT_SIGN] + ALL)[1..] == ALL;
    SignedChange(sign, name);
    hide Parse, Lower;
  }

  /** `name` is the one command `c` of the table, or there is none. */
  lemma TheCommand(t: Table, name: Bytes)
    requires ValidTable(t)
    ensures FindCmd(t.commands, name).Some? <==> IsCommand(t, name)
    ensures forall c :: c in t.commands && c.name == name ==> FindCmd(t.commands, name) == Some(c)
  {
    FindsCmd(t.commands, name);
    forall c | c in t.commands && c.name == name ensures FindCmd(t.commands, name) == Some(c) { FindKnown(t, c); }
  }

  /**
   * `a|b`: taking away needs a subcommand of that name. Adding needs a command `a` and a non-empty
   * `b`, which has to be a subcommand if `a` has any, and can be any first argument if it has none.
   */
  lemma PairAccepted(t: Table, sign: W.Byte, a: Bytes, b: Bytes, c: Cmd)
    requires ValidTable(t) && Sign(sign) && PIPE !in a && PIPE !in b && (a == [] || a[0] != AT_SIGN)
    ensures var e := Error(t, [sign] + (a + [PIPE] + b));
            && (!IsCommand(t, Lower(a)) ==> e == Some(ENOENT))
            && (c in t.commands && c.name == Lower(a) ==>
                e == if sign == PLUS && b == [] then Some(EINVAL)
                     else if IsSubOf(c, Lower(b)) || (sign == PLUS && c.subs == []) then None
                     else Some(ENOENT))
  {
    var name := a + [PIPE] + b;
    NotAllPair(a, b);
    SignedChange(sign, name);
    LastPipeAt(a, b);
    NoPipe(a);
    TheCommand(t, Lower(a));
    FindsSub(c.subs, Lower(b));
    hide Parse, Lower, FindCmd, FindSub, LastPipe, ValidTable;
  }

  lemma NotAllPair(a: Bytes, b: Bytes)
    requires a == [] || a[0] != AT_SIGN
    ensures Lower(a + [PIPE] + b) != [AT_SIGN] + ALL && (a + [PIPE] + b)[0] != AT_SIGN
  {
    var name := a + [PIPE] + b;
    assert name[0] == if a == [] then PIPE else a[0];
    assert ([AT_SIGN] + ALL)[0] == AT_SIGN;
  }

  /** A third part is an error, of its own kind after a subcommand. */
  lemma ThreePartsRefused(t: Table, a: Bytes, b: Bytes, d: Bytes, c: Cmd)
    requires ValidTable(t) && PIPE !in a && PIPE !in b && PIPE !in d && (a == [] || a[0] != AT_SIGN)
    ensures var e := Error(t, [PLUS] + (a + [PIPE] + b + [PIPE] + d));
            && (!IsCommand(t, Lower(a)) ==> e == Some(ENOENT))
            && (c in t.commands && c.name == Lower(a) ==> e == Some(if IsSubOf(c, Lower(b)) then ECHILD else ENOENT))
  {
    var pair := a + [PIPE] + b;
    var name := pair + [PIPE] + d;
    NotAllPair(a, b);
    NotAllPair(pair, d);
    SignedChange(PLUS, name);
    LastPipeAt(pair, d);
    LastPipeAt(a, b);
    TheCommand(t, Lower(a));
    FindsSub(c.subs, Lower(b));
    hide Parse, Lower, FindCmd, FindSub, LastPipe, ValidTable;
  }

  /** Which operations are about keys and channels. */
  lemma KeyWords(op: Bytes)
    ensures KeyOp(op) <==> (op != [] && op[0] in {37, 38, 126})
                           || Lower(op) in {[97, 108, 108, 107, 101, 121, 115], [114, 101, 115, 101, 116, 107, 101, 121, 115],
                                            [97, 108, 108, 99, 104, 97, 110, 110, 101, 108, 115], [114, 101, 115, 101, 116, 99, 104, 97, 110, 110, 101, 108, 115]}
  {
    hide Lower;
    assert ALLKEYS == [97, 108, 108, 107, 101, 121, 115] && ALLCHANNELS == [97, 108, 108, 99, 104, 97, 110, 110, 101, 108, 115];
  }

  /** The four ways to say all or no commands. */
  lemma WholeWords()
    ensures Parse([97, 108, 108, 99, 111, 109, 109, 97, 110, 100, 115]) == Parse([43, 64, 97, 108, 108]) == Everything(true)
    ensures Parse([110, 111, 99, 111, 109, 109, 97, 110, 100, 115]) == Parse([45, 64, 97, 108, 108]) == Everything(false)
  {
    assert Lower([97, 108, 108, 99, 111, 109, 109, 97, 110, 100, 115]) == ALLCOMMANDS;
    assert Lower([43, 64, 97, 108, 108]) == [PLUS, AT_SIGN] + ALL;
    assert Lower([110, 111, 99, 111, 109, 109, 97, 110, 100, 115]) == NOCOMMANDS;
    assert Lower([45, 64, 97, 108, 108]) == [MINUS, AT_SIGN] + ALL;
    assert |NOCOMMANDS| != |ALLCOMMANDS| && ([MINUS, AT_SIGN] + ALL)[0] != ([PLUS, AT_SIGN] + ALL)[0];
    assert |NOCOMMANDS| == 10 && |[PLUS, AT_SIGN] + ALL| == 5 && |[MINUS, AT_SIGN] + ALL| == 5 && |ALLCOMMANDS| == 11;
  }

  /** Anything else is not an operation on commands. */
  lemma OtherRefused(t: Table, op: Bytes)
    requires op == [] || !Sign(op[0])
    ensures Error(t, op) == if Lower(op) == ALLCOMMANDS || Lower(op) == NOCOMMANDS then None else Some(EINVAL)
  {
    assert op != [] ==> Lower(op)[0] == if 65 <= op[0] <= 90 then op[0] + 32 else op[0];
    assert ([PLUS, AT_SIGN] + ALL)[0] == PLUS && ([MINUS, AT_SIGN] + ALL)[0] == MINUS;
  }

  // ----- First arguments -----

  /** The text after the sign makes the server forget the first arguments it knows for `id`. */
  predicate Forgets(t: Table, name: Bytes, id: nat) { exists c :: c in t.commands && CmdForgets(t, c, name, id) }

  predicate CmdForgets(t: Table, c: Cmd, name: Bytes, id: nat) {
    || (name == c.name && id == c.id)
    || SubsNamed(c, name, id)
    || (exists k :: k in t.categories && name == [AT_SIGN] + k && ((k in c.categories && id == c.id) || SubsIn(c, k, id)))
  }

  /** The text after the sign is a command without subcommands, and a first argument for it. */
  predicate NamesFirst(t: Table, name: Bytes, e: (nat, Bytes)) {
    exists c :: c in t.commands && c.subs == [] && c.id == e.0 && e.1 != [] && PIPE !in e.1 && name == c.name + [PIPE] + e.1
  }

  /** First argument `e` after an accepted operation. */
  predicate FirstAfter(t: Table, op: Bytes, before: set<(nat, Bytes)>, e: (nat, Bytes)) {
    if Lower(op) in {ALLCOMMANDS, [PLUS, AT_SIGN] + ALL, NOCOMMANDS, [MINUS, AT_SIGN] + ALL} then false
    else op != [] && ((op[0] == PLUS && NamesFirst(t, Lower(op[1..]), e)) || (e in before && !Forgets(t, Lower(op[1..]), e.0)))
  }

  ghost predicate FirstsAfter(t: Table, op: Bytes, before: set<(nat, Bytes)>, after: set<(nat, Bytes)>) {
    forall e :: e in after <==> FirstAfter(t, op, before, e)
  }

  lemma ForgetsWhole(t: Table, c: Cmd, id: nat)
    requires ValidTable(t) && c in t.commands
    ensures Forgets(t, c.name, id) <==> id == c.id
  {
    KnownWords(t, Whole(c));
    forall d | d in t.commands && CmdForgets(t, d, c.name, id) ensures id == c.id {
      NotNamed(t, d, c.name, id);
      assert forall k: Bytes :: ([AT_SIGN] + k)[0] == AT_SIGN;
      UniqueCmd(t, c, d);
    }
    assert id == c.id ==> CmdForgets(t, c, c.name, id);
  }

  lemma ForgetsCategory(t: Table, k: Bytes, id: nat)
    requires ValidTable(t) && k in t.categories
    ensures Forgets(t, [AT_SIGN] + k, id) <==> id in Members(t, k)
  {
    var name := [AT_SIGN] + k;
    forall d | d in t.commands && CmdForgets(t, d, name, id) ensures id in Members(t, k) {
      KnownWords(t, Whole(d));
      assert d.name[0] != AT_SIGN && name[0] == AT_SIGN;
      NotNamed(t, d, name, id);
      var j :| j in t.categories && name == [AT_SIGN] + j && ((j in d.categories && id == d.id) || SubsIn(d, j, id));
      assert j == name[1..] == k;
      if SubsIn(d, k, id) {
        var i :| 0 <= i < |d.subs| && SubIn(d, i, k, id);
        assert d.subs[i].id in Members(t, k);
      }
    }
    if id in Members(t, k) {
      if c :| c in t.commands && k in c.categories && id == c.id {
        assert CmdForgets(t, c, name, id);
      } else {
        var c, i :| c in t.commands && 0 <= i < |c.subs| && k in c.subs[i].categories && id == c.subs[i].id;
        assert SubIn(c, i, k, id);
        assert CmdForgets(t, c, name, id);
      }
    }
  }

  lemma ForgetsPair(t: Table, c: Cmd, u: Bytes, id: nat)
    requires ValidTable(t) && c in t.commands && PIPE !in u
    ensures Forgets(t, c.name + [PIPE] + u, id) <==> exists i :: 0 <= i < |c.subs| && c.subs[i].name == u && c.subs[i].id == id
  {
    var name := c.name + [PIPE] + u;
    KnownWords(t, Whole(c));
    assert name[|c.name|] == PIPE && name[0] == c.name[0];
    forall d | d in t.commands && CmdForgets(t, d, name, id)
      ensures exists i :: 0 <= i < |c.subs| && c.subs[i].name == u && c.subs[i].id == id
    {
      KnownWords(t, Whole(d));
      assert PIPE !in d.name;
      assert forall k: Bytes :: ([AT_SIGN] + k)[0] == AT_SIGN;
      assert SubsNamed(d, name, id);
      var i :| 0 <= i < |d.subs| && SubNamed(d, i, name, id);
      SameParts(c.name, d.name, u, d.subs[i].name);
      UniqueCmd(t, c, d);
    }
    if i :| 0 <= i < |c.subs| && c.subs[i].name == u && c.subs[i].id == id {
      assert SubNamed(c, i, name, id);
      assert CmdForgets(t, c, name, id);
    }
  }

  lemma ResetsAreForgotten(t: Table, x: Target, id: nat)
    requires ValidTable(t) && Known(t, x)
    ensures id in Resets(t, x) <==> Forgets(t, Name(x), id)
  {
    match x
    case Whole(c) => ForgetsWhole(t, c, id);
    case Category(k) => ForgetsCategory(t, k, id);
    case Part(c, s) => PartForgets(t, c, s, id);
    case FirstArg(c, arg) => LowerPipe(arg); ForgetsPair(t, c, Lower(arg), id);
  }

  lemma PartForgets(t: Table, c: Cmd, s: Sub, id: nat)
    requires ValidTable(t) && c in t.commands && s in c.subs
    ensures id == s.id <==> Forgets(t, c.name + [PIPE] + s.name, id)
  {
    KnownWords(t, Part(c, s));
    ForgetsPair(t, c, s.name, id);
    hide Forgets;
    if i :| 0 <= i < |c.subs| && c.subs[i].name == s.name && c.subs[i].id == id { UniqueSub(t, c, c.subs[i], s); }
  }

  lemma GrantsNamed(t: Table, x: Target, e: (nat, Bytes))
    requires ValidTable(t) && Known(t, x)
    ensures NamesFirst(t, Name(x), e) <==> x.FirstArg? && e == (x.c.id, Lower(x.arg))
  {
    KnownWords(t, x);
    FirstOfName(t, x);
    forall d | d in t.commands && d.subs == [] && d.id == e.0 && e.1 != [] && PIPE !in e.1 && Name(x) == d.name + [PIPE] + e.1
      ensures x.FirstArg? && e == (x.c.id, Lower(x.arg))
    {
      KnownWords(t, Whole(d));
      assert (d.name + [PIPE] + e.1)[|d.name|] == PIPE && (d.name + [PIPE] + e.1)[0] == d.name[0];
      SameParts(x.c.name, d.name, if x.Part? then x.s.name else Lower(x.arg), e.1);
      UniqueCmd(t, x.c, d);
    }
  }

  /** An accepted operation allows exactly the first argument it names and forgets those of the commands it names. */
  lemma EffectFirsts(t: Table, p: Perms, op: Bytes)
    requires ValidTable(t) && Error(t, op) == None
    ensures FirstsAfter(t, op, p.first, Effect(t, p, op).first)
  {
    hide ValidTable, Resolve, NamesFirst, Forgets, Resets, Lower;
    forall e ensures e in Effect(t, p, op).first <==> FirstAfter(t, op, p.first, e) {
      if Parse(op).Change? {
        ResolveKnown(t, Parse(op).allow, Parse(op).name);
        var x := Resolve(t, Parse(op).allow, Parse(op).name).target;
        ResetsAreForgotten(t, x, e.0);
        GrantsNamed(t, x, e);
        if x.FirstArg? { NoIds(t, x); }
      }
    }
  }

  // ----- Reading the rule string again -----

  /** The operations `ops` on a selector that starts from +@all or -@all; None if one is an error. */
  function Redo(t: Table, p: Perms, ops: seq<Bytes>): (r: Option<Perms>)
    decreases ops
  {
    if ops == [] then Some(p)
    else if KeyOp(ops[0]) then Redo(t, p, ops[1..])
    else if Error(t, ops[0]).Some? then None
    else Redo(t, Effect(t, p, ops[0]), ops[1..])
  }

  /** What the self-check does with a rule string: split it and apply the parts to a fresh selector. */
  function Reread(t: Table, all: bool, rules: Bytes): (r: Option<Perms>) {
    match SplitArgs(rules) case None => None case Some(ops) => Redo(t, Base(all), ops)
  }

  /** The texts of rules have the effect of the rules. */
  lemma {:induction false} RedoTexts(t: Table, p: Perms, rs: seq<Rule>)
    requires ValidTable(t) && GoodRules(t, rs)
    ensures Redo(t, p, Texts(rs)) == Some(Replay(t, p, rs))
    decreases rs
  {
    hide ValidTable, GoodRule, Apply, KeyOp, Error, Effect, Text;
    if rs != [] {
      assert Texts(rs)[1..] == Texts(rs[1..]);
      TextHasEffect(t, p, rs[0]);
      RedoTexts(t, Apply(t, p, rs[0]), rs[1..]);
    }
  }

  lemma TextHasEffect(t: Table, p: Perms, r: Rule)
    requires ValidTable(t) && GoodRule(t, r)
    ensures !KeyOp(Text(r)) && Error(t, Text(r)) == None && Effect(t, p, Text(r)) == Apply(t, p, r)
  {
    hide ValidTable, Known, Resolve, Parse, KeyOp, Lower, Name, Apply;
    ParseText(t, r);
    ResolveName(t, r);
  }

  /** `op` allows the first argument `e.1` of the command with id `e.0`. */
  predicate Grants(t: Table, op: Bytes, e: (nat, Bytes)) {
    && Parse(op).Change?
    && var r := Resolve(t, Parse(op).allow, Parse(op).name);
       r.Found? && r.target.FirstArg? && (r.target.c.id, Lower(r.target.arg)) == e
  }

  lemma EffectGrants(t: Table, p: Perms, op: Bytes, e: (nat, Bytes))
    requires e in Effect(t, p, op).first
    ensures e in p.first || Grants(t, op, e)
  {
    hide Resolve, Parse, Lower, Ids, Resets;
  }

  /** Every first argument that is allowed in the end was so at the start or is granted by an operation. */
  lemma {:induction false} RedoGrants(t: Table, p: Perms, ops: seq<Bytes>, e: (nat, Bytes))
    requires Redo(t, p, ops).Some? && e in Redo(t, p, ops).value.first
    ensures e in p.first || exists op :: op in ops && Grants(t, op, e)
    decreases ops
  {
    hide KeyOp, Error, Effect, Grants;
    if ops != [] {
      if KeyOp(ops[0]) {
        RedoGrants(t, p, ops[1..], e);
      } else {
        RedoGrants(t, Effect(t, p, ops[0]), ops[1..], e);
        if e in Effect(t, p, ops[0]).first { EffectGrants(t, p, ops[0], e); }
      }
    }
  }

  /** Only a text with exactly these letters grants the first argument. */
  lemma GrantText(t: Table, op: Bytes, c: Cmd, arg: Bytes)
    requires ValidTable(t) && c in t.commands && Grants(t, op, (c.id, arg))
    ensures Lower(op) == [PLUS] + (c.name + [PIPE] + arg)
  {
    var allow, name := Parse(op).allow, Parse(op).name;
    ResolveKnown(t, allow, name);
    var x := Resolve(t, allow, name).target;
    assert x.c in t.commands;
    UniqueId(t, x.c, c);
    ChangeText(op);
    assert allow;
  }

  lemma ChangeText(op: Bytes)
    requires Parse(op).Change?
    ensures Lower(op) == [if Parse(op).allow then PLUS else MINUS] + Lower(Parse(op).name)
  {}

  lemma QuotedText(t: Table, c: Cmd, arg: Bytes)
    requires ValidTable(t) && c in t.commands && Lower(arg) == arg && !AllBare(arg) && 0 !in arg
    ensures var u := [PLUS] + (c.name + [PIPE] + arg); u == Text(Rule(true, FirstArg(c, arg))) && 0 !in u && !AllBare(u)
  {
    KnownWords(t, Whole(c));
    NotBare(c.name, arg);
    hide ValidTable, Lower;
  }

  /** None of the texts a rule string splits into is that of a rule whose first argument needs quotes. */
  lemma OtherText(t: Table, rs: seq<Rule>, c: Cmd, arg: Bytes, op: Bytes)
    requires ValidTable(t) && GoodRules(t, rs) && c in t.commands && Lower(arg) == arg && !AllBare(arg) && 0 !in arg
    requires var u := Text(Rule(true, FirstArg(c, arg))); SplitArgs(u).Some? && op in Texts(rs) + SplitArgs(u).value
    ensures Lower(op) != [PLUS] + (c.name + [PIPE] + arg)
  {
    hide *;
    var u := [PLUS] + (c.name + [PIPE] + arg);
    QuotedText(t, c, arg);
    LowerLower(op);
    TextsAreRules(t, rs);
    assert |Lower(op)| == |op|;
    if |op| >= |u| && op !in Texts(rs) { LongToken(u, op); }
  }

  /** The parts of a rule whose first argument needs quotes do not allow that first argument. */
  lemma NotGranted(t: Table, rs: seq<Rule>, c: Cmd, arg: Bytes, op: Bytes)
    requires ValidTable(t) && GoodRules(t, rs) && c in t.commands && Lower(arg) == arg && !AllBare(arg) && 0 !in arg
    requires var u := Text(Rule(true, FirstArg(c, arg))); SplitArgs(u).Some? && op in Texts(rs) + SplitArgs(u).value
    ensures !Grants(t, op, (c.id, arg))
  {
    hide *;
    OtherText(t, rs, c, arg, op);
    if Grants(t, op, (c.id, arg)) {
      GrantText(t, op, c, arg);
      assert false;
    }
  }

  lemma NotBare(name: Bytes, arg: Bytes)
    requires !AllBare(arg)
    ensures !AllBare([PLUS] + (name + [PIPE] + arg))
  {
    var i :| 0 <= i < |arg| && !Bare(arg[i]);
    var u := [PLUS] + (name + [PIPE] + arg);
    assert u[2 + |name| + i] == arg[i];
  }

  /**
   * After an accepted operation on a selector whose rules were in order, reading the rule string
   * again gives the selector's permissions if and only if no first argument needs quotes.
   */
  lemma RereadExact(t: Table, s: Ruled, op: Bytes)
    requires ValidTable(t) && GoodState(t, s) && !KeyOp(op) && Error(t, op) == None && 0 !in op
    ensures var s' := Next(t, s, op);
            Reread(t, s'.all, Join(Texts(s'.list))) == Some(Effect(t, Replay(t, Base(s.all), s.list), op))
            <==> !NeedsQuotes(t, op)
  {
    hide ValidTable, KeyOp, Error, Next, Effect, Replay, Join, Texts, SplitArgs, Redo, NeedsQuotes, GoodRule, Latest;
    if NeedsQuotes(t, op) {
      QuotedBreaks(t, s, op);
    } else {
      var s' := Next(t, s, op);
      NextGood(t, s, op);
      NextReplays(t, s, op);
      TextsSplit(t, s');
      RedoTexts(t, Base(s'.all), s'.list);
    }
  }

  lemma QuotedBreaks(t: Table, s: Ruled, op: Bytes)
    requires ValidTable(t) && GoodState(t, s) && NeedsQuotes(t, op) && 0 !in op
    ensures var s' := Next(t, s, op);
            Reread(t, s'.all, Join(Texts(s'.list))) != Some(Effect(t, Replay(t, Base(s.all), s.list), op))
  {
    var x := Resolve(t, Parse(op).allow, Parse(op).name).target;
    var arg := Lower(x.arg);
    QuotedRule(t, op);
    var s' := Next(t, s, op);
    var kept := Surviving(s.list, x);
    assert (x.c.id, arg) in Effect(t, Replay(t, Base(s.all), s.list), op).first;
    SurvivingSame(s.list, x);
    assert s'.list == kept + [Rule(true, FirstArg(x.c, arg))] && s'.all == s.all;
    hide ValidTable, Resolve, Next, Effect, Replay, Join, SplitArgs, NeedsQuotes, Redo, Parse, Lower, Text, GoodRule;
    var u := Text(Rule(true, FirstArg(x.c, arg)));
    SurvivingGood(t, s.list, x);
    TextsAreRules(t, kept);
    assert Texts(s'.list) == Texts(kept) + [u];
    SplitBeforeLast(Texts(kept), u);
    if Reread(t, s'.all, Join(Texts(s'.list))).Some? && (x.c.id, arg) in Reread(t, s'.all, Join(Texts(s'.list))).value.first {
      var ops := Texts(kept) + SplitArgs(u).value;
      RedoGrants(t, Base(s'.all), ops, (x.c.id, arg));
      var o :| o in ops && Grants(t, o, (x.c.id, arg));
      NotGranted(t, kept, x.c, arg, o);
    }
  }

  lemma QuotedRule(t: Table, op: Bytes)
    requires ValidTable(t) && NeedsQuotes(t, op) && 0 !in op
    ensures var x := Resolve(t, Parse(op).allow, Parse(op).name).target;
            && Parse(op).allow && x.c in t.commands && Lower(Lower(x.arg)) == Lower(x.arg)
            && !AllBare(Lower(x.arg)) && 0 !in Lower(x.arg)
  {
    var allow, name := Parse(op).allow, Parse(op).name;
    assert 0 !in name;
    hide Parse, ValidTable, Resolve, Lower;
    var x := Resolve(t, allow, name).target;
    ResolveKnown(t, allow, name);
    LowerLower(x.arg);
    FoundArg(t, allow, name);
    LowerNoZero(x.arg);
  }

  lemma FoundArg(t: Table, allow: bool, name: Bytes)
    requires Resolve(t, allow, name).Found? && Resolve(t, allow, name).target.FirstArg?
    ensures Resolve(t, allow, name).target.arg == name[LastPipe(name) + 1..]
  {
    hide Lower, LastPipe;
    LookupKnown(t, name);
  }

  lemma LowerNoZero(s: Bytes)
    requires 0 !in s
    ensures 0 !in Lower(s)
  {
    forall i | 0 <= i < |s| ensures Lower(s)[i] != 0 { assert s[i] in s; }
  }

  lemma {:induction false} SurvivingSame(rs: seq<Rule>, x: Target)
    requires x.FirstArg?
    ensures Surviving(rs, Canon(x)) == Surviving(rs, x)
  {
    CanonName(x);
    hide Name, Supersedes;
    if rs != [] { SurvivingSame(rs[1..], x); }
  }

  /** The first operation of a run that needs quotes, and no earlier one, makes the rule string wrong. */
  lemma EveryRunRereads(t: Table, s: Ruled, ops: seq<Bytes>, op: Bytes)
    requires ValidTable(t) && GoodState(t, s) && forall i :: 0 <= i < |ops| ==> !NeedsQuotes(t, ops[i])
    requires !KeyOp(op) && Error(t, op) == None && 0 !in op
    ensures var s' := Next(t, NextAll(t, s, ops), op);
            Reread(t, s'.all, Join(Texts(s'.list))) == Some(Effect(t, EffectAll(t, Replay(t, Base(s.all), s.list), ops), op))
            <==> !NeedsQuotes(t, op)
  {
    hide ValidTable, GoodState, Next, Effect, Replay, NeedsQuotes, Reread, KeyOp, Error;
    EveryRunReplays(t, s, ops);
    RereadExact(t, NextAll(t, s, ops), op);
  }

  /**
   * A first argument with a space is accepted, but its rule splits into two operations of which
   * the second is an error, so replaying the rule string fails.
   */
  lemma SpacedArgumentBreaks(t: Table, c: Cmd)
    requires ValidTable(t) && c in t.commands && c.subs == []
    ensures var op := Text(Rule(true, FirstArg(c, [97, SPACE, 98])));
            && Error(t, op) == None && NeedsQuotes(t, op)
            && SplitArgs(op) == Some([Text(Rule(true, FirstArg(c, [97]))), [98]]) && Error(t, [98]) == Some(EINVAL)
  {
    var x := FirstArg(c, [97, SPACE, 98]);
    assert Lower(x.arg) == x.arg && !Bare(x.arg[1]);
    assert Lower([98]) == [98];
    hide ValidTable, Known, Resolve, Lower, SplitArgs, Parse, KeyOp, Name;
    ParseText(t, Rule(true, x));
    ResolveName(t, Rule(true, x));
    SpacedSplits(t, c);
    assert Parse([98]) == Bad by { LetterIsBad(); }
  }

  /** A first argument that needs quotes, and the two rules its text splits into. */
  function Spaced(c: Cmd, d: Cmd): (r: (Bytes, Bytes, Bytes)) {
    (Text(Rule(true, FirstArg(c, [97, SPACE, PLUS] + d.name))), Text(Rule(true, FirstArg(c, [97]))), Text(Rule(true, Whole(d))))
  }

  /**
   * With the first argument `a +d`, both operations are accepted and the second allows command
   * `d`, which the selector does not: the bitmaps differ.
   */
  lemma SpacedArgumentDiffers(t: Table, c: Cmd, d: Cmd)
    requires ValidTable(t) && c in t.commands && c.subs == [] && d in t.commands
    ensures var (op, first, second) := Spaced(c, d);
            && Error(t, op) == None && NeedsQuotes(t, op) && SplitArgs(op) == Some([first, second])
            && Error(t, first) == None && Error(t, second) == None
            && d.id in EffectAll(t, Base(false), [first, second]).bits && d.id !in EffectAll(t, Base(false), [op]).bits
  {
    var arg := [97, SPACE, PLUS] + d.name;
    var x := FirstArg(c, arg);
    KnownWords(t, Whole(d));
    assert forall i :: 3 <= i < |arg| ==> arg[i] == d.name[i - 3] && Lower(arg)[i] == Lower(d.name)[i - 3];
    assert Lower(arg) == arg && !Bare(arg[1]) && Lower([97]) == [97];
    SpacedPipe(d.name);
    hide ValidTable, Resolve, Lower, SplitArgs, Parse, KeyOp, Name, Ids;
    ParseText(t, Rule(true, x));
    ResolveName(t, Rule(true, x));
    ParseText(t, Rule(true, FirstArg(c, [97])));
    ResolveName(t, Rule(true, FirstArg(c, [97])));
    ParseText(t, Rule(true, Whole(d)));
    ResolveName(t, Rule(true, Whole(d)));
    WholeIds(t, d);
    SpacedSplit(t, c, d);
    var (op, first, second) := Spaced(c, d);
    OneEffect(t, Base(false), op);
    TwoEffects(t, Base(false), first, second);
  }

  lemma SpacedPipe(name: Bytes)
    requires PIPE !in name
    ensures PIPE !in [97, SPACE, PLUS] + name
  {}

  lemma WholeIds(t: Table, d: Cmd)
    ensures d.id in Ids(t, Whole(d))
  {}

  lemma OneEffect(t: Table, p: Perms, op: Bytes)
    ensures EffectAll(t, p, [op]) == Effect(t, p, op)
  {
    assert [op][1..] == [];
  }

  lemma TwoEffects(t: Table, p: Perms, a: Bytes, b: Bytes)
    ensures EffectAll(t, p, [a, b]) == Effect(t, Effect(t, p, a), b)
  {
    hide Effect;
    assert [a, b][1..] == [b];
    OneEffect(t, Effect(t, p, a), b);
  }

  lemma SpacedSplit(t: Table, c: Cmd, d: Cmd)
    requires ValidTable(t) && c in t.commands && c.subs == [] && d in t.commands && Lower([97, SPACE, PLUS] + d.name) == [97, SPACE, PLUS] + d.name
    ensures var (op, first, second) := Spaced(c, d); SplitArgs(op) == Some([first, second])
  {
    assert Lower([97]) == [97];
    var (op, first, second) := Spaced(c, d);
    TextIsRule(t, Rule(true, FirstArg(c, [97])));
    TextIsRule(t, Rule(true, Whole(d)));
    hide ValidTable, Lower, SplitArgs, AllBare, Signed, Spaced;
    SpacedText(c, d);
    SplitSigned(first, second);
  }

  lemma SpacedText(c: Cmd, d: Cmd)
    requires Lower([97, SPACE, PLUS] + d.name) == [97, SPACE, PLUS] + d.name && Lower([97]) == [97]
    ensures var (op, first, second) := Spaced(c, d); op == first + [SPACE] + second
  {
    hide Lower;
    assert [PLUS] + (c.name + [PIPE] + ([97, SPACE, PLUS] + d.name)) == ([PLUS] + (c.name + [PIPE] + [97])) + [SPACE] + ([PLUS] + d.name);
  }

  lemma SplitSigned(a: Bytes, b: Bytes)
    requires Signed(a) && AllBare(a) && Signed(b) && AllBare(b)
    ensures SplitArgs(a + [SPACE] + b) == Some([a, b])
  {
    hide SplitArgs, AllBare, Signed;
    assert [a, b][1..] == [b];
    SplitJoined([a, b]);
  }

  lemma LetterIsBad()
    ensures Parse([98]) == Bad
  {
    assert |Lower([98])| == 1;
  }

  lemma SpacedSplits(t: Table, c: Cmd)
    requires ValidTable(t) && c in t.commands && c.subs == []
    ensures SplitArgs(Text(Rule(true, FirstArg(c, [97, SPACE, 98])))) == Some([Text(Rule(true, FirstArg(c, [97]))), [98]])
  {
    assert Lower([97, SPACE, 98]) == [97, SPACE, 98];
    assert Lower([97]) == [97];
    var op, tok := Text(Rule(true, FirstArg(c, [97, SPACE, 98]))), Text(Rule(true, FirstArg(c, [97])));
    TextIsRule(t, Rule(true, FirstArg(c, [97])));
    hide ValidTable, Lower, SplitArgs, AllBare;
    assert op == tok + [SPACE, 98];
    SplitTwo(tok);
  }

  lemma SplitTwo(tok: Bytes)
    requires tok != [] && AllBare(tok) && !IsSpace(tok[0])
    ensures SplitArgs(tok + [SPACE, 98]) == Some([tok, [98]])
  {
    hide SplitArgs, AllBare;
    var rest: Bytes := [SPACE, 98];
    OneBare();
    SplitEmpty();
    SplitBare([98], []);
    SplitSpace(rest);
    assert rest[1..] == [98] && [98] + [] == [98] && [[98]] + [] == [[98]];
    SplitBare(tok, rest);
    assert [tok] + [[98]] == [tok, [98]];
  }

  lemma OneBare()
    ensures AllBare([98])
  {}
}
