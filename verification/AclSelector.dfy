/** The ACL selector as a mutable object: bitmap, first arguments and rule string (acl.c). */
module AclSelector {
  import opened Wrappers
  import W = Words
  import opened Decimal
  import opened Sds
  import opened AclRules
  import opened Acl
  import opened AclOps

  function Pairs(m: map<nat, seq<Bytes>>): (s: set<(nat, Bytes)>) {
    set id, i | id in m && 0 <= i < |m[id]| :: (id, Lower(m[id][i]))
  }

  lemma PairsWithout(m: map<nat, seq<Bytes>>, ids: set<nat>)
    ensures Pairs(m - ids) == Without(Pairs(m), ids)
  {
    hide Lower;
    forall e | e in Pairs(m - ids) ensures e in Without(Pairs(m), ids) {
      var id, i :| id in m - ids && 0 <= i < |(m - ids)[id]| && e == (id, Lower((m - ids)[id][i]));
      assert m[id] == (m - ids)[id];
    }
    forall e | e in Without(Pairs(m), ids) ensures e in Pairs(m - ids) {
      var id, i :| id in m && 0 <= i < |m[id]| && e == (id, Lower(m[id][i]));
      assert m[id] == (m - ids)[id];
    }
  }

  lemma PairsAppend(m: map<nat, seq<Bytes>>, id: nat, arg: Bytes)
    ensures var items := if id in m then m[id] else [];
            Pairs(m[id := items + [arg]]) == Pairs(m) + {(id, Lower(arg))}
  {
    hide Lower;
    var items := if id in m then m[id] else [];
    var m' := m[id := items + [arg]];
    forall e | e in Pairs(m') ensures e in Pairs(m) + {(id, Lower(arg))} {
      var d, i :| d in m' && 0 <= i < |m'[d]| && e == (d, Lower(m'[d][i]));
      if d == id && i < |items| { assert m[id][i] == m'[d][i]; }
      if d != id { assert m[d] == m'[d]; }
    }
    forall e | e in Pairs(m) ensures e in Pairs(m') {
      var d, i :| d in m && 0 <= i < |m[d]| && e == (d, Lower(m[d][i]));
      assert d in m' && m'[d][i] == m[d][i];
    }
    assert (id, Lower(m'[id][|items|])) in Pairs(m');
  }

  /** The contribution of the first commands of the table to a category. */
  lemma CategoryStep(t: Table, i: nat, k: Bytes)
    requires i < |t.commands|
    ensures var c, before, after := t.commands[i], Table(t.commands[..i], t.categories), Table(t.commands[..i + 1], t.categories);
            && Members(after, k) == Members(before, k) + (if k in c.categories then {c.id} else {}) + SubMembers(c, |c.subs|, k)
            && Ids(after, Category(k)) == Ids(before, Category(k))
                 + (if k in c.categories then {c.id} + SubIds(c) else {}) + SubMembers(c, |c.subs|, k)
  {
    hide SubIds;
    var cs := t.commands;
    assert cs[..i + 1] == cs[..i] + [cs[i]];
    assert forall d :: d in cs[..i + 1] <==> d in cs[..i] || d == cs[i];
  }

  lemma CategoryNone(t: Table, k: Bytes)
    ensures Members(Table(t.commands[..0], t.categories), k) == {}
    ensures Ids(Table(t.commands[..0], t.categories), Category(k)) == {}
  {}

  lemma KnownIds(t: Table, x: Target)
    requires ValidTable(t) && Known(t, x)
    ensures !x.Category? ==> x.c.id < BITS_COUNT && forall i :: 0 <= i < |x.c.subs| ==> x.c.subs[i].id < BITS_COUNT
    ensures x.Part? ==> x.s.id < BITS_COUNT
  {
    if !x.Category? { assert ValidCmd(x.c); }
  }

  /** Editing the string as text is adding the rule to the list. */
  lemma AddedText(t: Table, rs: seq<Rule>, r: Rule)
    requires ValidTable(t) && GoodRules(t, rs)
    ensures var ts := Texts(rs);
            Holds(Join(ts), ts) && Join(Kept(ts, Name(r.x)) + [Text(r)]) == Join(Texts(Added(rs, r)))
  {
    hide ValidTable, GoodRule, Name, Text, Join;
    TextsAreRules(t, rs);
    KeptTexts(t, rs, r.x);
    assert Texts(Surviving(rs, r.x) + [r]) == Texts(Surviving(rs, r.x)) + [Text(r)];
  }

  function SubMembers(c: Cmd, n: nat, k: Bytes): (ids: set<nat>)
    requires n <= |c.subs|
  {
    set i | 0 <= i < n && k in c.subs[i].categories :: c.subs[i].id
  }

  /** A bitmap with some bits set or cleared. */
  function Marked(bits: set<nat>, ids: set<nat>, value: bool): (r: set<nat>) {
    if value then bits + ids else bits - ids
  }

  function Reach(id: nat, subs: seq<Sub>): (ids: set<nat>) { {id} + set i | 0 <= i < |subs| :: subs[i].id }

  lemma ReachAlone(id: nat)
    ensures Reach(id, []) == {id}
  {}

  lemma MarkedTwice(bits: set<nat>, a: set<nat>, b: set<nat>, value: bool)
    ensures Marked(Marked(bits, a, value), b, value) == Marked(bits, a + b, value)
    ensures Marked(bits, {}, value) == bits
  {}

  lemma SubMembersStep(c: Cmd, j: nat, k: Bytes)
    requires j < |c.subs|
    ensures SubMembers(c, j + 1, k)
            == if k in c.subs[j].categories then SubMembers(c, j, k) + {c.subs[j].id} else SubMembers(c, j, k)
  {}

  lemma NoSubMembers(c: Cmd, k: Bytes)
    ensures SubMembers(c, 0, k) == {}
  {}

  const WORDS: nat := 16  // USER_COMMAND_BITS_COUNT / 64

  class Selector {
    var allCommands: bool                  // SELECTOR_FLAG_ALLCOMMANDS
    const words: array<W.Word>             // allowed_commands
    var firstargs: map<nat, seq<Bytes>>    // allowed_firstargs
    var rules: Bytes                       // command_rules
    ghost var ruled: Ruled

    ghost function Bits(): (ids: set<nat>)
      requires words.Length == WORDS
      reads words
    {
      set i | 0 <= i < BITS_COUNT && words[i / 64][i % 64]
    }

    ghost function Permissions(): (p: Perms)
      requires words.Length == WORDS
      reads this, words
    {
      Perms(Bits(), Pairs(firstargs))
    }

    /** ALLCOMMANDS lets the server skip the bit test, so it implies that every bit is set. */
    ghost predicate Flagged()
      requires words.Length == WORDS
      reads this`allCommands, words
    {
      allCommands ==> Bits() == AllBits()
    }

    /** The rule string replays to the permissions, and the reserved bit tells from which base. */
    ghost predicate Valid(t: Table)
      reads this, words
    {
      && words.Length == WORDS && Flagged() && GoodState(t, ruled) && rules == Join(Texts(ruled.list))
      && Permissions() == Replay(t, Base(ruled.all), ruled.list)
    }

    /** ACLCreateSelector without flags. */
    constructor (t: Table)
      ensures Valid(t) && ruled == Ruled(false, []) && fresh(words)
    {
      allCommands, firstargs, rules, ruled := false, map[], [], Ruled(false, []);
      words := new W.Word[WORDS](_ => W.Zeros(64));
    }

    method SetCommandBit(id: nat, value: bool)
      requires words.Length == WORDS && Flagged()
      modifies this`allCommands, words
      ensures Flagged()
      ensures Bits() == if id >= BITS_COUNT then old(Bits()) else Marked(old(Bits()), {id}, value)
    {
      if id >= BITS_COUNT { return; }
      var word, bit := id / 64, id % 64;
      words[word] := words[word][bit := value];
      if !value { allCommands := false; }
      assert forall i: nat :: i / 64 == word && i % 64 == bit <==> i == id;
    }

    method ResetFirstArgsForCommand(id: nat)
      modifies this`firstargs
      ensures firstargs == old(firstargs) - {id}
    {
      firstargs := firstargs - {id};
    }

    /** ACLChangeSelectorPerm: a container passes its permission on to its subcommands. */
    method ChangePerm(id: nat, subs: seq<Sub>, allow: bool)
      requires words.Length == WORDS && Flagged() && id < BITS_COUNT && forall i :: 0 <= i < |subs| ==> subs[i].id < BITS_COUNT
      modifies this`allCommands, this`firstargs, words
      ensures Flagged() && firstargs == old(firstargs) - {id}
      ensures Bits() == Marked(old(Bits()), Reach(id, subs), allow)
    {
      hide Bits, Marked, Flagged;
      SetCommandBit(id, allow);
      ResetFirstArgsForCommand(id);
      ghost var ids := {id};
      for i := 0 to |subs|
        invariant Flagged() && firstargs == old(firstargs) - {id}
        invariant ids == {id} + set j | 0 <= j < i :: subs[j].id
        invariant Bits() == Marked(old(Bits()), ids, allow)
      {
        SetCommandBit(subs[i].id, allow);
        MarkedTwice(old(Bits()), ids, {subs[i].id}, allow);
        ids := ids + {subs[i].id};
      }
    }

    /** ACLSetSelectorCommandBitsForCategory, over commands and then their subcommands. */
    method SetBitsForCategory(t: Table, k: Bytes, allow: bool)
      requires words.Length == WORDS && ValidTable(t) && Flagged()
      modifies this`allCommands, this`firstargs, words
      ensures Flagged() && firstargs == old(firstargs) - Members(t, k)
      ensures var ids := Ids(t, Category(k)); Bits() == Marked(old(Bits()), ids, allow)
    {
      hide ValidTable, Bits, Members, Ids, SubIds, Marked, SubMembers;
      MarkedTwice(old(Bits()), {}, {}, allow);
      ghost var ids, gone := {}, {};
      CategoryNone(t, k);
      for i := 0 to |t.commands|
        invariant Flagged()
        invariant ids == Ids(Table(t.commands[..i], t.categories), Category(k))
        invariant gone == Members(Table(t.commands[..i], t.categories), k)
        invariant firstargs == old(firstargs) - gone
        invariant Bits() == Marked(old(Bits()), ids, allow)
      {
        SetBitsForCommand(t, t.commands[i], k, allow);
        CategoryStep(t, i, k);
        ghost var c := t.commands[i];
        ghost var more := (if k in c.categories then {c.id} + SubIds(c) else {}) + SubMembers(c, |c.subs|, k);
        MarkedTwice(old(Bits()), ids, more, allow);
        ids := ids + more;
        gone := gone + (if k in c.categories then {c.id} else {}) + SubMembers(c, |c.subs|, k);
      }
      assert t.commands[..|t.commands|] == t.commands;
    }

    method SetBitsForCommand(t: Table, c: Cmd, k: Bytes, allow: bool)
      requires words.Length == WORDS && ValidTable(t) && c in t.commands && Flagged()
      modifies this`allCommands, this`firstargs, words
      ensures Flagged()
      ensures firstargs == old(firstargs) - ((if k in c.categories then {c.id} else {}) + SubMembers(c, |c.subs|, k))
      ensures var ids := (if k in c.categories then {c.id} + SubIds(c) else {}) + SubMembers(c, |c.subs|, k);
              Bits() == Marked(old(Bits()), ids, allow)
    {
      assert ValidCmd(c);
      hide ValidTable, Bits, Word, Marked, SubMembers, Flagged;
      ghost var ids := if k in c.categories then {c.id} + SubIds(c) else {};
      ghost var subs := SubMembers(c, |c.subs|, k);
      MarkedTwice(old(Bits()), ids, subs, allow);
      assert k !in c.categories ==> ids + subs == subs;
      if k in c.categories { ChangePerm(c.id, c.subs, allow); }
      SetBitsForSubs(c, k, allow);
    }

    method SetBitsForSubs(c: Cmd, k: Bytes, allow: bool)
      requires words.Length == WORDS && Flagged() && forall i :: 0 <= i < |c.subs| ==> c.subs[i].id < BITS_COUNT
      modifies this`allCommands, this`firstargs, words
      ensures Flagged() && firstargs == old(firstargs) - SubMembers(c, |c.subs|, k)
      ensures Bits() == Marked(old(Bits()), SubMembers(c, |c.subs|, k), allow)
    {
      hide Bits, Marked, SubMembers, Flagged;
      MarkedTwice(old(Bits()), {}, {}, allow);
      NoSubMembers(c, k);
      for j := 0 to |c.subs|
        invariant Flagged() && firstargs == old(firstargs) - SubMembers(c, j, k)
        invariant Bits() == Marked(old(Bits()), SubMembers(c, j, k), allow)
      {
        SubMembersStep(c, j, k);
        if k in c.subs[j].categories {
          MarkedTwice(old(Bits()), SubMembers(c, j, k), {c.subs[j].id}, allow);
          ReachAlone(c.subs[j].id);
          ChangePerm(c.subs[j].id, [], allow);
        }
      }
    }

    /** ACLAddAllowedFirstArg: first arguments are compared without regard to case. */
    method AddAllowedFirstArg(id: nat, arg: Bytes)
      modifies this`firstargs
      ensures Pairs(firstargs) == old(Pairs(firstargs)) + {(id, Lower(arg))}
    {
      var items := if id in firstargs then firstargs[id] else [];
      for i := 0 to |items| {
        if Lower(items[i]) == Lower(arg) {
          assert (id, Lower(firstargs[id][i])) in Pairs(firstargs);
          return;
        }
      }
      PairsAppend(firstargs, id, arg);
      firstargs := firstargs[id := items + [arg]];
    }

    /** +@all, -@all and their aliases. */
    method SetAll(all: bool)
      requires words.Length == WORDS
      modifies this, words
      ensures Flagged() && Permissions() == Base(all)
      ensures rules == [] && ruled == Ruled(all, [])
    {
      hide Below, Lower;
      var word: W.Word := seq(64, _ => all);
      for i := 0 to WORDS
        invariant forall j :: 0 <= j < i ==> words[j] == word
      {
        words[i] := word;
      }
      allCommands, firstargs, rules := all, map[], [];
      ruled := Ruled(all, []);
      assert Pairs(map[]) == {};
      assert forall i :: 0 <= i < BITS_COUNT ==> words[i / 64][i % 64] == all;
    }

    /** Applies a resolved rule to the bitmap and the first arguments. */
    method Change(t: Table, allow: bool, x: Target)
      requires words.Length == WORDS && ValidTable(t) && KnownRule(t, Rule(allow, x)) && Flagged()
      modifies this`allCommands, this`firstargs, words
      ensures Flagged() && Permissions() == Apply(t, old(Permissions()), Rule(allow, x))
    {
      ghost var was := firstargs;
      KnownIds(t, x);
      hide ValidTable, Bits, Pairs, Lower, Flagged;
      match x {
        case Whole(c) => ChangePerm(c.id, c.subs, allow);
        case Part(c, s) => ChangePerm(s.id, [], allow);
        case Category(k) => SetBitsForCategory(t, k, allow);
        case FirstArg(c, arg) => AddAllowedFirstArg(c.id, arg);
      }
      PairsWithout(was, Resets(t, x));
    }

    /**
     * ACLSetSelector. `keyResult` is what the arms for key and channel patterns return; they
     * leave the command permissions alone.
     */
    method SetSelector(t: Table, op: Bytes, keyResult: Option<Errno>) returns (e: Option<Errno>)
      requires ValidTable(t) && words.Length == WORDS && Flagged()
      modifies this, words
      ensures e == if KeyOp(op) then keyResult else Error(t, op)
      ensures KeyOp(op) || e.Some? ==> unchanged(this) && unchanged(words)
      ensures Flagged() && (!KeyOp(op) ==> Permissions() == Effect(t, old(Permissions()), op))
      ensures !KeyOp(op) && e.None? ==> BitsAfter(t, op, old(Bits()), Bits()) && FirstsAfter(t, op, old(Pairs(firstargs)), Pairs(firstargs))
      ensures old(Valid(t)) && !KeyOp(op) ==> ruled == Next(t, old(ruled), op) && rules == Join(Texts(ruled.list))
      ensures old(Valid(t)) && !KeyOp(op) && !NeedsQuotes(t, op) ==> Valid(t)
      ensures old(Valid(t)) && !KeyOp(op) && e.None? && 0 !in op ==>
                (Reread(t, ruled.all, rules) == Some(Permissions()) <==> !NeedsQuotes(t, op))
    {
      if KeyOp(op) { return keyResult; }
      ghost var p, was, valid := Permissions(), ruled, Valid(t);
      ghost var ts := Texts(ruled.list);
      hide ValidTable, Resolve, Lower, Apply, Bits, Pairs, Replay, Join, Texts, Reread, Latest, BitsAfter, FirstsAfter;
      if Parse(op).Everything? {
        SetAll(Parse(op).all);
      } else if op != [] && (op[0] == PLUS || op[0] == MINUS) {
        var allow, name := op[0] == PLUS, op[1..];
        match Resolve(t, allow, name) {
          case Fails(errno) => return Some(errno);
          case Found(x) =>
            ResolveKnown(t, allow, name);
            Change(t, allow, x);
            rules := UpdateCommandRules(rules, Name(x), op[0], ts);
            ruled := Next(t, ruled, op);
            if valid {
              CanonName(x);
              AddedText(t, was.list, Rule(allow, Canon(x)));
            }
        }
      } else {
        return Some(EINVAL);
      }
      if valid {
        if !NeedsQuotes(t, op) {
          NextGood(t, was, op);
          NextReplays(t, was, op);
        }
        if 0 !in op { RereadExact(t, was, op); }
      }
      EffectBits(t, p, op);
      EffectFirsts(t, p, op);
      e := None;
    }

    /**
     * ACLDescribeSelectorCommandRules: replays the rule string on a fresh selector and panics
     * unless the bitmaps agree. It never does.
     */
    method Describe(t: Table) returns (panics: bool, text: Bytes)
      requires ValidTable(t) && Valid(t)
      ensures !panics
      ensures text == [if ruled.all then PLUS else MINUS, AT_SIGN] + ALL + (if rules == [] then [] else [SPACE] + rules)
    {
      hide ValidTable, GoodState, Replay, Join, Texts, Lower, Next, SplitArgs, KeyOp, NeedsQuotes, Error, Effect, Pairs, Reread, BitsAfter, FirstsAfter;
      FutureBit(t);
      var future := words[(BITS_COUNT - 1) / 64][(BITS_COUNT - 1) % 64];
      var op: Bytes := [if future then PLUS else MINUS, AT_SIGN] + ALL;
      var fake := new Selector(t);
      BaseOp(t, future, fake.ruled);
      var e := fake.SetSelector(t, op, None);
      TextsSplit(t, ruled);
      var argv := SplitArgs(rules).value;
      panics := e.Some?;
      for i := 0 to |argv|
        invariant !panics && fresh(fake) && fresh(fake.words)
        invariant fake.Valid(t) && fake.ruled == Ruled(ruled.all, ruled.list[..i])
      {
        TextReadded(t, ruled, i);
        e := fake.SetSelector(t, argv[i], None);
        if e.Some? { panics := true; }
      }
      assert ruled.list[..|argv|] == ruled.list;
      SameWords(fake);
      if fake.words[..] != words[..] { panics := true; }
      text := op + [SPACE];
      if rules != [] { text := text + rules + [SPACE]; }
      text := text[..|text| - 1];
    }

    /** One selector's turn in ACLRecomputeCommandBitsFromCommandRulesAllUsers. */
    method Recompute(t: Table) returns (fails: bool)
      requires ValidTable(t) && Valid(t)
      modifies this, words
      ensures Valid(t) && !fails && ruled == old(ruled) && rules == old(rules) && Permissions() == old(Permissions())
    {
      hide ValidTable, GoodState, Replay, Join, Texts, Lower, Next, SplitArgs, KeyOp, NeedsQuotes, Error, Effect, Pairs, Reread, BitsAfter, FirstsAfter;
      ghost var was := ruled;
      FutureBit(t);
      TextsSplit(t, ruled);
      var argv := SplitArgs(rules).value;
      var future := words[(BITS_COUNT - 1) / 64][(BITS_COUNT - 1) % 64];
      BaseOp(t, future, ruled);
      var e := SetSelector(t, [if future then PLUS else MINUS, AT_SIGN] + ALL, None);
      fails := e.Some?;
      for i := 0 to |argv|
        invariant !fails && Valid(t) && ruled == Ruled(was.all, was.list[..i])
      {
        TextReadded(t, was, i);
        e := SetSelector(t, argv[i], None);
        if e.Some? { fails := true; }
      }
      assert was.list[..|argv|] == was.list;
    }

    lemma FutureBit(t: Table)
      requires ValidTable(t) && Valid(t)
      ensures words[(BITS_COUNT - 1) / 64][(BITS_COUNT - 1) % 64] == ruled.all
    {
      hide ValidTable, Replay, Join, Texts;
      Reserved(t, Base(ruled.all), ruled.list);
      assert BITS_COUNT - 1 in Bits() <==> words[(BITS_COUNT - 1) / 64][(BITS_COUNT - 1) % 64];
    }

    lemma SameWords(that: Selector)
      requires words.Length == WORDS && that.words.Length == WORDS && Bits() == that.Bits()
      ensures words[..] == that.words[..]
    {
      forall w, b | 0 <= w < WORDS && 0 <= b < 64 ensures words[w][b] == that.words[w][b] {
        var i := 64 * w + b;
        assert i / 64 == w && i % 64 == b;
        assert i in Bits() <==> words[i / 64][i % 64];
        assert i in that.Bits() <==> that.words[i / 64][i % 64];
      }
      forall w | 0 <= w < WORDS ensures words[w] == that.words[w] {}
    }
  }
}
