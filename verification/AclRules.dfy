/**
 * The command_rules string of an ACL selector (acl.c): a list of rules separated by single
 * spaces, edited in place when a newer rule supersedes older ones.
 */
module AclRules {
  import opened Wrappers
  import opened Words
  import opened Decimal
  import opened Sds

  const PIPE: Byte := 124

  /** A rule as text: a sign and a name, with no space in it. */
  predicate IsRule(t: Bytes) { t != [] && SPACE !in t }

  predicate AreRules(ts: seq<Bytes>) { forall i :: 0 <= i < |ts| ==> IsRule(ts[i]) }

  function Join(ts: seq<Bytes>): (s: Bytes) {
    if ts == [] then [] else if |ts| == 1 then ts[0] else ts[0] + [SPACE] + Join(ts[1..])
  }

  /** The rules with a space after each. */
  function Trail(ts: seq<Bytes>): (s: Bytes) {
    if ts == [] then [] else Trail(ts[..|ts| - 1]) + ts[|ts| - 1] + [SPACE]
  }

  /** Whether `newer` supersedes the rule named `name`: the same name, or a subcommand of it. */
  predicate Supersedes(newer: Bytes, name: Bytes) {
    newer <= name && (|name| == |newer| || name[|newer|] == PIPE)
  }

  function Kept(ts: seq<Bytes>, newer: Bytes): (r: seq<Bytes>)
    requires AreRules(ts)
    ensures AreRules(r)
  {
    if ts == [] then []
    else (if Supersedes(newer, ts[0][1..]) then [] else [ts[0]]) + Kept(ts[1..], newer)
  }

  lemma JoinSplit(ts: seq<Bytes>, k: nat)
    requires k < |ts|
    ensures Join(ts) == Trail(ts[..k]) + Join(ts[k..])
    decreases k
  {
    if k == 0 {
      assert ts[..0] == [] && ts[0..] == ts;
    } else {
      JoinSplit(ts, k - 1);
      assert ts[..k][..k - 1] == ts[..k - 1];
      assert ts[k - 1..][1..] == ts[k..];
    }
  }

  lemma JoinLast(ts: seq<Bytes>, t: Bytes)
    ensures Join(ts + [t]) == Trail(ts) + t
  {
    JoinSplit(ts + [t], |ts|);
    assert (ts + [t])[..|ts|] == ts && (ts + [t])[|ts|..] == [t];
  }

  lemma TrailSnoc(ts: seq<Bytes>, t: Bytes)
    ensures Trail(ts + [t]) == Trail(ts) + t + [SPACE]
  {
    assert (ts + [t])[..|ts|] == ts;
  }

  lemma {:induction false} KeptSnoc(ts: seq<Bytes>, newer: Bytes, t: Bytes)
    requires AreRules(ts) && IsRule(t)
    ensures AreRules(ts + [t])
    ensures Kept(ts + [t], newer) == Kept(ts, newer) + (if Supersedes(newer, t[1..]) then [] else [t])
  {
    hide Supersedes;
    if ts == [] {
      assert ts + [t] == [t] && [t][1..] == [];
    } else {
      assert (ts + [t])[1..] == ts[1..] + [t] && (ts + [t])[0] == ts[0];
      KeptSnoc(ts[1..], newer, t);
      var head := if Supersedes(newer, ts[0][1..]) then [] else [ts[0]];
      var last := if Supersedes(newer, t[1..]) then [] else [t];
      assert head + (Kept(ts[1..], newer) + last) == (head + Kept(ts[1..], newer)) + last;
    }
  }

  /** The position of the first space at or after `i`, or the length of the string. */
  method FindSpace(s: Bytes, i: nat) returns (e: nat)
    requires i <= |s|
    ensures i <= e <= |s| && SPACE !in s[i..e] && (e < |s| ==> s[e] == SPACE)
  {
    e := i;
    while e < |s| && s[e] != SPACE
      invariant i <= e <= |s| && SPACE !in s[i..e]
    {
      e := e + 1;
    }
  }

  /** Whether the string is the rules `ts`, none of them with a space in it. */
  ghost predicate Holds(rules: Bytes, ts: seq<Bytes>) { AreRules(ts) && rules == Join(ts) }

  /** ACLSelectorRemoveCommandRule: on a well-formed string, drops exactly the superseded rules. */
  method RemoveCommandRule(rules: Bytes, newer: Bytes, ghost ts: seq<Bytes>) returns (s: Bytes)
    ensures Holds(rules, ts) ==> s == Join(Kept(ts, newer))
  {
    hide Join, Trail;
    s := rules;
    var p := 0;
    ghost var ok := Holds(rules, ts);
    ghost var k := 0;
    ghost var kept: seq<Bytes> := [];
    Edges();
    assert ts[..0] == [] && ts[0..] == ts;
    while p < |s|
      invariant 0 <= p <= |s|
      invariant ok ==> 0 <= k <= |ts| && AreRules(kept) && AreRules(ts[..k]) && kept == Kept(ts[..k], newer)
      invariant ok ==> if k < |ts| then p == |Trail(kept)| && s == Trail(kept) + Join(ts[k..])
                       else p == |s| && s == Join(kept)
      decreases |s| - p
    {
      var copy, existing := p, p + 1;
      var end := FindSpace(s, existing);
      if ok { StepRule(ts, k, s, kept, newer, end); }
      if end == |s| && copy != 0 { copy := copy - 1; }
      var copyEnd := if end < |s| then end + 1 else end;
      var name := s[existing..end];
      if Supersedes(newer, name) {
        s := s[..copy] + s[copyEnd..];
        p := copy;
      } else {
        p := copyEnd;
        if ok { kept := kept + [ts[k]]; }
      }
      k := k + 1;
    }
    if ok { AllRead(ts, k); }
  }

  /** One turn of the loop: the rule found, and the string with that rule kept or cut out. */
  lemma StepRule(ts: seq<Bytes>, k: nat, s: Bytes, kept: seq<Bytes>, newer: Bytes, end: nat)
    requires AreRules(ts) && k < |ts| && AreRules(kept) && kept == Kept(ts[..k], newer)
    requires s == Trail(kept) + Join(ts[k..])
    requires var p := |Trail(kept)|;
             p + 1 <= end <= |s| && SPACE !in s[p + 1..end] && (end < |s| ==> s[end] == SPACE)
    ensures var p := |Trail(kept)|;
            && s[p + 1..end] == ts[k][1..] && (end == |s| <==> k + 1 == |ts|)
            && AreRules(ts[..k + 1])
            && Kept(ts[..k + 1], newer) == kept + (if Supersedes(newer, ts[k][1..]) then [] else [ts[k]])
            && (k + 1 < |ts| ==> s[..p] + s[end + 1..] == Trail(kept) + Join(ts[k + 1..]))
            && (k + 1 < |ts| ==> end + 1 == |Trail(kept + [ts[k]])| && s == Trail(kept + [ts[k]]) + Join(ts[k + 1..]))
            && (k + 1 == |ts| ==> s == Join(kept + [ts[k]]))
            && (k + 1 == |ts| ==> s[..if p == 0 then 0 else p - 1] + s[end..] == Join(kept))
            && (p == 0 <==> kept == [])
  {
    hide Join, Trail, Supersedes;
    var t := ts[k];
    var rest: Bytes := if k + 1 < |ts| then [SPACE] + Join(ts[k + 1..]) else [];
    NextRule(ts, k);
    RuleEnd(s, Trail(kept), t, rest, end);
    assert ts[..k + 1] == ts[..k] + [t];
    KeptSnoc(ts[..k], newer, t);
    TrailSnoc(kept, t);
    JoinLast(kept, t);
    DropLast(kept);
    Edges();
  }

  lemma AllRead(ts: seq<Bytes>, k: nat)
    requires AreRules(ts) && k <= |ts|
    ensures k < |ts| ==> Join(ts[k..]) != []
    ensures k == |ts| ==> ts[..k] == ts
  {
    hide Join;
    if k < |ts| { NextRule(ts, k); }
  }

  lemma Edges()
    ensures Join([]) == [] && Trail([]) == []
  {}

  lemma NextRule(ts: seq<Bytes>, k: nat)
    requires k < |ts| && AreRules(ts)
    ensures Join(ts[k..]) == ts[k] + (if k + 1 < |ts| then [SPACE] + Join(ts[k + 1..]) else [])
    ensures |Join(ts[k..])| > 0
  {
    assert ts[k..][1..] == ts[k + 1..];
  }

  /** Searching from the second byte of a rule finds the end of that rule. */
  lemma RuleEnd(s: Bytes, pre: Bytes, t: Bytes, rest: Bytes, end: nat)
    requires s == pre + (t + rest) && IsRule(t) && (rest != [] ==> rest[0] == SPACE)
    requires |pre| + 1 <= end <= |s| && SPACE !in s[|pre| + 1..end] && (end < |s| ==> s[end] == SPACE)
    ensures end == |pre| + |t| && s[|pre| + 1..end] == t[1..]
    ensures s[..|pre|] == pre && s[end..] == rest
  {
    var e := |pre| + |t|;
    assert forall i :: |pre| <= i < e ==> s[i] == t[i - |pre|] && s[i] in t;
    assert e < |s| ==> s[e] == rest[0];
    var scanned := s[|pre| + 1..end];
    assert forall i :: |pre| + 1 <= i < end ==> s[i] == scanned[i - |pre| - 1] && s[i] in scanned;
  }

  /** Without its last space the trail is the joined rules. */
  lemma DropLast(ts: seq<Bytes>)
    ensures if ts == [] then Trail(ts) == [] else Trail(ts) != [] && Trail(ts)[..|Trail(ts)| - 1] == Join(ts)
  {
    if ts != [] {
      var n := |ts| - 1;
      assert ts[..n] + [ts[n]] == ts;
      JoinLast(ts[..n], ts[n]);
    }
  }

  /** ACLUpdateCommandRules; `name` is already lower case. */
  method UpdateCommandRules(rules: Bytes, name: Bytes, sign: Byte, ghost ts: seq<Bytes>) returns (s: Bytes)
    ensures Holds(rules, ts) ==> s == Join(Kept(ts, name) + [[sign] + name])
  {
    hide Trail, Kept, Join;
    s := RemoveCommandRule(rules, name, ts);
    if Holds(rules, ts) {
      ghost var kept := Kept(ts, name);
      JoinLast(kept, [sign] + name);
      JoinEmpty(kept);
    }
    if |s| > 0 { s := s + [SPACE]; }
    s := s + ([sign] + name);
  }

  lemma JoinEmpty(ts: seq<Bytes>)
    requires AreRules(ts)
    ensures Join(ts) == [] <==> ts == []
    ensures Trail(ts) == Join(ts) + (if ts == [] then [] else [SPACE])
  {
    if ts != [] {
      NextRule(ts, 0);
      assert ts[0..] == ts;
      DropLast(ts);
    }
  }

  // ----- Reading the string back -----

  /** The length of the rules with one separator each. */
  function Weight(ts: seq<Bytes>): (w: nat) {
    if ts == [] then 0 else |ts[0]| + 1 + Weight(ts[1..])
  }

  lemma {:induction false} JoinWeight(ts: seq<Bytes>)
    requires ts != []
    ensures Weight(ts) == |Join(ts)| + 1
  {
    if |ts| > 1 { JoinWeight(ts[1..]); }
  }

  lemma {:induction false} QuotedToken(s: Bytes, mode: Mode, acc: Bytes)
    requires mode != Plain && 0 !in s && Token(s, mode, acc).Some?
    ensures var (tok, rest) := Token(s, mode, acc).value;
            |tok| + |rest| + 1 <= |acc| + |s| && 0 !in rest
    decreases |s|
  {
    if s != [] {
      var c := s[0];
      match mode
      case Double =>
        if c == BACKSLASH && At(s, 1) == 120 && IsHex(At(s, 2)) && IsHex(At(s, 3)) {
          QuotedToken(s[4..], Double, acc + [16 * HexValue(s[2]) + HexValue(s[3])]);
        } else if c == BACKSLASH && At(s, 1) != 0 {
          QuotedToken(s[2..], Double, acc + [Unescape(s[1])]);
        } else if c != DQUOTE {
          assert c in s;
          QuotedToken(s[1..], Double, acc + [c]);
        }
      case Single =>
        if c == BACKSLASH && At(s, 1) == SQUOTE {
          QuotedToken(s[2..], Single, acc + [SQUOTE]);
        } else if c != SQUOTE {
          assert c in s;
          QuotedToken(s[1..], Single, acc + [c]);
        }
    }
  }

  /** An argument that used quotes is shorter than its text. */
  lemma {:induction false} PlainToken(s: Bytes, acc: Bytes)
    requires 0 !in s && AllBare(acc) && Token(s, Plain, acc).Some?
    ensures var (tok, rest) := Token(s, Plain, acc).value;
            var room := |acc| + |s| - (if rest == [] then 0 else |rest| + 1);
            |tok| <= room && 0 !in rest && (|tok| == room ==> AllBare(tok))
    decreases |s|
  {
    if s != [] {
      var c := s[0];
      assert c in s;
      if c == DQUOTE {
        QuotedToken(s[1..], Double, acc);
      } else if c == SQUOTE {
        QuotedToken(s[1..], Single, acc);
      } else if Bare(c) {
        PlainToken(s[1..], acc + [c]);
      }
    }
  }

  lemma {:induction false} SplitWeight(s: Bytes)
    requires 0 !in s && SplitArgs(s).Some?
    ensures var ts := SplitArgs(s).value;
            Weight(ts) <= |s| + 1 && (Weight(ts) == |s| + 1 ==> forall i :: 0 <= i < |ts| ==> AllBare(ts[i]))
    decreases |s|
  {
    SkipSpacesShrinks(s);
    NoZeroAfterSpaces(s);
    var t := SkipSpaces(s);
    if t != [] && t[0] != 0 {
      var (tok, rest) := Token(t, Plain, []).value;
      PlainToken(t, []);
      SplitWeight(rest);
      var more := SplitArgs(rest).value;
      assert ([tok] + more)[1..] == more;
      if rest == [] { SplitEmpty(); }
      hide Token, SkipSpaces;
    }
  }

  lemma {:induction false} NoZeroAfterSpaces(s: Bytes)
    requires 0 !in s
    ensures 0 !in SkipSpaces(s)
  {
    if s != [] && IsSpace(s[0]) { NoZeroAfterSpaces(s[1..]); }
  }

  predicate Signed(t: Bytes) { t != [] && (t[0] == 43 || t[0] == 45) }

  lemma {:induction false} SplitJoined(ts: seq<Bytes>)
    requires forall i :: 0 <= i < |ts| ==> Signed(ts[i]) && AllBare(ts[i])
    ensures SplitArgs(Join(ts)) == Some(ts)
  {
    hide SplitArgs;
    if ts == [] {
      SplitEmpty();
    } else if |ts| == 1 {
      SplitEmpty();
      SplitBare(ts[0], []);
      assert ts[0] + [] == ts[0] && [ts[0]] + [] == ts;
    } else {
      var rest: Bytes := [SPACE] + Join(ts[1..]);
      SplitJoined(ts[1..]);
      SplitSpace(rest);
      assert rest[1..] == Join(ts[1..]);
      SplitBare(ts[0], rest);
      assert ts[0] + [SPACE] + Join(ts[1..]) == ts[0] + rest && [ts[0]] + ts[1..] == ts;
    }
  }

  /** Rules that stand for themselves are split off, whatever the last rule splits into. */
  lemma {:induction false} SplitBeforeLast(ts: seq<Bytes>, last: Bytes)
    requires forall i :: 0 <= i < |ts| ==> Signed(ts[i]) && AllBare(ts[i])
    ensures SplitArgs(Join(ts + [last])) == match SplitArgs(last) case None => None case Some(more) => Some(ts + more)
  {
    hide SplitArgs;
    var all := ts + [last];
    if ts == [] {
      assert all == [last];
      if SplitArgs(last).Some? { assert ts + SplitArgs(last).value == SplitArgs(last).value; }
    } else {
      assert all[1..] == ts[1..] + [last];
      var rest: Bytes := [SPACE] + Join(all[1..]);
      SplitBeforeLast(ts[1..], last);
      SplitSpace(rest);
      assert rest[1..] == Join(all[1..]);
      SplitBare(ts[0], rest);
      assert ts[0] + [SPACE] + Join(all[1..]) == ts[0] + rest;
      if SplitArgs(last).Some? { assert [ts[0]] + (ts[1..] + SplitArgs(last).value) == ts + SplitArgs(last).value; }
    }
  }

  lemma {:induction false} WeightHas(ts: seq<Bytes>, tok: Bytes)
    requires tok in ts
    ensures |tok| + 1 <= Weight(ts)
  {
    if ts[0] != tok { WeightHas(ts[1..], tok); }
  }

  /** An argument as long as the whole text stands for itself. */
  lemma LongToken(s: Bytes, tok: Bytes)
    requires 0 !in s && SplitArgs(s).Some? && tok in SplitArgs(s).value && |tok| >= |s|
    ensures AllBare(tok)
  {
    hide SplitArgs, AllBare;
    SplitWeight(s);
    WeightHas(SplitArgs(s).value, tok);
  }

  lemma {:induction false} JoinNoZero(ts: seq<Bytes>)
    requires forall i :: 0 <= i < |ts| ==> 0 !in ts[i]
    ensures 0 !in Join(ts)
  {
    if |ts| > 1 { JoinNoZero(ts[1..]); }
  }

  /** The string splits back into its rules if and only if every rule stands for itself unquoted. */
  lemma RulesReadBack(ts: seq<Bytes>)
    requires forall i :: 0 <= i < |ts| ==> Signed(ts[i]) && 0 !in ts[i]
    ensures SplitArgs(Join(ts)) == Some(ts) <==> forall i :: 0 <= i < |ts| ==> AllBare(ts[i])
  {
    hide SplitArgs, AllBare, Join;
    if forall i :: 0 <= i < |ts| ==> AllBare(ts[i]) {
      SplitJoined(ts);
    } else if SplitArgs(Join(ts)) == Some(ts) {
      JoinNoZero(ts);
      SplitWeight(Join(ts));
      JoinWeight(ts);
    }
  }
}
