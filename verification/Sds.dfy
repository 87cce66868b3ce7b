/** Splitting and quoting of argument lines (sds.c: sdssplitargs, sdsneedsrepr, sdscatrepr). */
module Sds {
  import opened Wrappers
  import opened Words
  import opened Decimal

  const SPACE: Byte := 32
  const DQUOTE: Byte := 34
  const SQUOTE: Byte := 39
  const BACKSLASH: Byte := 92

  /** Reading a C string: the byte at `i`, or its terminator. */
  function At(s: Bytes, i: nat): (b: Byte) { if i < |s| then s[i] else 0 }

  datatype Mode = Plain | Double | Single

  predicate IsHex(b: Byte) { 48 <= b <= 57 || 97 <= b <= 102 || 65 <= b <= 70 }

  function HexValue(b: Byte): (v: nat)
    requires IsHex(b)
    ensures v < 16
  {
    if b <= 57 then b - 48 else if b >= 97 then b - 87 else b - 55
  }

  function HexDigit(v: nat): (b: Byte)
    requires v < 16
    ensures IsHex(b) && HexValue(b) == v
  {
    if v < 10 then 48 + v else 87 + v
  }

  function Unescape(b: Byte): (c: Byte) {
    if b == 110 then LF else if b == 114 then CR else if b == 116 then 9
    else if b == 98 then 8 else if b == 97 then 7 else b
  }

  /** One argument of sdssplitargs and what follows it; None for unbalanced quotes. */
  function Token(s: Bytes, mode: Mode, acc: Bytes): (r: Option<(Bytes, Bytes)>)
    ensures r.Some? && mode == Plain && s != [] && s[0] != 0 ==> |r.value.1| < |s|
    ensures r.Some? ==> |r.value.1| <= |s|
    decreases s
  {
    var c := At(s, 0);
    match mode
    case Plain =>
      if c == 0 then Some((acc, s))
      else if c == SPACE || c == LF || c == CR || c == 9 then Some((acc, s[1..]))
      else if c == DQUOTE then Token(s[1..], Double, acc)
      else if c == SQUOTE then Token(s[1..], Single, acc)
      else Token(s[1..], Plain, acc + [c])
    case Double =>
      if c == BACKSLASH && At(s, 1) == 120 && IsHex(At(s, 2)) && IsHex(At(s, 3)) then
        Token(s[4..], Double, acc + [16 * HexValue(s[2]) + HexValue(s[3])])
      else if c == BACKSLASH && At(s, 1) != 0 then Token(s[2..], Double, acc + [Unescape(s[1])])
      else if c == DQUOTE then
        if At(s, 1) != 0 && !IsSpace(At(s, 1)) then None else Some((acc, s[1..]))
      else if c == 0 then None
      else Token(s[1..], Double, acc + [c])
    case Single =>
      if c == BACKSLASH && At(s, 1) == SQUOTE then Token(s[2..], Single, acc + [SQUOTE])
      else if c == SQUOTE then
        if At(s, 1) != 0 && !IsSpace(At(s, 1)) then None else Some((acc, s[1..]))
      else if c == 0 then None
      else Token(s[1..], Single, acc + [c])
  }

  lemma {:induction false} SkipSpacesShrinks(s: Bytes)
    ensures |SkipSpaces(s)| <= |s|
  {
    if s != [] && IsSpace(s[0]) { SkipSpacesShrinks(s[1..]); }
  }

  function SplitArgs(s: Bytes): (r: Option<seq<Bytes>>)
    decreases |s|
  {
    SkipSpacesShrinks(s);
    var t := SkipSpaces(s);
    if t == [] || t[0] == 0 then Some([])
    else match Token(t, Plain, [])
      case None => None
      case Some((tok, rest)) =>
        match SplitArgs(rest)
        case None => None
        case Some(more) => Some([tok] + more)
  }

  predicate IsPrint(b: Byte) { 32 <= b <= 126 }

  predicate Special(b: Byte) {
    b == BACKSLASH || b == DQUOTE || b == LF || b == CR || b == 9 || b == 7 || b == 8
    || !IsPrint(b) || IsSpace(b)
  }

  /** Everything but the visible ASCII characters other than quote and backslash. */
  lemma SpecialExactly(b: Byte)
    ensures Special(b) <==> b <= 32 || b >= 127 || b == 34 || b == 92
  {}

  predicate NeedsRepr(s: Bytes) { exists i :: 0 <= i < |s| && Special(s[i]) }

  function ReprByte(b: Byte): (s: Bytes) {
    if b == BACKSLASH || b == DQUOTE then [BACKSLASH, b]
    else if b == LF then [BACKSLASH, 110]
    else if b == CR then [BACKSLASH, 114]
    else if b == 9 then [BACKSLASH, 116]
    else if b == 7 then [BACKSLASH, 97]
    else if b == 8 then [BACKSLASH, 98]
    else if IsPrint(b) then [b]
    else [BACKSLASH, 120, HexDigit(b / 16), HexDigit(b % 16)]
  }

  function ReprBody(s: Bytes): (t: Bytes) {
    if s == [] then [] else ReprByte(s[0]) + ReprBody(s[1..])
  }

  /** sdscatrepr on an empty destination. */
  function Repr(s: Bytes): (t: Bytes) { [DQUOTE] + ReprBody(s) + [DQUOTE] }

  lemma ReadReprByte(b: Byte, t: Bytes, acc: Bytes)
    requires b != 0
    ensures Token(ReprByte(b) + t, Double, acc) == Token(t, Double, acc + [b])
  {
    var s := ReprByte(b) + t;
    if |ReprByte(b)| == 1 {
      assert s[1..] == t;
    } else if |ReprByte(b)| == 2 {
      assert s[2..] == t;
    } else {
      assert s[4..] == t;
      assert 16 * HexValue(s[2]) + HexValue(s[3]) == b;
    }
  }

  lemma CloseQuote(t: Bytes, acc: Bytes)
    requires t == [] || IsSpace(t[0])
    ensures Token([DQUOTE] + t, Double, acc) == Some((acc, t))
  {
    var u: Bytes := [DQUOTE] + t;
    assert u[1..] == t;
  }

  /** A quoted string is read back whole. */
  lemma {:induction false} ReadRepr(s: Bytes, t: Bytes, acc: Bytes)
    requires t == [] || IsSpace(t[0])
    requires forall i :: 0 <= i < |s| ==> s[i] != 0
    ensures Token(ReprBody(s) + ([DQUOTE] + t), Double, acc) == Some((acc + s, t))
  {
    hide Token, ReprByte;
    var u: Bytes := [DQUOTE] + t;
    if s == [] {
      assert ReprBody(s) + u == u && acc + s == acc;
      CloseQuote(t, acc);
    } else {
      assert ReprBody(s) + u == ReprByte(s[0]) + (ReprBody(s[1..]) + u);
      ReadReprByte(s[0], ReprBody(s[1..]) + u, acc);
      ReadRepr(s[1..], t, acc + [s[0]]);
      assert acc + [s[0]] + s[1..] == acc + s;
    }
  }

  /** Bytes that stand for themselves outside quotes. */
  predicate Bare(b: Byte) { b != 0 && b != SPACE && b != LF && b != CR && b != 9 && b != DQUOTE && b != SQUOTE }

  predicate AllBare(s: Bytes) { forall i :: 0 <= i < |s| ==> Bare(s[i]) }

  lemma SplitEmpty()
    ensures SplitArgs([]) == Some([])
  {}

  lemma {:induction false} ReadBare(s: Bytes, t: Bytes, acc: Bytes)
    requires AllBare(s)
    ensures Token(s + t, Plain, acc) == Token(t, Plain, acc + s)
  {
    if s == [] {
      assert s + t == t && acc + s == acc;
    } else {
      assert (s + t)[1..] == s[1..] + t;
      ReadBare(s[1..], t, acc + [s[0]]);
      assert acc + [s[0]] + s[1..] == acc + s;
    }
  }

  // ----- Whole arguments -----

  lemma SplitBare(tok: Bytes, rest: Bytes)
    requires tok != [] && AllBare(tok) && !IsSpace(tok[0])
    requires rest == [] || rest[0] == SPACE
    ensures SplitArgs(tok + rest) ==
            match SplitArgs(rest) case None => None case Some(more) => Some([tok] + more)
  {
    var s := tok + rest;
    assert s[0] == tok[0] && SkipSpaces(s) == s;
    ReadBare(tok, rest, []);
    assert [] + tok == tok;
    if rest != [] { SplitSpace(rest); }
  }

  lemma SplitSpace(rest: Bytes)
    requires rest != [] && IsSpace(rest[0])
    ensures SplitArgs(rest) == SplitArgs(rest[1..])
  {
    assert SkipSpaces(rest) == SkipSpaces(rest[1..]);
  }

  lemma SplitRepr(name: Bytes, rest: Bytes)
    requires forall i :: 0 <= i < |name| ==> name[i] != 0
    requires rest == [] || rest[0] == SPACE
    ensures SplitArgs(Repr(name) + rest) ==
            match SplitArgs(rest) case None => None case Some(more) => Some([name] + more)
  {
    hide ReprBody;
    var s := Repr(name) + rest;
    assert s[1..] == ReprBody(name) + ([DQUOTE] + rest);
    assert SkipSpaces(s) == s;
    ReadRepr(name, rest, []);
    assert [] + name == name;
    assert Token(s, Plain, []) == Token(s[1..], Double, []);
  }

  /** How a name is written: quoted only if some byte needs it. */
  function Shown(name: Bytes): (s: Bytes) { if NeedsRepr(name) then Repr(name) else name }

  /** sdsneedsrepr does not ask for quotes around a single quote. */
  predicate QuoteSafe(name: Bytes) { NeedsRepr(name) || SQUOTE !in name }

  predicate CString(s: Bytes) { s != [] && forall i :: 0 <= i < |s| ==> s[i] != 0 }

  lemma SplitShown(name: Bytes, rest: Bytes)
    requires CString(name) && QuoteSafe(name)
    requires rest == [] || rest[0] == SPACE
    ensures SplitArgs(Shown(name) + rest) ==
            match SplitArgs(rest) case None => None case Some(more) => Some([name] + more)
  {
    hide SplitArgs;
    if NeedsRepr(name) {
      SplitRepr(name, rest);
    } else {
      assert AllBare(name) by {
        forall i | 0 <= i < |name| ensures Bare(name[i]) {
          assert name[i] in name && !Special(name[i]);
        }
      }
      assert !Special(name[0]);
      SplitBare(name, rest);
    }
  }

  // ----- An unquoted single quote is lost -----

  lemma {:induction false} ReadSingle(s: Bytes, t: Bytes, acc: Bytes)
    requires SQUOTE !in s && BACKSLASH !in s && 0 !in s
    ensures Token(s + t, Single, acc) == Token(t, Single, acc + s)
  {
    if s == [] {
      assert s + t == t && acc + s == acc;
    } else {
      assert (s + t)[1..] == s[1..] + t && s[0] in s;
      ReadSingle(s[1..], t, acc + [s[0]]);
      assert acc + [s[0]] + s[1..] == acc + s;
    }
  }

  lemma {:induction false} FirstQuote(s: Bytes) returns (i: nat)
    requires SQUOTE in s
    ensures i < |s| && s[i] == SQUOTE && SQUOTE !in s[..i]
  {
    if s[0] == SQUOTE {
      i := 0;
    } else {
      var j := FirstQuote(s[1..]);
      i := j + 1;
      assert s[..i] == [s[0]] + s[1..][..j];
    }
  }

  predicate Tame(s: Bytes) { BACKSLASH !in s && 0 !in s }

  /** After an opening single quote the argument comes out at least one byte short, if at all. */
  lemma ReadUnsafe(a: Bytes, b: Bytes, rest: Bytes)
    requires Tame(b) && (forall x :: x in b ==> !IsSpace(x))
    requires Tame(rest) && SQUOTE !in rest && rest != [] && rest[0] == SPACE
    ensures var r := Token(b + rest, Single, a);
            r.Some? ==> |r.value.0| <= |a| + |b| && r.value.1 == rest
    ensures b == [] || b[|b| - 1] != SQUOTE ==> Token(b + rest, Single, a) == None
  {
    if SQUOTE in b {
      var j := FirstQuote(b);
      var c, d := b[..j], b[j + 1..];
      var u: Bytes := [SQUOTE] + (d + rest);
      assert b + rest == c + u;
      assert Tame(c);
      ReadSingle(c, u, a);
      assert u[1..] == d + rest;
      if d != [] {
        assert u[1] == d[0] == b[j + 1];
        assert b[j + 1] in b;
      } else {
        assert d + rest == rest;
      }
    } else {
      var t := b + rest;
      assert SQUOTE !in t && Tame(t);
      ReadSingle(t, [], a);
      assert t + [] == t;
    }
  }

  /** The argument read for a name with a bare single quote is never that name. */
  lemma SplitUnsafe(name: Bytes, rest: Bytes)
    requires CString(name) && !QuoteSafe(name)
    requires Tame(rest) && SQUOTE !in rest && rest != [] && rest[0] == SPACE
    ensures SplitArgs(rest).Some? && SplitArgs(name + rest).Some? ==>
              && |SplitArgs(name + rest).value| == 1 + |SplitArgs(rest).value|
              && SplitArgs(name + rest).value[0] != name
              && SplitArgs(name + rest).value[1..] == SplitArgs(rest).value
    ensures name[|name| - 1] != SQUOTE ==> SplitArgs(name + rest) == None
  {
    assert forall b :: b in name ==> !Special(b) && b != 0;
    var i := FirstQuote(name);
    var a, b := name[..i], name[i + 1..];
    forall x | x in a || x in b ensures x in name {}
    assert AllBare(a) by {
      forall k | 0 <= k < |a| ensures Bare(a[k]) { assert a[k] in a; }
    }
    var s := name + rest;
    var u: Bytes := [SQUOTE] + (b + rest);
    assert s == a + u;
    assert name[0] in name && SkipSpaces(s) == s;
    ReadBare(a, u, []);
    assert u[1..] == b + rest && [] + a == a;
    assert Token(u, Plain, a) == Token(b + rest, Single, a);
    hide Token, SkipSpaces, Special;
    ReadUnsafe(a, b, rest);
  }
}
