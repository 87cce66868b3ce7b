/**
 * Cluster hash slots (cluster.c, cluster.h): the slot inferred from a glob pattern is the slot of
 * every key the pattern matches. Everything holds for any 16-bit hash in place of crc16.
 */
module HashSlot {
  import opened Wrappers
  import opened Words
  import opened Decimal

  const OPEN: Byte := 123
  const CLOSE: Byte := 125
  const STAR: Byte := 42
  const QUERY: Byte := 63
  const BRACKET: Byte := 91
  const ESCAPE: Byte := 92
  const SLOTS: nat := 16384

  type Hash = Bytes -> nat

  predicate Special(b: Byte) { b == STAR || b == QUERY || b == BRACKET || b == ESCAPE }

  /** The position of the first `b` at or after `i`, or the length. */
  function IndexFrom(s: Bytes, i: nat, b: Byte): (j: nat)
    requires i <= |s|
    ensures i <= j <= |s| && (j < |s| ==> s[j] == b) && forall k :: i <= k < j ==> s[k] != b
    decreases |s| - i
  {
    if i == |s| || s[i] == b then i else IndexFrom(s, i + 1, b)
  }

  /** The part of a key that is hashed: what is between the first brace and the next closing one, unless empty. */
  function Hashed(key: Bytes): (part: Bytes) {
    var s := IndexFrom(key, 0, OPEN);
    if s == |key| then key
    else
      var e := IndexFrom(key, s + 1, CLOSE);
      if e == |key| || e == s + 1 then key else key[s + 1..e]
  }

  lemma IndexOf(s: Bytes, i: nat, b: Byte, j: nat)
    requires i <= j < |s| && s[j] == b && forall k :: i <= k < j ==> s[k] != b
    ensures IndexFrom(s, i, b) == j
  {}

  /** What stands between the first { and the } after it decides, if there is anything there. */
  lemma HashedTag(a: Bytes, b: Bytes, c: Bytes)
    requires 123 !in a && 125 !in b
    ensures var key := a + [123] + b + [125] + c;
            Hashed(key) == if b == [] then key else b
  {
    var key := a + [123] + b + [125] + c;
    var e := |a| + 1 + |b|;
    forall k | 0 <= k < |a| ensures key[k] != 123 { assert key[k] == a[k]; }
    forall k | |a| + 1 <= k < e ensures key[k] != 125 { assert key[k] == b[k - |a| - 1]; }
    IndexOf(key, 0, OPEN, |a|);
    IndexOf(key, |a| + 1, CLOSE, e);
    assert key[|a| + 1..e] == b;
  }

  /** A key without a {, or without a } after the first one, is hashed whole. */
  lemma HashedWhole(a: Bytes, c: Bytes)
    requires 123 !in a && 125 !in c
    ensures Hashed(a) == a && Hashed(a + [123] + c) == a + [123] + c
  {
    var key := a + [123] + c;
    forall k | 0 <= k < |a| ensures key[k] != 123 { assert key[k] == a[k]; }
    forall k | |a| < k < |key| ensures key[k] != 125 { assert key[k] == c[k - |a| - 1]; }
    IndexOf(key, 0, OPEN, |a|);
  }

  method KeyHashSlot(key: Bytes, crc16: Hash) returns (slot: nat)
    ensures slot == crc16(Hashed(key)) % 16384
  {
    var s := 0;
    while s < |key| && key[s] != OPEN
      invariant 0 <= s <= |key| && IndexFrom(key, 0, OPEN) == IndexFrom(key, s, OPEN)
    {
      s := s + 1;
    }
    if s == |key| { return crc16(key) % SLOTS; }
    var e := s + 1;
    while e < |key| && key[e] != CLOSE
      invariant s + 1 <= e <= |key| && IndexFrom(key, s + 1, CLOSE) == IndexFrom(key, e, CLOSE)
    {
      e := e + 1;
    }
    if e == |key| || e == s + 1 { return crc16(key) % SLOTS; }
    return crc16(key[s + 1..e]) % SLOTS;
  }

  /**
   * What is asked of the matcher: ordinary bytes of the pattern match themselves, one by one. From
   * the first special byte on, `special` decides in any way whatsoever.
   */
  ghost predicate Matches(pattern: Bytes, key: Bytes, special: (Bytes, Bytes) -> bool) {
    if pattern == [] then key == []
    else if Special(pattern[0]) then special(pattern, key)
    else key != [] && pattern[0] == key[0] && Matches(pattern[1..], key[1..], special)
  }

  predicate Literal(s: Bytes) { forall i :: 0 <= i < |s| ==> !Special(s[i]) }

  lemma {:induction false} LiteralPrefix(pattern: Bytes, key: Bytes, special: (Bytes, Bytes) -> bool, k: nat)
    requires Matches(pattern, key, special) && k <= |pattern| && Literal(pattern[..k])
    ensures k <= |key| && pattern[..k] == key[..k]
    ensures k == |pattern| ==> key == pattern
    decreases |pattern|
  {
    if pattern != [] && k > 0 {
      assert !Special(pattern[..k][0]);
      assert pattern[1..][..k - 1] == pattern[..k][1..];
      LiteralPrefix(pattern[1..], key[1..], special, k - 1);
      assert pattern[..k] == [pattern[0]] + pattern[1..][..k - 1];
      assert key[..k] == [key[0]] + key[1..][..k - 1];
      if k == |pattern| { assert key == [key[0]] + key[1..] && pattern == [pattern[0]] + pattern[1..]; }
    }
  }

  /** The tag state of the scan after the bytes `p`: the open brace, none yet (-1), or an empty tag seen (-2). */
  predicate Scanned(p: Bytes, s: int) {
    && Literal(p)
    && (s == -1 ==> OPEN !in p)
    && (s >= 0 ==> s < |p| && IndexFrom(p, 0, OPEN) == s && CLOSE !in p[s + 1..])
    && (s == -2 ==> var o := IndexFrom(p, 0, OPEN); o + 1 < |p| && p[o + 1] == CLOSE)
    && s >= -2
  }

  /**
   * patternHashSlot. The result, if there is one, is the slot of every key that the pattern can
   * match: with no special byte that is the pattern itself, and with a closed tag before the first
   * special byte all keys share the tag. There is none exactly if one of * ? [ \\ comes before any tag.
   */
  method PatternHashSlot(pattern: Bytes, crc16: Hash) returns (slot: Option<nat>)
    ensures slot.Some? ==> forall key, special :: Matches(pattern, key, special) ==> slot.value == crc16(Hashed(key)) % SLOTS
    ensures slot.None? <==> exists i :: 0 <= i < |pattern| && pattern[i] in {42, 63, 91, 92} && Hashed(pattern[..i]) == pattern[..i]
  {
    hide Hashed;
    var s := -1;
    for i := 0 to |pattern|
      invariant Scanned(pattern[..i], s)
    {
      var b := pattern[i];
      if Special(b) {
        WholeHashed(pattern[..i], s);
        return None;
      }
      ScanStep(pattern, i, s);
      if s == -1 && b == OPEN {
        s := i;
      } else if s >= 0 && b == CLOSE && i == s + 1 {
        s := -2;
      } else if s >= 0 && b == CLOSE {
        forall key, special | Matches(pattern, key, special) ensures Hashed(key) == pattern[s + 1..i] {
          TagShared(pattern, i, s, key, special);
        }
        forall j | 0 <= j < |pattern| && Special(pattern[j]) ensures Hashed(pattern[..j]) != pattern[..j] {
          TagBefore(pattern, i, s, j);
        }
        return Some(crc16(pattern[s + 1..i]) % SLOTS);
      }
    }
    assert pattern[..|pattern|] == pattern;
    forall key, special | Matches(pattern, key, special) ensures key == pattern && Hashed(key) == pattern {
      LiteralPrefix(pattern, key, special, |pattern|);
      WholeHashed(pattern, s);
    }
    return Some(crc16(pattern) % SLOTS);
  }

  lemma TagBefore(pattern: Bytes, i: nat, s: nat, j: nat)
    requires i < |pattern| && Scanned(pattern[..i], s) && s + 1 < i && pattern[i] == CLOSE
    requires j < |pattern| && Special(pattern[j])
    ensures Hashed(pattern[..j]) != pattern[..j]
  {
    hide Hashed;
    assert forall k :: 0 <= k < i ==> pattern[k] == pattern[..i][k];
    assert j > i;
    var a, b, c := pattern[..s], pattern[s + 1..i], pattern[i + 1..j];
    assert b == pattern[..i][s + 1..];
    assert pattern[..j] == a + [123] + b + [125] + c by { assert pattern[..i][s] == OPEN; }
    HashedTag(a, b, c);
  }

  lemma IndexIs(p: Bytes, i: nat, j: nat, b: Byte)
    requires i <= j <= |p| && (forall k :: i <= k < j ==> p[k] != b) && (j < |p| ==> p[j] == b)
    ensures IndexFrom(p, i, b) == j
  {
    hide *;
    var m := IndexFrom(p, i, b);
  }

  lemma ScanStep(pattern: Bytes, i: nat, s: int)
    requires i < |pattern| && Scanned(pattern[..i], s) && !Special(pattern[i])
    ensures var b := pattern[i];
            && (s == -1 && b == OPEN ==> Scanned(pattern[..i + 1], i))
            && (s >= 0 && b == CLOSE && i == s + 1 ==> Scanned(pattern[..i + 1], -2))
            && (!(s == -1 && b == OPEN) && !(s >= 0 && b == CLOSE) ==> Scanned(pattern[..i + 1], s))
  {
    var p, q, b := pattern[..i], pattern[..i + 1], pattern[i];
    hide IndexFrom;
    assert q == p + [b];
    assert Literal(q);
    if s == -1 {
      assert forall k :: 0 <= k < i ==> q[k] in p;
      if b == OPEN { IndexIs(q, 0, i, OPEN); assert q[i + 1..] == []; }
    } else {
      var o := IndexFrom(p, 0, OPEN);
      IndexIs(q, 0, o, OPEN);
      if s >= 0 { assert q[s + 1..] == p[s + 1..] + [b]; }
    }
  }

  lemma TagShared(pattern: Bytes, i: nat, s: nat, key: Bytes, special: (Bytes, Bytes) -> bool)
    requires i < |pattern| && Scanned(pattern[..i], s) && pattern[i] == CLOSE && i != s + 1 && !Special(pattern[i])
    requires Matches(pattern, key, special)
    ensures s + 1 <= i && Hashed(key) == pattern[s + 1..i]
  {
    var p := pattern[..i];
    assert pattern[..i + 1] == p + [pattern[i]];
    assert Literal(pattern[..i + 1]);
    LiteralPrefix(pattern, key, special, i + 1);
    hide IndexFrom, Matches;
    assert forall k :: 0 <= k <= i ==> key[k] == key[..i + 1][k] == pattern[k];
    IndexIs(key, 0, s, OPEN);
    assert forall k :: s + 1 <= k < i ==> key[k] == p[s + 1..][k - s - 1];
    IndexIs(key, s + 1, i, CLOSE);
    assert key[s + 1..i] == pattern[s + 1..i];
  }

  lemma WholeHashed(pattern: Bytes, s: int)
    requires Scanned(pattern, s)
    ensures Hashed(pattern) == pattern
  {
    hide IndexFrom;
    if s == -1 {
      assert forall k :: 0 <= k < |pattern| ==> pattern[k] in pattern;
      IndexIs(pattern, 0, |pattern|, OPEN);
    } else if s >= 0 {
      assert forall k :: s + 1 <= k < |pattern| ==> pattern[k] == pattern[s + 1..][k - s - 1];
      IndexIs(pattern, s + 1, |pattern|, CLOSE);
    } else {
      var o := IndexFrom(pattern, 0, OPEN);
      IndexIs(pattern, o + 1, o + 1, CLOSE);
    }
  }
}
