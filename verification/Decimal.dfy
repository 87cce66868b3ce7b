/** Byte strings and decimal numbers: ll2string, atoi/strtol, fgets and letter case. */
module Decimal {
  import opened Words

  type Bytes = seq<Byte>

  const LF: Byte := 10
  const CR: Byte := 13

  predicate IsDigit(b: Byte) { 48 <= b <= 57 }

  predicate IsSpace(b: Byte) { b == 32 || 9 <= b <= 13 }

  /** Every ASCII letter in lower case, as strcasecmp compares. */
  function Lower(s: Bytes): (t: Bytes)
    ensures |t| == |s|
  {
    seq(|s|, i requires 0 <= i < |s| => if 65 <= s[i] <= 90 then s[i] + 32 else s[i])
  }

  /** ll2string on a non-negative number. */
  function Dec(n: nat): (s: Bytes)
    ensures |s| >= 1
  {
    if n < 10 then [48 + n] else Dec(n / 10) + [48 + n % 10]
  }

  /** The number written by the leading digits of `s`, appended to the digits read so far. */
  function Digits(acc: nat, s: Bytes): (n: nat)
    ensures n >= acc
    decreases s
  {
    if s != [] && IsDigit(s[0]) then Digits(10 * acc + (s[0] as int - 48), s[1..]) else acc
  }

  function SkipSpaces(s: Bytes): (t: Bytes) {
    if s != [] && IsSpace(s[0]) then SkipSpaces(s[1..]) else s
  }

  /** atoi, atoll and strtol(.., 10) on values that fit the result type. */
  function Atoi(s: Bytes): (n: int) {
    var t := SkipSpaces(s);
    if t != [] && t[0] == 45 then -(Digits(0, t[1..]) as int)
    else if t != [] && t[0] == 43 then Digits(0, t[1..])
    else Digits(0, t)
  }

  function Pow10(k: nat): (p: nat) { if k == 0 then 1 else 10 * Pow10(k - 1) }

  lemma {:induction false} DecShape(n: nat)
    ensures forall i :: 0 <= i < |Dec(n)| ==> IsDigit(Dec(n)[i])
    ensures n >= 1 ==> Dec(n)[0] >= 49
  {
    if n >= 10 { DecShape(n / 10); }
  }

  lemma {:induction false} DecLength(n: nat, k: nat)
    requires n < Pow10(k) && k >= 1
    ensures |Dec(n)| <= k
  {
    if n >= 10 {
      assert k >= 2 by { assert Pow10(1) == 10; }
      DecLength(n / 10, k - 1);
    }
  }

  lemma {:induction false} DigitsAppend(acc: nat, s: Bytes, t: Bytes)
    requires forall i :: 0 <= i < |s| ==> IsDigit(s[i])
    ensures Digits(acc, s + t) == Digits(Digits(acc, s), t)
    decreases s
  {
    if s == [] {
      assert s + t == t;
    } else {
      assert (s + t)[1..] == s[1..] + t;
      DigitsAppend(10 * acc + (s[0] as int - 48), s[1..], t);
    }
  }

  lemma {:induction false} DigitsOfDec(n: nat)
    ensures Digits(0, Dec(n)) == n
  {
    DecShape(n);
    if n >= 10 {
      DecShape(n / 10);
      DigitsOfDec(n / 10);
      var last: Bytes := [48 + n % 10];
      DigitsAppend(0, Dec(n / 10), last);
      assert Digits(n / 10, last) == Digits(10 * (n / 10) + n % 10, last[1..]);
    }
  }

  /** Reading a printed number back, whatever non-digit follows it. */
  lemma AtoiOfDec(n: nat, t: Bytes)
    requires t == [] || !IsDigit(t[0])
    ensures Atoi(Dec(n) + t) == n
  {
    DecShape(n);
    DigitsOfDec(n);
    DigitsAppend(0, Dec(n), t);
    assert (Dec(n) + t)[0] == Dec(n)[0];
  }

  /** A proper prefix of a printed number still reads as a number, and as a positive one if `n` is. */
  lemma AtoiOfCutDec(n: nat, k: nat)
    requires k <= |Dec(n)|
    ensures Atoi(Dec(n)[..k]) >= 0
    ensures n >= 1 && k >= 1 ==> Atoi(Dec(n)[..k]) >= 1
  {
    DecShape(n);
  }

  lemma DecInjective(m: nat, n: nat)
    requires Dec(m) == Dec(n)
    ensures m == n
  {
    DigitsOfDec(m);
    DigitsOfDec(n);
  }

  /** How much one fgets call with a buffer of `max + 1` bytes consumes. */
  function LineLength(s: Bytes, max: nat): (k: nat)
    ensures k <= |s| && k <= max
    ensures s != [] && max > 0 ==> k >= 1
  {
    if s == [] || max == 0 then 0
    else if s[0] == LF then 1
    else 1 + LineLength(s[1..], max - 1)
  }

  /** A line that fits the buffer is read up to and including its newline. */
  lemma {:induction false} WholeLine(line: Bytes, t: Bytes, max: nat)
    requires |line| + 1 <= max
    requires forall i :: 0 <= i < |line| ==> line[i] != LF
    ensures LineLength(line + [LF] + t, max) == |line| + 1
  {
    var s := line + [LF] + t;
    if line != [] {
      assert s[1..] == line[1..] + [LF] + t;
      WholeLine(line[1..], t, max - 1);
    }
  }

  /** A file that ends before the newline is read up to its end. */
  lemma {:induction false} CutLine(line: Bytes, max: nat)
    requires |line| <= max
    requires forall i :: 0 <= i < |line| ==> line[i] != LF
    ensures LineLength(line, max) == |line|
  {
    if line != [] { CutLine(line[1..], max - 1); }
  }
}
