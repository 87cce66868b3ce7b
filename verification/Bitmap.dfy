/**
 * A string as a sequence of bits, most significant bit of the first byte first, followed by
 * infinitely many zero bits (bitops.c).
 */
module Bitmap {
  import opened Words
  import opened Decimal

  /** Bit `i` of a byte, counted from the most significant one. */
  function ByteBit(b: Byte, i: nat): (v: bool)
    requires i < 8
  {
    Bits(b, 8)[7 - i]
  }

  lemma ZeroBit(i: nat)
    requires i < 8
    ensures !ByteBit(0, i)
  {}

  function Bit(p: Bytes, n: nat): (v: bool) { n / 8 < |p| && ByteBit(p[n / 8], n % 8) }

  /** The byte with one bit replaced: cleared with a mask, then set with a shift. */
  function SetByteBit(b: Byte, i: nat, v: bool): (r: Byte)
    requires i < 8
  {
    Pow2Of8();
    Value(Bits(b, 8)[7 - i := v])
  }

  lemma SetByteBitAt(b: Byte, i: nat, v: bool, j: nat)
    requires i < 8 && j < 8
    ensures ByteBit(SetByteBit(b, i, v), j) == if j == i then v else ByteBit(b, j)
  {
    BitsOfValue(Bits(b, 8)[7 - i := v]);
  }

  /** Replacing one bit of the byte it lies in changes that bit of the string and no other. */
  lemma SetBitAt(p: Bytes, n: nat, v: bool, m: nat)
    requires n / 8 < |p|
    ensures var p' := p[n / 8 := SetByteBit(p[n / 8], n % 8, v)]; Bit(p', m) == if m == n then v else Bit(p, m)
  {
    hide ByteBit, SetByteBit;
    if m / 8 == n / 8 {
      SetByteBitAt(p[n / 8], n % 8, v, m % 8);
      assert m % 8 == n % 8 <==> m == n;
    }
  }

  /** The bits from `o` on, first bit first. */
  function Window(p: Bytes, o: nat, n: nat): (w: seq<bool>)
    ensures |w| == n && forall i :: 0 <= i < n ==> w[i] == Bit(p, o + i)
  {
    seq(n, i requires 0 <= i < n => Bit(p, o + i))
  }

  /** The number written by bits, first bit most significant. */
  function Num(s: seq<bool>): (v: nat)
    ensures v < Pow2(|s|)
  {
    if s == [] then 0 else 2 * Num(s[..|s| - 1]) + if s[|s| - 1] then 1 else 0
  }

  /** The low `n` bits of a number, most significant first. */
  function Low(v: nat, n: nat): (s: seq<bool>)
    ensures |s| == n
  {
    if n == 0 then [] else Low(v / 2, n - 1) + [v % 2 == 1]
  }

  lemma {:induction false} NumLow(v: nat, n: nat)
    ensures Num(Low(v, n)) == v % Pow2(n)
  {
    if n > 0 {
      var s := Low(v, n);
      assert s[..n - 1] == Low(v / 2, n - 1);
      NumLow(v / 2, n - 1);
      HalfMod(v, Pow2(n - 1));
    }
  }

  /** v % 2p from (v / 2) % p. */
  lemma HalfMod(v: nat, p: nat)
    requires p > 0
    ensures v % (2 * p) == 2 * ((v / 2) % p) + v % 2
  {
    var q, r := (v / 2) / p, (v / 2) % p;
    assert v == (2 * p) * q + (2 * r + v % 2) by { assert v / 2 == p * q + r; }
    ModUnique(v, 2 * p, q, 2 * r + v % 2);
  }

  lemma ModUnique(x: int, d: int, q: int, r: int)
    requires d > 0 && x == d * q + r && 0 <= r < d
    ensures x % d == r && x / d == q
  {
    var e := x / d - q;
    assert d * (x / d) + x % d == x;
    assert d * e == r - x % d;
    assert e >= 1 ==> d * e >= d;
    assert e <= -1 ==> d * e <= -d;
  }

  lemma {:induction false} LowNum(s: seq<bool>)
    ensures Low(Num(s), |s|) == s
  {
    if s != [] {
      LowNum(s[..|s| - 1]);
      assert s == s[..|s| - 1] + [s[|s| - 1]];
    }
  }

  /** Bit `j` of the low bits, as a mask tests it. */
  lemma {:induction false} LowAt(v: nat, n: nat, j: nat)
    requires j < n
    ensures Low(v, n)[j] == ((v / Pow2(n - 1 - j)) % 2 == 1)
  {
    if j < n - 1 {
      LowAt(v / 2, n - 1, j);
      DivDiv(v, Pow2(n - 2 - j));
    }
  }

  lemma DivDiv(v: nat, p: nat)
    requires p > 0
    ensures (v / 2) / p == v / (2 * p)
  {
    var q, r := (v / 2) / p, (v / 2) % p;
    assert v == (2 * p) * q + (2 * r + v % 2) by { assert v / 2 == p * q + r; }
    ModUnique(v, 2 * p, q, 2 * r + v % 2);
  }

  lemma {:induction false} Pow2Sum(a: nat, b: nat)
    ensures Pow2(a + b) == Pow2(a) * Pow2(b)
  {
    if a > 0 { Pow2Sum(a - 1, b); }
  }

  lemma {:induction false} Pow2Grows(a: nat, b: nat)
    requires a <= b
    ensures Pow2(a) <= Pow2(b)
  {
    if a < b { Pow2Grows(a, b - 1); }
  }

  // ----- The order of bits and bytes -----

  lemma {:induction false} BitsAt(v: nat, n: nat, j: nat)
    requires j < n
    ensures Bits(v, n)[j] == (v / Pow2(j) % 2 == 1)
  {
    if j > 0 {
      BitsAt(v / 2, n - 1, j - 1);
      DivDiv(v, Pow2(j - 1));
    }
  }

  /** Bit 0 of a byte is its most significant one. */
  lemma ByteBitIs(b: Byte, i: nat)
    requires i < 8
    ensures ByteBit(b, i) == (b / Pow2(7 - i) % 2 == 1)
  {
    BitsAt(b, 8, 7 - i);
  }

  lemma {:induction false} NumAppend(a: seq<bool>, b: seq<bool>)
    ensures Num(a + b) == Num(a) * Pow2(|b|) + Num(b)
  {
    if b == [] {
      assert a + b == a;
    } else {
      var n := |b| - 1;
      var x, p := Num(a), Pow2(n);
      assert (a + b)[..|a| + n] == a + b[..n] && (a + b)[|a| + n] == b[n];
      assert Num(a + b) == 2 * Num(a + b[..n]) + if b[n] then 1 else 0;
      assert Num(b) == 2 * Num(b[..n]) + if b[n] then 1 else 0;
      assert Pow2(|b|) == 2 * p;
      NumAppend(a, b[..n]);
      hide Num, Pow2;
      MulTwice(x, p);
    }
  }

  lemma MulTwice(x: int, p: int)
    ensures x * (2 * p) == 2 * (x * p)
  {}

  lemma NumByte(a: seq<bool>, b: seq<bool>)
    requires |b| == 8
    ensures Num(a + b) == 256 * Num(a) + Num(b)
  {
    hide Num, Pow2;
    NumAppend(a, b);
    Pow2Of8();
  }

  function BigEndian(s: Bytes): (v: nat) {
    if s == [] then 0 else 256 * BigEndian(s[..|s| - 1]) + s[|s| - 1]
  }

  lemma AlignedBit(p: Bytes, k: nat, i: nat)
    requires k < |p| && i < 8
    ensures Bit(p, 8 * k + i) == Low(p[k], 8)[i]
  {
    hide ByteBit, Low, Pow2;
    ModUnique(8 * k + i, 8, k, i);
    ByteBitIs(p[k], i);
    LowAt(p[k], 8, i);
  }

  lemma OneByte(p: Bytes, k: nat)
    requires k < |p|
    ensures Num(Window(p, 8 * k, 8)) == p[k]
  {
    hide Low, Bit, Num, Pow2;
    var w, b := Window(p, 8 * k, 8), p[k];
    forall i | 0 <= i < 8 ensures w[i] == Low(b, 8)[i] { AlignedBit(p, k, i); }
    hide Window;
    assert w == Low(b, 8);
    NumLow(b, 8);
    Pow2Of8();
    ModUnique(b, 256, 0, b);
  }

  lemma WindowSplit(p: Bytes, o: nat, m: nat, n: nat)
    ensures Window(p, o, m + n) == Window(p, o, m) + Window(p, o + m, n)
  {
    hide Bit;
    var w, a, b := Window(p, o, m + n), Window(p, o, m), Window(p, o + m, n);
    forall i | 0 <= i < m + n ensures w[i] == (a + b)[i] {
      if i >= m { assert (a + b)[i] == b[i - m] && o + i == (o + m) + (i - m); }
    }
  }

  lemma NoBytes(p: Bytes, o: nat)
    ensures Num(Window(p, o, 0)) == 0 && BigEndian([]) == 0
  {}

  lemma BigEndianLast(p: Bytes, k: nat, n: nat)
    requires 0 < n && k + n <= |p|
    ensures BigEndian(p[k..k + n]) == 256 * BigEndian(p[k..k + n - 1]) + p[k + n - 1]
  {
    var bytes := p[k..k + n];
    assert bytes[..n - 1] == p[k..k + n - 1];
  }

  lemma WindowLastByte(p: Bytes, k: nat, n: nat)
    requires 0 < n && k + n <= |p|
    ensures Num(Window(p, 8 * k, 8 * n)) == 256 * Num(Window(p, 8 * k, 8 * (n - 1))) + p[k + n - 1]
  {
    hide *;
    var o, m := 8 * k, 8 * (n - 1);
    WindowSplit(p, o, m, 8);
    OneByte(p, k + n - 1);
    assert o + m == 8 * (k + n - 1) && m + 8 == 8 * n;
    NumByte(Window(p, o, m), Window(p, o + m, 8));
  }

  /** Whole bytes are read as a number in network byte order. */
  lemma {:induction false} WindowBytes(p: Bytes, k: nat, n: nat)
    requires k + n <= |p|
    ensures Num(Window(p, 8 * k, 8 * n)) == BigEndian(p[k..k + n])
    decreases n
  {
    hide *;
    if n == 0 {
      NoBytes(p, 8 * k);
      assert p[k..k + n] == [];
    } else {
      WindowBytes(p, k, n - 1);
      WindowLastByte(p, k, n);
      BigEndianLast(p, k, n);
    }
  }
}
