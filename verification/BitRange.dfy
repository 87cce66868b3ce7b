/** Ranges of BITCOUNT, and the edge bytes of a range given in bits (bitops.c). */
module BitRange {
  import opened Wrappers
  import opened Words
  import opened Decimal
  import opened Bitmap
  import opened BitCount

  function BitAt(p: Bytes, o: nat, i: nat): (v: bool) { Bit(p, o + i) }

  lemma {:induction false} OnesSame(p: Bytes, o: nat, q: Bytes, r: nat, n: nat)
    requires forall i :: 0 <= i < n ==> BitAt(p, o, i) == BitAt(q, r, i)
    ensures Ones(p, o, n) == Ones(q, r, n)
  {
    hide Bit;
    if n > 0 {
      OnesSame(p, o, q, r, n - 1);
      assert BitAt(p, o, n - 1) == BitAt(q, r, n - 1);
    }
  }

  lemma {:induction false} OnesNone(p: Bytes, o: nat, n: nat)
    requires forall i :: 0 <= i < n ==> !BitAt(p, o, i)
    ensures Ones(p, o, n) == 0
  {
    hide Bit;
    if n > 0 {
      OnesNone(p, o, n - 1);
      assert !BitAt(p, o, n - 1);
    }
  }

  lemma {:induction false} OnesJoin(p: Bytes, o: nat, m: nat, n: nat)
    ensures Ones(p, o, m + n) == Ones(p, o, m) + Ones(p, o + m, n)
  {
    hide Bit;
    if n > 0 { OnesJoin(p, o, m, n - 1); }
  }

  // ----- Masks for the edges of a range -----

  /** ~((1 << (8 - s)) - 1) & 0xFF: the first `s` bits of a byte. */
  function TopMask(s: nat): (m: int)
    requires s < 8
  {
    255 - (Pow2(8 - s) - 1)
  }

  /** (1 << n) - 1: the last `n` bits of a byte. */
  function LowMask(n: nat): (m: int)
    requires n < 8
  {
    Pow2(n) - 1
  }

  function Trues(n: nat): (s: seq<bool>)
    ensures |s| == n
  {
    seq(n, _ => true)
  }

  lemma {:induction false} ValueTrues(n: nat, m: nat)
    ensures Value(Trues(n) + Zeros(m)) == Pow2(n) - 1
  {
    if n == 0 {
      assert Trues(0) + Zeros(m) == Zeros(m);
      ValueZeros(m);
    } else {
      assert (Trues(n) + Zeros(m))[1..] == Trues(n - 1) + Zeros(m);
      ValueTrues(n - 1, m);
    }
  }

  lemma {:induction false} ValueZeros(m: nat)
    ensures Value(Zeros(m)) == 0
  {
    if m > 0 {
      assert Zeros(m)[1..] == Zeros(m - 1);
      ValueZeros(m - 1);
    }
  }

  lemma TopMaskBits(s: nat)
    requires s < 8
    ensures 0 <= TopMask(s) < 256 && Bits(TopMask(s), 8) == Zeros(8 - s) + Trues(s)
  {
    TopMaskValue(s);
    BitsOfValue(Zeros(8 - s) + Trues(s));
    Pow2Of8();
    hide Bits, TopMask, Pow2, Value;
    assert |Zeros(8 - s) + Trues(s)| == 8;
    assert Value(Zeros(8 - s) + Trues(s)) < Pow2(8);
  }

  lemma TopMaskValue(s: nat)
    requires s < 8
    ensures Value(Zeros(8 - s) + Trues(s)) == TopMask(s)
  {
    hide Value;
    ValueTop(8 - s, s);
    Pow2Of8();
  }

  lemma {:induction false} ValueTop(n: nat, m: nat)
    ensures Value(Zeros(n) + Trues(m)) == Pow2(n + m) - Pow2(n)
  {
    if n == 0 {
      assert Zeros(0) + Trues(m) == Trues(m) + Zeros(0);
      ValueTrues(m, 0);
    } else {
      assert (Zeros(n) + Trues(m))[1..] == Zeros(n - 1) + Trues(m);
      ValueTop(n - 1, m);
    }
  }

  lemma LowMaskBits(n: nat)
    requires n < 8
    ensures 0 <= LowMask(n) < 256 && Bits(LowMask(n), 8) == Trues(n) + Zeros(8 - n)
  {
    Pow2Of8();
    Pow2Grows(n, 8);
    ValueTrues(n, 8 - n);
    BitsOfValue(Trues(n) + Zeros(8 - n));
  }

  /** Bitwise operations on bytes. */
  function AndByte(b: Byte, m: int): (r: Byte)
    requires 0 <= m < 256
  {
    Pow2Of8();
    Value(seq(8, i requires 0 <= i < 8 => Bits(b, 8)[i] && Bits(m, 8)[i]))
  }

  function AndNot(b: Byte, m: int): (r: Byte)
    requires 0 <= m < 256
  {
    Pow2Of8();
    Value(seq(8, i requires 0 <= i < 8 => Bits(b, 8)[i] && !Bits(m, 8)[i]))
  }

  function OrByte(b: Byte, m: int): (r: Byte)
    requires 0 <= m < 256
  {
    Pow2Of8();
    Value(seq(8, i requires 0 <= i < 8 => Bits(b, 8)[i] || Bits(m, 8)[i]))
  }

  lemma MaskedBits(b: Byte, m: int, j: nat)
    requires 0 <= m < 256 && j < 8
    ensures ByteBit(AndByte(b, m), j) == (ByteBit(b, j) && ByteBit(m, j))
    ensures ByteBit(AndNot(b, m), j) == (ByteBit(b, j) && !ByteBit(m, j))
    ensures ByteBit(OrByte(b, m), j) == (ByteBit(b, j) || ByteBit(m, j))
  {
    hide Bits, Value;
    BitsOfValue(seq(8, i requires 0 <= i < 8 => Bits(b, 8)[i] && Bits(m, 8)[i]));
    BitsOfValue(seq(8, i requires 0 <= i < 8 => Bits(b, 8)[i] && !Bits(m, 8)[i]));
    BitsOfValue(seq(8, i requires 0 <= i < 8 => Bits(b, 8)[i] || Bits(m, 8)[i]));
  }

  lemma TopBit(s: nat, j: nat)
    requires s < 8 && j < 8
    ensures 0 <= TopMask(s) < 256 && ByteBit(TopMask(s), j) == (j < s)
  {
    TopMaskBits(s);
    hide Bits, Pow2;
  }

  lemma LowBit(n: nat, j: nat)
    requires n < 8 && j < 8
    ensures 0 <= LowMask(n) < 256 && ByteBit(LowMask(n), j) == (j >= 8 - n)
  {
    LowMaskBits(n);
    hide Bits, Pow2;
  }

  // ----- BITCOUNT -----

  /** An index given by the user: negative ones count from the end. */
  function Clamp(i: int, len: nat): (j: nat) {
    var j := if i < 0 then len + i else i;
    if j < 0 then 0 else j
  }

  /** The bits a range denotes: (first, how many). Indexes are of bits or of bytes. */
  function RangeBits(len: nat, start: int, end: int, isbit: bool): (r: (nat, nat)) {
    var total := if isbit then 8 * len else len;
    var s, e := Clamp(start, total), Clamp(end, total);
    var last := if e >= total then total - 1 else e;
    if (start < 0 && end < 0 && start > end) || s > last then (0, 0)
    else if isbit then (s, last - s + 1)
    else (8 * s, 8 * (last - s + 1))
  }

  /** Element `u` of `total` is not before the one that index `start` means. */
  predicate NotBefore(start: int, u: nat, total: nat) { (if start < 0 then total + start else start) <= u }

  /** Nor after the one that `end` means; an end before the first element means the first. */
  predicate NotAfter(end: int, u: nat, total: nat) { u <= (if end < 0 then total + end else end) || (end < 0 && u == 0) }

  /** Bit `i` of a string of `len` bytes is in the range from `start` to `end`, counted in bits or in bytes. */
  predicate InRange(len: nat, start: int, end: int, isbit: bool, i: nat) {
    var u, total := if isbit then i else i / 8, if isbit then 8 * len else len;
    i < 8 * len && NotBefore(start, u, total) && NotAfter(end, u, total)
  }

  /** The range arguments of BITCOUNT. */
  datatype Range = Range(start: int, end: int, isbit: bool)

  /** The bits BITCOUNT counts. Two indexes from the end in the wrong order are no range, however short the string. */
  ghost function Counted(p: Bytes, range: Option<Range>): (s: set<nat>) {
    match range
    case None => set i: nat | i < 8 * |p| && Bit(p, i)
    case Some(r) =>
      if r.start < 0 && r.end < 0 && r.start > r.end then {}
      else set i: nat | i < 8 * |p| && InRange(|p|, r.start, r.end, r.isbit, i) && Bit(p, i)
  }

  /** Which bits `RangeBits` denotes, one by one. */
  lemma RangeExactly(len: nat, start: int, end: int, isbit: bool, i: nat)
    ensures var (o, n) := RangeBits(len, start, end, isbit);
            o <= i < o + n <==> InRange(len, start, end, isbit, i) && !(start < 0 && end < 0 && start > end)
  {}

  lemma {:induction false} OnesAreMembers(p: Bytes, o: nat, n: nat)
    ensures Ones(p, o, n) == |set i: nat | o <= i < o + n && Bit(p, i)|
  {
    hide Bit;
    if n > 0 {
      OnesAreMembers(p, o, n - 1);
      var shorter := set i: nat | o <= i < o + n - 1 && Bit(p, i);
      var last := o + n - 1;
      var all := set i: nat | o <= i < o + n && Bit(p, i);
      assert all == if Bit(p, last) then shorter + {last} else shorter;
    }
  }

  lemma CountedIs(p: Bytes, range: Option<Range>)
    ensures var (o, n) := if range.None? then (0, 8 * |p|) else RangeBits(|p|, range.value.start, range.value.end, range.value.isbit);
            Ones(p, o, n) == |Counted(p, range)|
  {
    var (o, n) := if range.None? then (0, 8 * |p|) else RangeBits(|p|, range.value.start, range.value.end, range.value.isbit);
    hide Bit, Ones;
    OnesAreMembers(p, o, n);
    var ones := set i: nat | o <= i < o + n && Bit(p, i);
    forall i: nat ensures i in ones <==> i in Counted(p, range) {
      if range.Some? { RangeExactly(|p|, range.value.start, range.value.end, range.value.isbit, i); }
    }
    assert ones == Counted(p, range);
  }

  /** bitcountCommand after parsing: a missing key counts like an empty string, and no range means all of it. */
  method BitcountCommand(key: Option<Bytes>, range: Option<Range>) returns (count: int)
    ensures count == |Counted(if key.Some? then key.value else [], range)|
  {
    hide Ones, Bit, Counted;
    if key.None? {
      NothingCounted(range);
      return 0;
    }
    var p := key.value;
    CountedIs(p, range);
    if range.Some? {
      count := Bitcount(p, range.value.start, range.value.end, range.value.isbit);
    } else if |p| == 0 {
      ZeroOnes(p);
      count := 0;
    } else {
      count := CountBytes(p, 0, |p| - 1);
    }
  }

  /** The part of bitcountCommand for a range, on the string at an existing key. */
  method Bitcount(p: Bytes, start: int, end: int, isbit: bool) returns (count: int)
    ensures var (o, n) := RangeBits(|p|, start, end, isbit); count == Ones(p, o, n)
  {
    hide Ones, Bit;
    ZeroOnes(p);
    if start < 0 && end < 0 && start > end { return 0; }
    var total := if isbit then 8 * |p| else |p|;
    var s := if start < 0 then total + start else start;
    var e := if end < 0 then total + end else end;
    if s < 0 { s := 0; }
    if e < 0 { e := 0; }
    if e >= total { e := total - 1; }
    if s > e { return 0; }
    if isbit {
      count := CountBits(p, s, e);
    } else {
      count := CountBytes(p, s, e);
    }
  }

  lemma NothingCounted(range: Option<Range>)
    ensures |Counted([], range)| == 0
  {
    assert Counted([], range) == {};
  }

  lemma ZeroOnes(p: Bytes)
    ensures Ones(p, 0, 0) == 0
  {}

  method CountBytes(p: Bytes, s: nat, e: nat) returns (count: nat)
    requires s <= e < |p|
    ensures count == Ones(p, 8 * s, 8 * (e - s + 1))
  {
    hide Ones, Bit;
    count := RedisPopcount(p[s..e + 1], s);
    SliceOnes(p, s, e + 1);
  }

  lemma SliceOnes(p: Bytes, i: nat, j: nat)
    requires i <= j <= |p|
    ensures Ones(p[i..j], 0, 8 * (j - i)) == Ones(p, 8 * i, 8 * (j - i))
  {
    hide Ones, ByteBit;
    forall m | 0 <= m < 8 * (j - i) ensures BitAt(p[i..j], 0, m) == BitAt(p, 8 * i, m) {
      assert (8 * i + m) / 8 == i + m / 8 && (8 * i + m) % 8 == m % 8;
    }
    OnesSame(p[i..j], 0, p, 8 * i, 8 * (j - i));
  }

  /** The bits of the edge bytes outside the range are counted once more and taken off. */
  method CountBits(p: Bytes, first: nat, last: nat) returns (count: int)
    requires first <= last < 8 * |p|
    ensures count == Ones(p, first, last - first + 1)
  {
    hide Ones, Bit, AndByte, TopMask, LowMask;
    TopBit(first % 8, 0);
    LowBit(7 - last % 8, 0);
    var firstMask, lastMask := TopMask(first % 8), LowMask(7 - last % 8);
    var s, e := first / 8, last / 8;
    count := CountBytes(p, s, e);
    var a: Byte, b: Byte := 0, 0;
    if firstMask != 0 { a := AndByte(p[s], firstMask); }
    if lastMask != 0 { b := AndByte(p[e], lastMask); }
    EdgeOnes(p, first, last, a, b);
    if firstMask != 0 || lastMask != 0 {
      var n := RedisPopcount([a, b], 0);
      count := count - n;
    }
  }

  lemma EdgeOnes(p: Bytes, first: nat, last: nat, a: Byte, b: Byte)
    requires first <= last < 8 * |p|
    requires 0 <= TopMask(first % 8) < 256 && 0 <= LowMask(7 - last % 8) < 256
    requires a == if TopMask(first % 8) != 0 then AndByte(p[first / 8], TopMask(first % 8)) else 0
    requires b == if LowMask(7 - last % 8) != 0 then AndByte(p[last / 8], LowMask(7 - last % 8)) else 0
    ensures Ones(p, 8 * (first / 8), 8 * (last / 8 - first / 8 + 1)) == Ones([a, b], 0, 16) + Ones(p, first, last - first + 1)
    ensures TopMask(first % 8) == 0 && LowMask(7 - last % 8) == 0 ==> Ones([a, b], 0, 16) == 0
  {
    hide Ones, Bit, AndByte, TopMask, LowMask;
    var s, e := first / 8, last / 8;
    FirstEdge(p, first, a, b);
    LastEdge(p, last, a, b);
    OnesJoin([a, b], 0, 8, 8);
    OnesJoin(p, 8 * s, first % 8, last - first + 1);
    OnesJoin(p, 8 * s, first % 8 + (last - first + 1), 7 - last % 8);
    if TopMask(first % 8) == 0 && LowMask(7 - last % 8) == 0 { ZeroString(); }
  }

  lemma ZeroString()
    ensures Ones([0, 0], 0, 16) == 0
  {
    forall i | 0 <= i < 16 ensures !BitAt([0, 0], 0, i) { ZeroBit(i % 8); }
    OnesNone([0, 0], 0, 16);
  }

  /** Bit `j` of byte `k` of a string. */
  lemma BitOfByte(p: Bytes, k: nat, j: nat)
    requires k < |p| && j < 8
    ensures BitAt(p, 8 * k, j) == ByteBit(p[k], j)
  {
    hide ByteBit;
    assert (8 * k + j) / 8 == k && (8 * k + j) % 8 == j;
  }

  lemma FirstEdgeBit(p: Bytes, s: nat, k: nat, a: Byte, b: Byte, j: nat)
    requires s < |p| && k < 8 && j < 8 && 0 <= TopMask(k) < 256
    requires a == if TopMask(k) != 0 then AndByte(p[s], TopMask(k)) else 0
    ensures BitAt([a, b], 0, j) == (BitAt(p, 8 * s, j) && j < k)
  {
    hide AndByte, TopMask, ByteBit, BitAt;
    BitOfByte(p, s, j);
    BitOfByte([a, b], 0, j);
    EdgeBit(p[s], TopMask(k), a, j);
    TopBit(k, j);
  }

  lemma FirstEdge(p: Bytes, first: nat, a: Byte, b: Byte)
    requires first / 8 < |p| && 0 <= TopMask(first % 8) < 256
    requires a == if TopMask(first % 8) != 0 then AndByte(p[first / 8], TopMask(first % 8)) else 0
    ensures Ones([a, b], 0, 8) == Ones(p, 8 * (first / 8), first % 8)
  {
    hide Ones, AndByte, TopMask, BitAt;
    var s, k := first / 8, first % 8;
    forall j | 0 <= j < 8 ensures BitAt([a, b], 0, j) == (BitAt(p, 8 * s, j) && j < k) {
      FirstEdgeBit(p, s, k, a, b, j);
    }
    OnesJoin([a, b], 0, k, 8 - k);
    OnesSame([a, b], 0, p, 8 * s, k);
    forall i | 0 <= i < 8 - k ensures !BitAt([a, b], k, i) { BitShift([a, b], 0, k, i); }
    OnesNone([a, b], k, 8 - k);
  }

  lemma BitShift(p: Bytes, o: nat, k: nat, i: nat)
    ensures BitAt(p, o + k, i) == BitAt(p, o, k + i)
  {
    assert o + k + i == o + (k + i);
  }

  /** Leaving the byte out altogether when the mask is empty is the same. */
  lemma EdgeBit(x: Byte, m: int, a: Byte, j: nat)
    requires 0 <= m < 256 && a == (if m != 0 then AndByte(x, m) else 0) && j < 8
    ensures ByteBit(a, j) == (ByteBit(x, j) && ByteBit(m, j))
  {
    hide AndByte, ByteBit;
    MaskedBits(x, m, j);
    ZeroBit(j);
  }

  lemma LastEdgeBit(p: Bytes, e: nat, n: nat, a: Byte, b: Byte, j: nat)
    requires e < |p| && n < 8 && j < 8 && 0 <= LowMask(n) < 256
    requires b == if LowMask(n) != 0 then AndByte(p[e], LowMask(n)) else 0
    ensures BitAt([a, b], 8, j) == (BitAt(p, 8 * e, j) && j >= 8 - n)
  {
    hide AndByte, LowMask, ByteBit, BitAt;
    BitOfByte(p, e, j);
    BitOfByte([a, b], 1, j);
    EdgeBit(p[e], LowMask(n), b, j);
    LowBit(n, j);
  }

  lemma LastEdge(p: Bytes, last: nat, a: Byte, b: Byte)
    requires last / 8 < |p| && 0 <= LowMask(7 - last % 8) < 256
    requires b == if LowMask(7 - last % 8) != 0 then AndByte(p[last / 8], LowMask(7 - last % 8)) else 0
    ensures Ones([a, b], 8, 8) == Ones(p, last + 1, 7 - last % 8)
  {
    hide Ones, AndByte, LowMask, BitAt;
    var e, n := last / 8, 7 - last % 8;
    forall j | 0 <= j < 8 ensures BitAt([a, b], 8, j) == (BitAt(p, 8 * e, j) && j >= 8 - n) {
      LastEdgeBit(p, e, n, a, b, j);
    }
    OnesJoin([a, b], 8, 8 - n, n);
    OnesNone([a, b], 8, 8 - n);
    var x, y := 8 + (8 - n), last + 1;
    assert y == 8 * e + (8 - n);
    forall i | 0 <= i < n ensures BitAt([a, b], x, i) == BitAt(p, y, i) {
      BitShift([a, b], 8, 8 - n, i);
      BitShift(p, 8 * e, 8 - n, i);
    }
    OnesSame([a, b], x, p, y, n);
  }
}
