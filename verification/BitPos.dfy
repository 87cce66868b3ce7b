/** Searching for the first set or clear bit: word skipping and BITPOS ranges (bitops.c). */
module BitPos {
  import opened Wrappers
  import opened Words
  import opened Decimal
  import opened Bitmap
  import opened BitRange

  /** How far after `o` the first such bit among `n` bits is, if there is one. */
  function Find(p: Bytes, o: nat, n: nat, bit: bool): (r: Option<nat>) {
    if n == 0 then None
    else match Find(p, o, n - 1, bit)
      case Some(i) => Some(i)
      case None => if Bit(p, o + n - 1) == bit then Some(n - 1) else None
  }

  lemma {:induction false} FindIsLeast(p: Bytes, o: nat, n: nat, bit: bool)
    ensures match Find(p, o, n, bit)
            case None => forall i :: 0 <= i < n ==> BitAt(p, o, i) != bit
            case Some(r) => r < n && BitAt(p, o, r) == bit && forall i :: 0 <= i < r ==> BitAt(p, o, i) != bit
  {
    hide Bit;
    if n > 0 {
      FindIsLeast(p, o, n - 1, bit);
      assert BitAt(p, o, n - 1) == Bit(p, o + n - 1);
    }
  }

  lemma FindUnique(p: Bytes, o: nat, n: nat, bit: bool, r: nat)
    requires r < n && BitAt(p, o, r) == bit && forall i :: 0 <= i < r ==> BitAt(p, o, i) != bit
    ensures Find(p, o, n, bit) == Some(r)
  {
    FindIsLeast(p, o, n, bit);
    hide Find, BitAt;
    if Find(p, o, n, bit).Some? {
      var f := Find(p, o, n, bit).value;
      assert !(f < r) && !(r < f);
    }
  }

  lemma FindNone(p: Bytes, o: nat, n: nat, bit: bool)
    requires forall i :: 0 <= i < n ==> BitAt(p, o, i) != bit
    ensures Find(p, o, n, bit) == None
  {
    FindIsLeast(p, o, n, bit);
  }

  lemma {:induction false} FindSame(p: Bytes, o: nat, q: Bytes, r: nat, n: nat, bit: bool)
    requires forall i :: 0 <= i < n ==> BitAt(p, o, i) == BitAt(q, r, i)
    ensures Find(p, o, n, bit) == Find(q, r, n, bit)
  {
    hide Bit;
    if n > 0 {
      FindSame(p, o, q, r, n - 1, bit);
      assert BitAt(p, o, n - 1) == BitAt(q, r, n - 1);
    }
  }

  function Plus(r: Option<nat>, k: nat): (s: Option<nat>) { match r case None => None case Some(i) => Some(k + i) }

  lemma {:induction false} FindJoin(p: Bytes, o: nat, m: nat, n: nat, bit: bool)
    ensures Find(p, o, m + n, bit) == if Find(p, o, m, bit).Some? then Find(p, o, m, bit) else Plus(Find(p, o + m, n, bit), m)
  {
    hide Bit;
    if n > 0 { FindJoin(p, o, m, n - 1, bit); }
  }

  // ----- redisBitpos -----

  /** The byte that holds no such bit. */
  function SkipByte(bit: bool): (b: Byte) { if bit then 0 else 255 }

  lemma SkipByteBits(b: Byte, bit: bool)
    ensures b == SkipByte(bit) <==> forall j :: 0 <= j < 8 ==> ByteBit(b, j) != bit
  {
    if forall j :: 0 <= j < 8 ==> ByteBit(b, j) != bit {
      assert forall i :: 0 <= i < 8 ==> Bits(b, 8)[i] != bit by {
        forall i | 0 <= i < 8 ensures Bits(b, 8)[i] != bit { assert ByteBit(b, 7 - i) != bit; }
      }
      Uniform(b, bit);
    }
    forall j | 0 <= j < 8 ensures ByteBit(SkipByte(bit), j) != bit { SkipBit(bit, j); }
  }

  lemma SkipBit(bit: bool, j: nat)
    requires j < 8
    ensures ByteBit(SkipByte(bit), j) != bit
  {
    if bit {
      ZeroBit(j);
    } else {
      Pow2Of8();
      ValueTrues(8, 0);
      assert Trues(8) + Zeros(0) == Trues(8);
      BitsOfValue(Trues(8));
      hide Bits, Value, Pow2;
    }
  }

  lemma Uniform(b: Byte, bit: bool)
    requires forall i :: 0 <= i < 8 ==> Bits(b, 8)[i] != bit
    ensures b == SkipByte(bit)
  {
    Pow2Of8();
    ValueOfBits(b, 8);
    if bit {
      assert Bits(b, 8) == Zeros(8);
      ValueZeros(8);
    } else {
      assert Bits(b, 8) == Trues(8) + Zeros(0);
      ValueTrues(8, 0);
    }
    hide Bits, Value, Pow2;
  }

  /** No such bit before position 8i. */
  ghost predicate Skipped(p: Bytes, i: nat, bit: bool) { Find(p, 0, 8 * i, bit) == None }

  lemma SkipOne(p: Bytes, i: nat, bit: bool)
    requires i < |p| && Skipped(p, i, bit) && p[i] == SkipByte(bit)
    ensures Skipped(p, i + 1, bit)
  {
    hide *;
    SkipFind(p, i, bit);
    SkipJoin(p, i, bit);
  }

  lemma SkipFind(p: Bytes, i: nat, bit: bool)
    requires i < |p| && p[i] == SkipByte(bit)
    ensures Find(p, 8 * i, 8, bit) == None
  {
    hide Find, BitAt, ByteBit, SkipByte;
    SkipByteBits(p[i], bit);
    forall j | 0 <= j < 8 ensures BitAt(p, 8 * i, j) != bit { BitOfByte(p, i, j); }
    FindNone(p, 8 * i, 8, bit);
  }

  lemma SkipJoin(p: Bytes, i: nat, bit: bool)
    requires Skipped(p, i, bit) && Find(p, 8 * i, 8, bit) == None
    ensures Skipped(p, i + 1, bit)
  {
    hide Find;
    FindJoin(p, 0, 8 * i, 8, bit);
    assert 8 * (i + 1) == 8 * i + 8;
  }

  /** The bits of a byte, first bit first. */
  function ByteBits(b: Byte): (s: seq<bool>)
    ensures |s| == 8
  {
    seq(8, j requires 0 <= j < 8 => ByteBit(b, j))
  }

  /** The next eight bytes as one word, padded with zeros on the right; first bit most significant. */
  method LoadWord(p: Bytes, i: nat) returns (word: seq<bool>)
    requires i <= |p|
    ensures word == Window(p, 8 * i, 64)
  {
    hide ByteBits, Window;
    word := Zeros(64);
    var c := i;
    WindowNone(p, 8 * i);
    for j := 0 to 8
      invariant c == (if i + j <= |p| then i + j else |p|)
      invariant |word| == 64 && word == Zeros(64 - 8 * j) + Window(p, 8 * i, 8 * j)
    {
      WindowByte(p, i, j);
      ghost var so := Window(p, 8 * i, 8 * j);
      ShiftIn(64 - 8 * j, so, Zeros(8));
      word := word[8..] + Zeros(8);
      if c < |p| {
        ShiftIn(64 - 8 * j, so, ByteBits(p[c]));
        assert word[..56] == (Zeros(64 - 8 * j) + so)[8..];
        word := word[..56] + ByteBits(p[c]);
        c := c + 1;
      }
    }
    assert Zeros(0) == [];
  }

  lemma ShiftIn(k: nat, w: seq<bool>, b: seq<bool>)
    requires k >= 8
    ensures (Zeros(k) + w)[8..] + b == Zeros(k - 8) + (w + b)
  {}

  lemma WindowNone(p: Bytes, o: nat)
    ensures Window(p, o, 0) == []
  {}

  lemma WindowByte(p: Bytes, i: nat, j: nat)
    requires i <= |p|
    ensures Window(p, 8 * i, 8 * (j + 1)) == Window(p, 8 * i, 8 * j) + (if i + j < |p| then ByteBits(p[i + j]) else Zeros(8))
  {
    hide ByteBit;
    var a := Window(p, 8 * i, 8 * (j + 1));
    var b := Window(p, 8 * i, 8 * j) + (if i + j < |p| then ByteBits(p[i + j]) else Zeros(8));
    forall k | 0 <= k < 8 * (j + 1) ensures a[k] == b[k] {
      assert (8 * i + k) / 8 == i + k / 8 && (8 * i + k) % 8 == k % 8;
    }
  }

  method WordSkips(p: Bytes, i: nat, bit: bool) returns (skips: bool)
    requires i + 8 <= |p|
    ensures skips <==> forall k :: i <= k < i + 8 ==> p[k] == SkipByte(bit)
  {
    hide SkipByte;
    skips := p[i..i + 8] == seq(8, _ => SkipByte(bit));
    if skips {
      assert forall k :: i <= k < i + 8 ==> p[k] == p[i..i + 8][k - i];
    }
  }

  lemma SkipEight(p: Bytes, i: nat, bit: bool)
    requires i + 8 <= |p| && Skipped(p, i, bit) && forall k :: i <= k < i + 8 ==> p[k] == SkipByte(bit)
    ensures Skipped(p, i + 8, bit)
  {
    hide SkipByte, Skipped;
    for k := 0 to 8
      invariant Skipped(p, i + k, bit)
    {
      SkipOne(p, i + k, bit);
    }
  }

  /** What redisBitpos returns: past the end for a clear bit, -1 for a set one, if there is none. */
  function Bitpos(p: Bytes, bit: bool): (pos: int) {
    match Find(p, 0, 8 * |p|, bit)
    case Some(i) => i
    case None => if bit then -1 else 8 * |p|
  }

  lemma NothingSkipped(p: Bytes, bit: bool)
    ensures Skipped(p, 0, bit)
  {}

  /** One of the next eight bytes holds such a bit. */
  ghost predicate Stops(p: Bytes, i: nat, bit: bool) {
    exists k :: i <= k < i + 8 && k < |p| && p[k] != SkipByte(bit)
  }

  /** The word loaded has such a bit, so scanning it ends. */
  lemma SomeBit(p: Bytes, i: nat, bit: bool) returns (j: nat)
    requires i <= |p| && (Stops(p, i, bit) || (!bit && |p| < i + 8))
    ensures j < 64 && Window(p, 8 * i, 64)[j] == bit
  {
    hide Window, BitAt, ByteBit;
    if Stops(p, i, bit) {
      var k :| i <= k < i + 8 && k < |p| && p[k] != SkipByte(bit);
      hide SkipByte;
      SkipByteBits(p[k], bit);
      var b :| 0 <= b < 8 && ByteBit(p[k], b) == bit;
      BitOfByte(p, k, b);
      j := 8 * (k - i) + b;
      BitShift(p, 8 * i, 8 * (k - i), b);
      assert 8 * i + 8 * (k - i) == 8 * k;
    } else {
      j := 8 * (|p| - i);
      PastEnd(p, i, j);
    }
    WindowIs(p, 8 * i, 64, j);
  }

  lemma NotZero(p: Bytes, i: nat)
    requires i <= |p| && Stops(p, i, true)
    ensures Window(p, 8 * i, 64) != Zeros(64)
  {
    hide Window, Stops;
    var j := SomeBit(p, i, true);
  }

  lemma WindowIs(p: Bytes, o: nat, n: nat, j: nat)
    requires j < n
    ensures Window(p, o, n)[j] == BitAt(p, o, j)
  {}

  lemma RestNone(p: Bytes, i: nat, bit: bool)
    requires i <= |p| && Skipped(p, i, bit) && Find(p, 8 * i, 8 * (|p| - i), bit) == None
    ensures Bitpos(p, bit) == if bit then -1 else 8 * |p|
  {
    hide Find;
    FindJoin(p, 0, 8 * i, 8 * (|p| - i), bit);
    assert 8 * i + 8 * (|p| - i) == 8 * |p|;
  }

  /** An all-zero last word: there is no set bit at all. */
  lemma AllZero(p: Bytes, i: nat)
    requires i <= |p| && |p| < i + 8 && Skipped(p, i, true) && Window(p, 8 * i, 64) == Zeros(64)
    ensures Bitpos(p, true) == -1
  {
    hide Find, Bitpos, Skipped, Window, BitAt;
    var n := 8 * (|p| - i);
    forall j | 0 <= j < n ensures BitAt(p, 8 * i, j) != true { WindowIs(p, 8 * i, 64, j); }
    FindNone(p, 8 * i, n, true);
    RestNone(p, i, true);
  }

  /** The first such bit of the word is the answer, also when it is the padding just past the end. */
  lemma FoundAt(p: Bytes, i: nat, bit: bool, k: nat)
    requires i <= |p| && Skipped(p, i, bit) && k < 64 && Window(p, 8 * i, 64)[k] == bit
    requires forall j :: 0 <= j < k ==> Window(p, 8 * i, 64)[j] != bit
    ensures Bitpos(p, bit) == 8 * i + k
  {
    hide Find, Window, BitAt;
    var n := 8 * (|p| - i);
    forall j | 0 <= j <= k ensures BitAt(p, 8 * i, j) == Window(p, 8 * i, 64)[j] { WindowIs(p, 8 * i, 64, j); }
    if k < n {
      FindUnique(p, 8 * i, n, bit, k);
      FindJoin(p, 0, 8 * i, n, bit);
      assert 8 * i + n == 8 * |p|;
    } else {
      FindNone(p, 8 * i, n, bit);
      RestNone(p, i, bit);
      PastEnd(p, i, n);
      PastEnd(p, i, k);
      assert Window(p, 8 * i, 64)[n] == false;
    }
  }

  lemma PastEnd(p: Bytes, i: nat, j: nat)
    requires i <= |p| && j >= 8 * (|p| - i)
    ensures !BitAt(p, 8 * i, j)
  {}

  /** redisBitpos on the bytes `p`, whose address is `align` modulo 8. The panic at its end is never reached. */
  method RedisBitpos(p: Bytes, align: nat, bit: bool) returns (pos: int, panics: bool)
    ensures !panics && pos == Bitpos(p, bit)
  {
    hide SkipByte, Skipped, Bitpos, Window;
    panics := false;
    var found, i := false, 0;
    NothingSkipped(p, bit);
    while (align + i) % 8 != 0 && i < |p|
      invariant 0 <= i <= |p| && Skipped(p, i, bit) && !found
      decreases |p| - i
    {
      if p[i] != SkipByte(bit) {
        assert Stops(p, i, bit);
        found := true;
        break;
      }
      SkipOne(p, i, bit);
      i := i + 1;
    }
    if !found {
      while |p| - i >= 8
        invariant 0 <= i <= |p| && Skipped(p, i, bit) && !found
        decreases |p| - i
      {
        var skips := WordSkips(p, i, bit);
        if !skips {
          assert Stops(p, i, bit);
          found := true;
          break;
        }
        SkipEight(p, i, bit);
        i := i + 8;
      }
    }
    var word := LoadWord(p, i);
    if bit && word == Zeros(64) {
      if found { NotZero(p, i); }
      AllZero(p, i);
      return -1, false;
    }
    ghost var hit: nat;
    if bit {
      hit :| hit < 64 && word[hit];
    } else {
      hit := SomeBit(p, i, bit);
    }
    for k := 0 to 64
      invariant k <= hit && forall j :: 0 <= j < k ==> word[j] != bit
    {
      if word[k] == bit {
        FoundAt(p, i, bit, k);
        return 8 * i + k, false;
      }
    }
    panics := true;
  }

  // ----- BITPOS -----

  /**
   * The answer for `n` bits from `o` on: the position of the first such bit. If there is none,
   * -1; but a clear bit with no explicit end is found just past the range.
   */
  function Answer(p: Bytes, o: nat, n: nat, bit: bool, endGiven: bool): (pos: int) {
    match Find(p, o, n, bit)
    case Some(i) => o + i
    case None => if bit || endGiven then -1 else o + n
  }

  lemma AnswerHit(p: Bytes, o: nat, m: nat, n: nat, bit: bool, endGiven: bool)
    requires m <= n && Find(p, o, m, bit).Some?
    ensures Answer(p, o, n, bit, endGiven) == o + Find(p, o, m, bit).value
  {
    hide Find;
    FindJoin(p, o, m, n - m, bit);
  }

  lemma AnswerMiss(p: Bytes, o: nat, m: nat, n: nat, bit: bool, endGiven: bool)
    requires m <= n && Find(p, o, m, bit) == None
    ensures Answer(p, o, n, bit, endGiven) == Answer(p, o + m, n - m, bit, endGiven)
  {
    hide Find;
    FindJoin(p, o, m, n - m, bit);
  }

  /** A byte with the bits outside a range replaced by ones that are not searched for. */
  ghost predicate Edge(x: Byte, t: Byte, k: nat, m: nat, bit: bool) {
    forall j :: 0 <= j < 8 ==> ByteBit(t, j) == if k <= j < k + m then ByteBit(x, j) else !bit
  }

  lemma EdgeFind(p: Bytes, s: nat, t: Byte, k: nat, m: nat, bit: bool)
    requires s < |p| && k + m <= 8 && Edge(p[s], t, k, m, bit)
    ensures Find([t], 0, 8, bit) == Plus(Find(p, 8 * s + k, m, bit), k)
  {
    hide Find, BitAt, ByteBit;
    var o := 8 * s + k;
    forall j | 0 <= j < 8 ensures BitAt([t], 0, j) == ByteBit(t, j) { BitOfByte([t], 0, j); }
    FindNone([t], 0, k, bit);
    forall j | 0 <= j < m ensures BitAt([t], k, j) == BitAt(p, o, j) {
      BitShift([t], 0, k, j);
      BitShift(p, 8 * s, k, j);
      BitOfByte(p, s, k + j);
    }
    FindSame([t], k, p, o, m, bit);
    var e := k + m;
    forall j | 0 <= j < 8 - e ensures BitAt([t], e, j) != bit { BitShift([t], 0, e, j); }
    FindNone([t], e, 8 - e, bit);
    FindJoin([t], 0, k, m, bit);
    FindJoin([t], 0, e, 8 - e, bit);
  }

  /** Masks the edges of a byte off, as the command does. */
  function Mask(x: Byte, m: int, bit: bool): (t: Byte)
    requires 0 <= m < 256
  {
    if bit then AndNot(x, m) else OrByte(x, m)
  }

  lemma MaskFirst(x: Byte, k: nat, bit: bool)
    requires k < 8
    ensures 0 <= TopMask(k) < 256 && Edge(x, Mask(x, TopMask(k), bit), k, 8 - k, bit)
  {
    hide ByteBit, TopMask, AndNot, OrByte;
    TopBit(k, 0);
    forall j | 0 <= j < 8
      ensures ByteBit(Mask(x, TopMask(k), bit), j) == if k <= j < 8 then ByteBit(x, j) else !bit
    {
      TopBit(k, j);
      MaskedBits(x, TopMask(k), j);
    }
  }

  /** The last `n` bits masked off a byte that may have its first ones masked already. */
  lemma MaskLast(x: Byte, y: Byte, k: nat, n: nat, bit: bool)
    requires k + n < 8 && Edge(x, y, k, 8 - k, bit)
    ensures 0 <= LowMask(n) < 256 && Edge(x, Mask(y, LowMask(n), bit), k, 8 - n - k, bit)
  {
    hide ByteBit, LowMask, AndNot, OrByte;
    LowBit(n, 0);
    forall j | 0 <= j < 8
      ensures ByteBit(Mask(y, LowMask(n), bit), j) == if k <= j < 8 - n then ByteBit(x, j) else !bit
    {
      LowBit(n, j);
      MaskedBits(y, LowMask(n), j);
    }
  }

  lemma NoEdge(x: Byte, bit: bool)
    ensures Edge(x, x, 0, 8, bit)
  {}

  lemma EmptyMasks(k: nat)
    requires k < 8
    ensures TopMask(k) == 0 <==> k == 0
    ensures LowMask(k) == 0 <==> k == 0
  {
    if k > 0 {
      TopBit(k, 0);
      LowBit(k, 7);
      ZeroBit(0);
      ZeroBit(7);
      hide TopMask, LowMask, ByteBit;
    } else {
      Pow2Of8();
      assert Pow2(0) == 1;
      hide Pow2;
    }
  }

  /** The last lines of the command: `pos` is relative to byte `start`, with `bytes` bytes left. */
  function Finish(pos: int, start: nat, bytes: nat, bit: bool, endGiven: bool): (r: int) {
    if endGiven && !bit && pos == 8 * bytes then -1 else if pos != -1 then pos + 8 * start else pos
  }

  lemma BitposOf(q: Bytes, bit: bool)
    ensures Bitpos(q, bit) == match Find(q, 0, 8 * |q|, bit) case Some(i) => i case None => if bit then -1 else 8 * |q|
    ensures Find(q, 0, 8 * |q|, bit).Some? ==> 0 <= Bitpos(q, bit) < 8 * |q|
  {
    FindIsLeast(q, 0, 8 * |q|, bit);
  }

  /** bitposCommand on a non-empty range of bits, `first` to `last`. */
  method SearchRange(p: Bytes, first: nat, last: nat, bit: bool, endGiven: bool) returns (r: int, panics: bool)
    requires first <= last < 8 * |p| && (!endGiven ==> first % 8 == 0 && last % 8 == 7)
    ensures !panics && r == Answer(p, first, last - first + 1, bit, endGiven)
  {
    hide Find, Answer, Bitpos, Edge, TopMask, LowMask, Mask, Finish;
    EmptyMasks(first % 8);
    EmptyMasks(7 - last % 8);
    TopBit(first % 8, 0);
    LowBit(7 - last % 8, 0);
    var firstMask, lastMask := TopMask(first % 8), LowMask(7 - last % 8);
    var start, end := first / 8, last / 8;
    var bytes := end - start + 1;
    var pos: int;
    var t: Byte;
    if firstMask != 0 {
      MaskFirst(p[start], first % 8, bit);
      t := Mask(p[start], firstMask, bit);
      if lastMask != 0 && bytes == 1 {
        MaskLast(p[start], t, first % 8, 7 - last % 8, bit);
        t := Mask(t, lastMask, bit);
      }
      pos, panics := RedisBitpos([t], 0, bit);
      FirstByte(p, first, last, t, bit, endGiven);
      if bytes == 1 || (pos != -1 && pos != 8) { return Finish(pos, start, bytes, bit, endGiven), panics; }
      start, bytes := start + 1, bytes - 1;
    }
    ghost var from := if first % 8 == 0 then first else 8 * start;
    assert from == 8 * start;
    var cur := bytes - (if lastMask != 0 then 1 else 0);
    if cur > 0 {
      pos, panics := RedisBitpos(p[start..start + cur], start, bit);
      WholeBytes(p, start, cur, last, bit, endGiven);
      if bytes == cur || (pos != -1 && pos != 8 * cur) { return Finish(pos, start, bytes, bit, endGiven), panics; }
      start, bytes := start + cur, bytes - cur;
    }
    NoEdge(p[end], bit);
    MaskLast(p[end], p[end], 0, 7 - last % 8, bit);
    t := Mask(p[end], lastMask, bit);
    pos, panics := RedisBitpos([t], 0, bit);
    LastByte(p, last, t, bit, endGiven);
    r := Finish(pos, start, bytes, bit, endGiven);
  }

  /** The first byte decides, or the search goes on at the next one. */
  lemma FirstByte(p: Bytes, first: nat, last: nat, t: Byte, bit: bool, endGiven: bool)
    requires first <= last < 8 * |p| && first % 8 != 0 && endGiven
    requires var m := if first / 8 == last / 8 then last - first + 1 else 8 - first % 8;
             Edge(p[first / 8], t, first % 8, m, bit)
    ensures var pos, s, bytes := Bitpos([t], bit), first / 8, last / 8 - first / 8 + 1;
            if bytes == 1 || (pos != -1 && pos != 8)
            then Finish(pos, s, bytes, bit, endGiven) == Answer(p, first, last - first + 1, bit, endGiven)
            else Answer(p, 8 * (s + 1), last - 8 * (s + 1) + 1, bit, endGiven) == Answer(p, first, last - first + 1, bit, endGiven)
  {
    hide Find, Edge, Answer, Bitpos;
    var s, k := first / 8, first % 8;
    var m := if s == last / 8 then last - first + 1 else 8 - k;
    EdgeFind(p, s, t, k, m, bit);
    BitposOf([t], bit);
    assert 8 * s + k == first;
    var n := last - first + 1;
    if Find(p, first, m, bit).Some? {
      AnswerHit(p, first, m, n, bit, endGiven);
    } else {
      AnswerMiss(p, first, m, n, bit, endGiven);
      if m == n { NothingLeft(p, first + m, bit, endGiven); }
    }
  }

  lemma NothingLeft(p: Bytes, o: nat, bit: bool, endGiven: bool)
    ensures Answer(p, o, 0, bit, endGiven) == if bit || endGiven then -1 else o
  {}

  /** The whole bytes in the middle decide, or the search goes on at the last one. */
  lemma WholeBytes(p: Bytes, s: nat, cur: nat, last: nat, bit: bool, endGiven: bool)
    requires cur > 0 && 8 * s <= last < 8 * |p| && (!endGiven ==> last % 8 == 7)
    requires s + cur == last / 8 + (if last % 8 == 7 then 1 else 0)
    ensures var pos, bytes := Bitpos(p[s..s + cur], bit), last / 8 - s + 1;
            if bytes == cur || (pos != -1 && pos != 8 * cur)
            then Finish(pos, s, bytes, bit, endGiven) == Answer(p, 8 * s, last - 8 * s + 1, bit, endGiven)
            else Answer(p, 8 * (s + cur), last - 8 * (s + cur) + 1, bit, endGiven) == Answer(p, 8 * s, last - 8 * s + 1, bit, endGiven)
  {
    hide Find, Answer, Bitpos;
    var q, n := p[s..s + cur], last - 8 * s + 1;
    SliceFind(p, s, s + cur, bit);
    BitposOf(q, bit);
    var m := 8 * cur;
    if Find(p, 8 * s, m, bit).Some? {
      AnswerHit(p, 8 * s, m, n, bit, endGiven);
    } else {
      AnswerMiss(p, 8 * s, m, n, bit, endGiven);
      if m == n { NothingLeft(p, 8 * s + m, bit, endGiven); }
    }
  }

  lemma SliceFind(p: Bytes, i: nat, j: nat, bit: bool)
    requires i <= j <= |p|
    ensures Find(p[i..j], 0, 8 * (j - i), bit) == Find(p, 8 * i, 8 * (j - i), bit)
  {
    hide Find, ByteBit;
    forall m | 0 <= m < 8 * (j - i) ensures BitAt(p[i..j], 0, m) == BitAt(p, 8 * i, m) {
      assert (8 * i + m) / 8 == i + m / 8 && (8 * i + m) % 8 == m % 8;
    }
    FindSame(p[i..j], 0, p, 8 * i, 8 * (j - i), bit);
  }

  lemma LastByte(p: Bytes, last: nat, t: Byte, bit: bool, endGiven: bool)
    requires last < 8 * |p| && endGiven && Edge(p[last / 8], t, 0, last % 8 + 1, bit)
    ensures Finish(Bitpos([t], bit), last / 8, 1, bit, endGiven) == Answer(p, 8 * (last / 8), last % 8 + 1, bit, endGiven)
  {
    hide Find, Edge, Answer, Bitpos;
    var e, n := last / 8, last % 8 + 1;
    EdgeFind(p, e, t, 0, n, bit);
    BitposOf([t], bit);
    if Find(p, 8 * e, n, bit).Some? {
      AnswerHit(p, 8 * e, n, n, bit, endGiven);
    } else {
      AnswerMiss(p, 8 * e, n, n, bit, endGiven);
      NothingLeft(p, 8 * e + n, bit, endGiven);
    }
  }

  /** The bits a range denotes: (first, how many). Without an end it reaches to the end of the string. */
  function PosRange(len: nat, start: int, end: Option<int>, isbit: bool): (r: (nat, nat)) {
    var total := if isbit then 8 * len else len;
    var s := Clamp(start, total);
    var last := if end.None? || Clamp(end.value, total) >= total then total - 1 else Clamp(end.value, total);
    if s > last then (0, 0)
    else if isbit then (s, last - s + 1)
    else (8 * s, 8 * (last - s + 1))
  }

  /** Bit `i` of a string of `len` bytes is one BITPOS looks at. */
  predicate Searched(len: nat, start: int, end: Option<int>, isbit: bool, i: nat) {
    InRange(len, start, if end.Some? then end.value else -1, isbit, i)
  }

  ghost predicate Hit(p: Bytes, bit: bool, start: int, end: Option<int>, isbit: bool, i: nat) {
    Searched(|p|, start, end, isbit, i) && Bit(p, i) == bit
  }

  /**
   * The reply: the first bit searched that is `bit`. If there is none, the bit after the string for a clear bit
   * with no end given and anything at all to search, and -1 otherwise.
   */
  ghost predicate Found(p: Bytes, bit: bool, start: int, end: Option<int>, isbit: bool, r: int) {
    if exists i: nat :: Hit(p, bit, start, end, isbit, i)
    then r >= 0 && Hit(p, bit, start, end, isbit, r) && forall i: nat :: Hit(p, bit, start, end, isbit, i) ==> r <= i
    else if !bit && end.None? && exists i: nat :: Searched(|p|, start, end, isbit, i) then r == 8 * |p|
    else r == -1
  }

  /** Which bits `PosRange` denotes, one by one. */
  lemma PosRangeExactly(len: nat, start: int, end: Option<int>, isbit: bool, i: nat)
    ensures var (o, n) := PosRange(len, start, end, isbit); o <= i < o + n <==> Searched(len, start, end, isbit, i)
  {}

  lemma PosRangeEnd(len: nat, start: int, isbit: bool)
    ensures var (o, n) := PosRange(len, start, None, isbit); n > 0 ==> o + n == 8 * len
  {}

  /** `Answer` on the positions themselves. */
  lemma AnswerFirst(p: Bytes, o: nat, n: nat, bit: bool, endGiven: bool)
    ensures var r := Answer(p, o, n, bit, endGiven);
            if exists i :: o <= i < o + n && Bit(p, i) == bit
            then o <= r < o + n && Bit(p, r) == bit && forall i :: o <= i < r ==> Bit(p, i) != bit
            else r == if bit || endGiven then -1 else o + n
  {
    hide Bit, Find;
    FindIsLeast(p, o, n, bit);
    match Find(p, o, n, bit)
    case Some(f) =>
      assert BitAt(p, o, f) == Bit(p, o + f);
      forall i | o <= i < o + f ensures Bit(p, i) != bit { assert BitAt(p, o, i - o) != bit; }
    case None =>
      forall i | o <= i < o + n ensures Bit(p, i) != bit { assert BitAt(p, o, i - o) != bit; }
  }

  lemma AnswerExactly(p: Bytes, bit: bool, start: int, end: Option<int>, isbit: bool)
    ensures var (o, n) := PosRange(|p|, start, end, isbit);
            Found(p, bit, start, end, isbit, if n == 0 then -1 else Answer(p, o, n, bit, end.Some?))
  {
    var (o, n) := PosRange(|p|, start, end, isbit);
    forall i: nat ensures o <= i < o + n <==> Searched(|p|, start, end, isbit, i) {
      PosRangeExactly(|p|, start, end, isbit, i);
    }
    PosRangeEnd(|p|, start, isbit);
    hide *;
    AnswerFirst(p, o, n, bit, end.Some?);
    FoundBy(p, bit, start, end, isbit, o, n, if n == 0 then -1 else Answer(p, o, n, bit, end.Some?));
  }

  lemma FoundBy(p: Bytes, bit: bool, start: int, end: Option<int>, isbit: bool, o: nat, n: nat, r: int)
    requires forall i: nat :: o <= i < o + n <==> Searched(|p|, start, end, isbit, i)
    requires if exists i :: o <= i < o + n && Bit(p, i) == bit
             then o <= r < o + n && Bit(p, r) == bit && forall i :: o <= i < r ==> Bit(p, i) != bit
             else r == if n == 0 || bit || end.Some? then -1 else o + n
    requires n > 0 && end.None? ==> o + n == 8 * |p|
    ensures Found(p, bit, start, end, isbit, r)
  {
    hide Searched, Bit;
    if i :| o <= i < o + n && Bit(p, i) == bit {
      assert Hit(p, bit, start, end, isbit, r);
    } else if n > 0 {
      assert Searched(|p|, start, end, isbit, o);
    }
  }

  /** bitposCommand after parsing: a missing key is an infinite string of clear bits. */
  method BitposCommand(key: Option<Bytes>, bit: bool, start: int, end: Option<int>, isbit: bool) returns (r: int, panics: bool)
    requires isbit ==> end.Some?
    ensures !panics
    ensures if key.None? then r == (if bit then -1 else 0) else Found(key.value, bit, start, end, isbit, r)
  {
    if key.None? { return if bit then -1 else 0, false; }
    r, panics := SearchString(key.value, bit, start, end, isbit);
    AnswerExactly(key.value, bit, start, end, isbit);
  }

  /** The string at an existing key; a unit can only be given together with an end. */
  method SearchString(p: Bytes, bit: bool, start: int, end: Option<int>, isbit: bool) returns (r: int, panics: bool)
    requires isbit ==> end.Some?
    ensures !panics
    ensures var (o, n) := PosRange(|p|, start, end, isbit); r == if n == 0 then -1 else Answer(p, o, n, bit, end.Some?)
  {
    hide Answer;
    var total := if isbit then 8 * |p| else |p|;
    var s, e := start, if end.Some? then end.value else total - 1;
    if s < 0 { s := total + s; }
    if e < 0 { e := total + e; }
    if s < 0 { s := 0; }
    if e < 0 { e := 0; }
    if e >= total { e := total - 1; }
    if s > e { return -1, false; }
    if isbit {
      r, panics := SearchRange(p, s, e, bit, end.Some?);
    } else {
      r, panics := SearchRange(p, 8 * s, 8 * e + 7, bit, end.Some?);
    }
  }
}
