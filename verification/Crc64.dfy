/**
 * CRC64 (crc64.c, crcspeed.c): the bit-by-bit reference routine, the generated slice-by-8
 * tables and the little- and big-endian fast routines that use them.
 *
 * All of them are proved against `Crc`, which shifts the message into a reflected register one
 * bit at a time. `Feed` (clocking in zero bits) is linear over GF(2) and injective; the fast
 * routines and the error-detection results follow from those two facts.
 */
module Crc64 {
  import opened Words

  const POLY: Word := Bits(0xad93d23594c935a9, 64)

  /** One zero bit clocked into the reflected register. */
  function Step(c: Word): (r: Word) {
    if c[0] then Xor(ShiftRight(c, 1), Reverse(POLY)) else ShiftRight(c, 1)
  }

  function Feed(n: nat, c: Word): (r: Word) {
    if n == 0 then c else Feed(n - 1, Step(c))
  }

  /** The register after the message bits `s`. */
  function CrcBits(c: Word, s: seq<bool>): (r: Word) {
    if s == [] then c
    else Step(Xor(CrcBits(c, s[..|s| - 1]), Extend([s[|s| - 1]])))
  }

  /** The bits of a byte string in transmission order: low bit of each byte first. */
  function Message(data: seq<Byte>): (s: seq<bool>)
    ensures |s| == 8 * |data|
  {
    if data == [] then [] else Message(data[..|data| - 1]) + Bits(data[|data| - 1], 8)
  }

  function Crc(c: Word, data: seq<Byte>): (r: Word) { CrcBits(c, Message(data)) }

  // ----- Linearity and injectivity -----

  lemma XorLaws(x: Word, y: Word, p: Word)
    ensures Xor(Xor(x, p), Xor(y, p)) == Xor(x, y)
    ensures Xor(Xor(x, y), p) == Xor(Xor(x, p), y) == Xor(x, Xor(y, p))
  {}

  lemma XorParts(a: Word, b: Word)
    ensures ShiftRight(Xor(a, b), 1) == Xor(ShiftRight(a, 1), ShiftRight(b, 1))
    ensures Xor(a, b)[0] == (a[0] != b[0])
  {}

  lemma StepLinear(a: Word, b: Word)
    ensures Step(Xor(a, b)) == Xor(Step(a), Step(b))
  {
    hide Bits, Xor, ShiftRight, Reverse;
    XorParts(a, b);
    XorLaws(ShiftRight(a, 1), ShiftRight(b, 1), Reverse(POLY));
  }

  lemma {:induction false} FeedLinear(n: nat, a: Word, b: Word)
    ensures Feed(n, Xor(a, b)) == Xor(Feed(n, a), Feed(n, b))
  {
    hide Step, Xor;
    if n != 0 {
      StepLinear(a, b);
      FeedLinear(n - 1, Step(a), Step(b));
    }
  }

  lemma LowBitOfBits(n: nat, len: nat)
    requires len > 0
    ensures Bits(n, len)[0] == (n % 2 == 1)
  {}

  lemma PolyIsOdd()
    ensures POLY[0]
  {
    hide Bits;
    LowBitOfBits(0xad93d23594c935a9, 64);
  }

  lemma StepInjective(a: Word, b: Word)
    requires Step(a) == Step(b)
    ensures a == b
  {
    hide Bits;
    PolyIsOdd();
    assert a[0] == Step(a)[63] && b[0] == Step(b)[63];
    forall i | 1 <= i < 64 ensures a[i] == b[i] {
      assert Step(a)[i - 1] == Step(b)[i - 1];
      assert ShiftRight(a, 1)[i - 1] == a[i];
      assert ShiftRight(b, 1)[i - 1] == b[i];
    }
  }

  lemma {:induction false} FeedInjective(n: nat, a: Word, b: Word)
    requires Feed(n, a) == Feed(n, b)
    ensures a == b
  {
    hide Step;
    if n != 0 {
      FeedInjective(n - 1, Step(a), Step(b));
      StepInjective(a, b);
    }
  }

  lemma {:induction false} FeedSplit(m: nat, n: nat, c: Word)
    ensures Feed(m + n, c) == Feed(n, Feed(m, c))
  {
    hide Step;
    if m != 0 { FeedSplit(m - 1, n, Step(c)); }
  }

  /** Feeding `k` bits undoes a shift by `k`. */
  lemma {:induction false} FeedShiftLeft(y: Word, k: nat)
    requires k <= 64
    requires forall i :: 64 - k <= i < 64 ==> !y[i]
    ensures Feed(k, ShiftLeft(y, k)) == y
  {
    hide Bits;
    if k != 0 {
      assert Step(ShiftLeft(y, k)) == ShiftLeft(y, k - 1);
      FeedShiftLeft(y, k - 1);
    }
  }

  // ----- Absorbing up to one word of message at once -----

  lemma {:induction false} CrcBitsAppend(c: Word, s: seq<bool>, t: seq<bool>)
    ensures CrcBits(c, s + t) == CrcBits(CrcBits(c, s), t)
  {
    hide Bits, Step, Xor, Extend;
    if t == [] {
      assert s + t == s;
    } else {
      var t' := t[..|t| - 1];
      assert (s + t)[..|s + t| - 1] == s + t';
      CrcBitsAppend(c, s, t');
    }
  }

  lemma ExtendSnoc(c: Word, t: seq<bool>, b: bool)
    requires |t| < 64
    ensures Xor(Xor(c, Extend(t)), ShiftLeft(Extend([b]), |t|)) == Xor(c, Extend(t + [b]))
  {}

  lemma FeedThenBit(n: nat, x: Word, bit: Word)
    requires n <= 64 && Feed(n, ShiftLeft(bit, n)) == bit
    ensures Step(Xor(Feed(n, x), bit)) == Feed(n + 1, Xor(x, ShiftLeft(bit, n)))
  {
    hide Bits, Step, Xor, ShiftLeft;
    var y := Xor(x, ShiftLeft(bit, n));
    FeedLinear(n, x, ShiftLeft(bit, n));
    FeedSplit(n, 1, y);
    assert Feed(1, Feed(n, y)) == Feed(0, Step(Feed(n, y)));
  }

  /** Up to 64 message bits can be xored in together and then clocked through. */
  lemma {:induction false} Absorb(c: Word, s: seq<bool>)
    requires |s| <= 64
    ensures CrcBits(c, s) == Feed(|s|, Xor(c, Extend(s)))
  {
    hide Bits, Step;
    if s == [] {
      assert Xor(c, Extend(s)) == c;
    } else {
      var n := |s| - 1;
      var t, bit := s[..n], Extend([s[n]]);
      FeedShiftLeft(bit, n);
      hide Xor, Extend, ShiftLeft, Feed;
      Absorb(c, t);
      ExtendSnoc(c, t, s[n]);
      assert t + [s[n]] == s;
      FeedThenBit(n, Xor(c, Extend(t)), bit);
    }
  }

  lemma {:induction false} MessageAppend(s: seq<Byte>, t: seq<Byte>)
    ensures Message(s + t) == Message(s) + Message(t)
  {
    if t == [] {
      assert s + t == s;
    } else {
      var t' := t[..|t| - 1];
      assert (s + t)[..|s + t| - 1] == s + t';
      MessageAppend(s, t');
    }
  }

  lemma CrcAppend(c: Word, s: seq<Byte>, t: seq<Byte>)
    ensures Crc(c, s + t) == Crc(Crc(c, s), t)
  {
    MessageAppend(s, t);
    CrcBitsAppend(c, Message(s), Message(t));
  }

  lemma CrcEmpty(c: Word)
    ensures Crc(c, []) == c
  {}

  lemma CrcPrefix(c: Word, data: seq<Byte>, i: nat, j: nat)
    requires i <= j <= |data|
    ensures Crc(c, data[..j]) == Crc(Crc(c, data[..i]), data[i..j])
  {
    assert data[..j] == data[..i] + data[i..j];
    CrcAppend(c, data[..i], data[i..j]);
  }

  lemma CrcByte(c: Word, b: Byte)
    ensures Crc(c, [b]) == Feed(8, Xor(c, ByteWord(b)))
  {
    assert [b][..0] == [];
    assert Message([b]) == Bits(b, 8);
    hide Step;
    Absorb(c, Bits(b, 8));
  }

  lemma CrcWord(c: Word, data: seq<Byte>)
    requires |data| == 8
    ensures Crc(c, data) == Feed(64, Xor(c, Message(data)))
  {
    Absorb(c, Message(data));
    assert Extend(Message(data)) == Message(data);
  }

  // ----- The bit-by-bit reference routine -----

  /** One message bit in the unreflected register of the reference routine. */
  function ReferenceBit(crc: Word, b: bool): (r: Word) {
    if crc[63] != b then Xor(ShiftLeft(crc, 1), POLY) else ShiftLeft(crc, 1)
  }

  function ReferenceBits(crc: Word, s: seq<bool>): (r: Word) {
    if s == [] then crc else ReferenceBit(ReferenceBits(crc, s[..|s| - 1]), s[|s| - 1])
  }

  lemma ReverseXor(a: Word, b: Word)
    ensures Reverse(Xor(a, b)) == Xor(Reverse(a), Reverse(b))
  {}

  lemma ReverseShift(a: Word, b: bool)
    ensures Reverse(ShiftLeft(a, 1)) == ShiftRight(Xor(Reverse(a), Extend([b])), 1)
  {}

  lemma LowBit(a: Word, b: bool)
    ensures Xor(Reverse(a), Extend([b]))[0] == (a[63] != b)
  {}

  lemma ReverseReferenceBit(crc: Word, b: bool)
    ensures Reverse(ReferenceBit(crc, b)) == Step(Xor(Reverse(crc), Extend([b])))
  {
    hide Bits, Reverse, Xor, ShiftLeft, ShiftRight, Extend;
    LowBit(crc, b);
    ReverseShift(crc, b);
    ReverseXor(ShiftLeft(crc, 1), POLY);
  }

  /** The reference register is the mirror image of the reflected one, for every message. */
  lemma {:induction false} ReferenceIsCrc(crc: Word, s: seq<bool>)
    ensures Reverse(ReferenceBits(crc, s)) == CrcBits(Reverse(crc), s)
  {
    hide Step, Xor, Extend, Reverse, ReferenceBit;
    if s != [] {
      ReferenceIsCrc(crc, s[..|s| - 1]);
      ReverseReferenceBit(ReferenceBits(crc, s[..|s| - 1]), s[|s| - 1]);
    }
  }

  lemma {:induction false} ReferenceBitsAppend(crc: Word, s: seq<bool>, t: seq<bool>)
    ensures ReferenceBits(crc, s + t) == ReferenceBits(ReferenceBits(crc, s), t)
  {
    hide ReferenceBit;
    if t == [] {
      assert s + t == s;
    } else {
      assert (s + t)[..|s + t| - 1] == s + t[..|t| - 1];
      ReferenceBitsAppend(crc, s, t[..|t| - 1]);
    }
  }

  method CrcReflect(x: Word) returns (ret: Word)
    ensures ret == Reverse(x)
  {
    var data := x;
    ret := Extend([data[0]]);
    for i := 1 to 64
      invariant data == ShiftRight(x, i - 1)
      invariant forall k :: 0 <= k < i ==> ret[k] == x[i - 1 - k]
    {
      data := ShiftRight(data, 1);
      ret := Or(ShiftLeft(ret, 1), Extend([data[0]]));
    }
  }

  method ReferenceCrc64(initial: Word, data: seq<Byte>) returns (r: Word)
    ensures r == Reverse(ReferenceBits(initial, Message(data)))
    ensures r == Crc(Reverse(initial), data)
  {
    var crc := initial;
    for offset := 0 to |data|
      invariant crc == ReferenceBits(initial, Message(data[..offset]))
    {
      var c := Bits(data[offset], 8);
      ghost var start := crc;
      for i := 0 to 8
        invariant crc == ReferenceBits(start, c[..i])
      {
        assert c[..i + 1][..i] == c[..i];
        var bit := crc[63];
        if c[i] { bit := !bit; }
        crc := ShiftLeft(crc, 1);
        if bit { crc := Xor(crc, POLY); }
      }
      assert c[..8] == c;
      ReferenceBitsAppend(initial, Message(data[..offset]), c);
      assert data[..offset + 1][..offset] == data[..offset];
    }
    assert data[..|data|] == data;
    ReferenceIsCrc(initial, Message(data));
    r := CrcReflect(crc);
  }

  // ----- The slice-by-8 tables -----

  /** Table `k`, entry `n`: the byte `n` followed by `k` zero bytes. */
  function Entry(k: nat, n: Byte): (r: Word) { Feed(8 * (k + 1), ByteWord(n)) }

  ghost predicate IsTable(table: array2<Word>)
    reads table
  {
    && table.Length0 == 8 && table.Length1 == 256
    && forall k, n :: 0 <= k < 8 && 0 <= n < 256 ==> table[k, n] == Entry(k, n)
  }

  lemma LowByteWord(x: Word)
    ensures ByteWord(ByteAt(x, 0)) == Extend(x[..8])
    ensures x == Xor(ByteWord(ByteAt(x, 0)), ShiftLeft(ShiftRight(x, 8), 8))
  {
    BitsOfValue(x[..8]);
  }

  /** The low byte of a register can be fed on its own. */
  lemma PeelByte(n: nat, x: Word)
    requires n >= 8
    ensures Feed(n, x) == Xor(Feed(n, ByteWord(ByteAt(x, 0))), Feed(n - 8, ShiftRight(x, 8)))
  {
    var low, high := ByteWord(ByteAt(x, 0)), ShiftRight(x, 8);
    LowByteWord(x);
    FeedShiftLeft(high, 8);
    hide Step, Xor, ByteWord, ByteAt, ShiftLeft, ShiftRight;
    FeedLinear(n, low, ShiftLeft(high, 8));
    FeedSplit(8, n - 8, ShiftLeft(high, 8));
  }

  /** The xor of the table entries for bytes `k..8` of `x`. */
  function Slices(x: Word, k: nat): (r: Word)
    requires k <= 8
    decreases 8 - k
  {
    if k == 8 then Zeros(64) else Xor(Entry(7 - k, ByteAt(x, k)), Slices(x, k + 1))
  }

  lemma ShiftedBytes(x: Word, k: nat)
    requires k < 8
    ensures ByteAt(ShiftRight(x, 8 * k), 0) == ByteAt(x, k)
    ensures ShiftRight(ShiftRight(x, 8 * k), 8) == ShiftRight(x, 8 * (k + 1))
  {
    assert ShiftRight(x, 8 * k)[0..8] == x[8 * k..8 * k + 8];
  }

  /** Slice-by-8: whole bytes of a register are fed by independent table lookups. */
  lemma {:induction false} SliceFeed(x: Word, k: nat)
    requires k <= 8
    ensures Feed(64 - 8 * k, ShiftRight(x, 8 * k)) == Slices(x, k)
    decreases 8 - k
  {
    if k < 8 {
      ShiftedBytes(x, k);
      hide Step, Xor, ShiftRight, ByteAt, ByteWord;
      PeelByte(64 - 8 * k, ShiftRight(x, 8 * k));
      SliceFeed(x, k + 1);
    }
  }

  lemma SliceBy8(x: Word)
    ensures Feed(64, x) ==
      Xor(Entry(7, ByteAt(x, 0)), Xor(Entry(6, ByteAt(x, 1)), Xor(Entry(5, ByteAt(x, 2)),
      Xor(Entry(4, ByteAt(x, 3)), Xor(Entry(3, ByteAt(x, 4)), Xor(Entry(2, ByteAt(x, 5)),
      Xor(Entry(1, ByteAt(x, 6)), Entry(0, ByteAt(x, 7)))))))))
  {
    assert ShiftRight(x, 0) == x;
    assert Xor(Entry(0, ByteAt(x, 7)), Zeros(64)) == Entry(0, ByteAt(x, 7));
    hide Step, Xor, ShiftRight, ByteAt, ByteWord, Entry;
    SliceFeed(x, 0);
    assert Slices(x, 7) == Entry(0, ByteAt(x, 7));
    assert Slices(x, 5) == Xor(Entry(2, ByteAt(x, 5)), Xor(Entry(1, ByteAt(x, 6)), Slices(x, 7)));
    assert Slices(x, 3) == Xor(Entry(4, ByteAt(x, 3)), Xor(Entry(3, ByteAt(x, 4)), Slices(x, 5)));
    assert Slices(x, 1) == Xor(Entry(6, ByteAt(x, 1)), Xor(Entry(5, ByteAt(x, 2)), Slices(x, 3)));
  }

  lemma TableByte(c: Word, b: Byte)
    ensures Crc(c, [b]) ==
      Xor(Entry(0, ByteAt(Xor(c, ByteWord(b)), 0)), ShiftRight(c, 8))
  {
    var x := Xor(c, ByteWord(b));
    assert ShiftRight(x, 8) == ShiftRight(c, 8);
    hide Step, Xor, ByteWord, ByteAt, ShiftRight;
    CrcByte(c, b);
    PeelByte(8, x);
  }

  lemma FirstEntry(n: Byte)
    ensures Crc(Reverse(Zeros(64)), [n]) == Entry(0, n)
  {
    assert Reverse(Zeros(64)) == Zeros(64);
    assert Xor(Zeros(64), ByteWord(n)) == ByteWord(n);
    CrcByte(Zeros(64), n);
  }

  lemma NextEntry(k: nat, n: Byte)
    requires k >= 1
    ensures Entry(k, n) == Xor(Entry(0, ByteAt(Entry(k - 1, n), 0)), ShiftRight(Entry(k - 1, n), 8))
  {
    hide Step, Xor, ByteWord, ByteAt, ShiftRight;
    FeedSplit(8 * k, 8, ByteWord(n));
    PeelByte(8, Entry(k - 1, n));
  }

  method LittleInit(table: array2<Word>)
    requires table.Length0 == 8 && table.Length1 == 256
    modifies table
    ensures IsTable(table)
  {
    hide Crc, Entry, Xor, ByteAt, ShiftRight, Zeros, Reverse;
    for n := 0 to 256
      invariant forall m :: 0 <= m < n ==> table[0, m] == Entry(0, m)
    {
      var entry := ReferenceCrc64(Zeros(64), [n]);
      FirstEntry(n);
      table[0, n] := entry;
    }
    for n := 0 to 256
      invariant forall m :: 0 <= m < 256 ==> table[0, m] == Entry(0, m)
      invariant forall k, m :: 0 <= k < 8 && 0 <= m < n ==> table[k, m] == Entry(k, m)
    {
      var crc := table[0, n];
      for k := 1 to 8
        invariant crc == Entry(k - 1, n)
        invariant forall m :: 0 <= m < 256 ==> table[0, m] == Entry(0, m)
        invariant forall j, m :: 0 <= j < 8 && 0 <= m < n ==> table[j, m] == Entry(j, m)
        invariant forall j :: 0 <= j < k ==> table[j, n] == Entry(j, n)
      {
        NextEntry(k, n);
        crc := Xor(table[0, ByteAt(crc, 0)], ShiftRight(crc, 8));
        table[k, n] := crc;
      }
    }
  }

  /** crcspeed64little; `addr` is the address of the first byte. */
  method LittleCrc64(table: array2<Word>, initial: Word, data: seq<Byte>, addr: nat) returns (crc: Word)
    requires IsTable(table)
    ensures crc == Crc(initial, data)
  {
    hide Entry, Crc, Xor, ByteAt, ShiftRight, ByteWord, Message;
    crc := initial;
    var next, len := 0, |data|;
    CrcEmpty(initial);
    assert data[..0] == [];
    while len > 0 && (addr + next) % 8 != 0
      invariant 0 <= next && 0 <= len && next + len == |data|
      invariant crc == Crc(initial, data[..next])
    {
      CrcPrefix(initial, data, next, next + 1);
      TableByte(crc, data[next]);
      assert data[next..next + 1] == [data[next]];
      crc := Xor(table[0, ByteAt(Xor(crc, ByteWord(data[next])), 0)], ShiftRight(crc, 8));
      next, len := next + 1, len - 1;
    }
    while len >= 8
      invariant 0 <= next && 0 <= len && next + len == |data|
      invariant crc == Crc(initial, data[..next])
    {
      CrcPrefix(initial, data, next, next + 8);
      CrcWord(crc, data[next..next + 8]);
      crc := Xor(crc, Message(data[next..next + 8]));
      SliceBy8(crc);
      crc := Xor(table[7, ByteAt(crc, 0)], Xor(table[6, ByteAt(crc, 1)],
             Xor(table[5, ByteAt(crc, 2)], Xor(table[4, ByteAt(crc, 3)],
             Xor(table[3, ByteAt(crc, 4)], Xor(table[2, ByteAt(crc, 5)],
             Xor(table[1, ByteAt(crc, 6)], table[0, ByteAt(crc, 7)])))))));
      next, len := next + 8, len - 8;
    }
    while len > 0
      invariant 0 <= next && 0 <= len && next + len == |data|
      invariant crc == Crc(initial, data[..next])
    {
      CrcPrefix(initial, data, next, next + 1);
      TableByte(crc, data[next]);
      assert data[next..next + 1] == [data[next]];
      crc := Xor(table[0, ByteAt(Xor(crc, ByteWord(data[next])), 0)], ShiftRight(crc, 8));
      next, len := next + 1, len - 1;
    }
    assert data[..next] == data;
  }

  // ----- Big-endian machines -----

  /** rev8: the bytes of a word in the opposite order. */
  function Rev8(a: Word): (r: Word) {
    seq(64, i requires 0 <= i < 64 => a[56 - i / 8 * 8 + i % 8])
  }

  lemma Rev8Involution(a: Word)
    ensures Rev8(Rev8(a)) == a
  {}

  lemma Rev8Xor(a: Word, b: Word)
    ensures Rev8(Xor(a, b)) == Xor(Rev8(a), Rev8(b))
  {}

  lemma Rev8Shift(a: Word)
    ensures Rev8(ShiftRight(a, 8)) == ShiftLeft(Rev8(a), 8)
  {}

  lemma Rev8Byte(a: Word, k: nat)
    requires k < 8
    ensures ByteAt(Rev8(a), 7 - k) == ByteAt(a, k)
  {
    assert Rev8(a)[8 * (7 - k)..8 * (7 - k) + 8] == a[8 * k..8 * k + 8];
  }

  ghost predicate IsBigTable(table: array2<Word>)
    reads table
  {
    && table.Length0 == 8 && table.Length1 == 256
    && forall k, n :: 0 <= k < 8 && 0 <= n < 256 ==> table[k, n] == Rev8(Entry(k, n))
  }

  method BigInit(table: array2<Word>)
    requires table.Length0 == 8 && table.Length1 == 256
    modifies table
    ensures IsBigTable(table)
  {
    LittleInit(table);
    hide Rev8, Entry;
    for k := 0 to 8
      invariant forall j, m :: 0 <= j < 8 && 0 <= m < 256 ==>
        table[j, m] == if j < k then Rev8(Entry(j, m)) else Entry(j, m)
    {
      for n := 0 to 256
        invariant forall j, m :: 0 <= j < 8 && 0 <= m < 256 ==>
          table[j, m] == if j < k || (j == k && m < n) then Rev8(Entry(j, m)) else Entry(j, m)
      {
        table[k, n] := Rev8(table[k, n]);
      }
    }
  }

  lemma BigTableByte(c: Word, b: Byte)
    ensures Rev8(Crc(c, [b])) ==
      Xor(Rev8(Entry(0, ByteAt(Xor(ShiftRight(Rev8(c), 56), ByteWord(b)), 0))), ShiftLeft(Rev8(c), 8))
  {
    assert Xor(ShiftRight(Rev8(c), 56), ByteWord(b))[0..8] == Xor(c, ByteWord(b))[0..8];
    hide Step, Xor, Rev8, ShiftRight, ShiftLeft, Entry, Crc;
    TableByte(c, b);
    Rev8Xor(Entry(0, ByteAt(Xor(c, ByteWord(b)), 0)), ShiftRight(c, 8));
    Rev8Shift(c);
  }

  lemma BigSliceBy8(x: Word)
    ensures Rev8(Feed(64, x)) ==
      Xor(Rev8(Entry(7, ByteAt(Rev8(x), 7))), Xor(Rev8(Entry(6, ByteAt(Rev8(x), 6))),
      Xor(Rev8(Entry(5, ByteAt(Rev8(x), 5))), Xor(Rev8(Entry(4, ByteAt(Rev8(x), 4))),
      Xor(Rev8(Entry(3, ByteAt(Rev8(x), 3))), Xor(Rev8(Entry(2, ByteAt(Rev8(x), 2))),
      Xor(Rev8(Entry(1, ByteAt(Rev8(x), 1))), Rev8(Entry(0, ByteAt(Rev8(x), 0))))))))))
  {
    hide Step, Xor, Rev8, ByteAt, Entry;
    Rev8Byte(x, 0); Rev8Byte(x, 1); Rev8Byte(x, 2); Rev8Byte(x, 3);
    Rev8Byte(x, 4); Rev8Byte(x, 5); Rev8Byte(x, 6); Rev8Byte(x, 7);
    SliceBy8(x);
    var s6 := Xor(Entry(1, ByteAt(x, 6)), Entry(0, ByteAt(x, 7)));
    var s5 := Xor(Entry(2, ByteAt(x, 5)), s6);
    var s4 := Xor(Entry(3, ByteAt(x, 4)), s5);
    var s3 := Xor(Entry(4, ByteAt(x, 3)), s4);
    var s2 := Xor(Entry(5, ByteAt(x, 2)), s3);
    var s1 := Xor(Entry(6, ByteAt(x, 1)), s2);
    Rev8Xor(Entry(7, ByteAt(x, 0)), s1); Rev8Xor(Entry(6, ByteAt(x, 1)), s2);
    Rev8Xor(Entry(5, ByteAt(x, 2)), s3); Rev8Xor(Entry(4, ByteAt(x, 3)), s4);
    Rev8Xor(Entry(3, ByteAt(x, 4)), s5); Rev8Xor(Entry(2, ByteAt(x, 5)), s6);
    Rev8Xor(Entry(1, ByteAt(x, 6)), Entry(0, ByteAt(x, 7)));
  }

  /** crcspeed64big: a big-endian load of eight bytes is `Rev8` of the little-endian one. */
  method BigCrc64(table: array2<Word>, initial: Word, data: seq<Byte>, addr: nat) returns (r: Word)
    requires IsBigTable(table)
    ensures r == Crc(initial, data)
  {
    hide Rev8, Entry, Crc, Xor, ByteAt, ShiftRight, ShiftLeft, ByteWord, Message;
    var crc := Rev8(initial);
    var next, len := 0, |data|;
    CrcEmpty(initial);
    assert data[..0] == [];
    while len > 0 && (addr + next) % 8 != 0
      invariant 0 <= next && 0 <= len && next + len == |data|
      invariant crc == Rev8(Crc(initial, data[..next]))
    {
      CrcPrefix(initial, data, next, next + 1);
      assert data[next..next + 1] == [data[next]];
      BigTableByte(Crc(initial, data[..next]), data[next]);
      crc := Xor(table[0, ByteAt(Xor(ShiftRight(crc, 56), ByteWord(data[next])), 0)], ShiftLeft(crc, 8));
      next, len := next + 1, len - 1;
    }
    while len >= 8
      invariant 0 <= next && 0 <= len && next + len == |data|
      invariant crc == Rev8(Crc(initial, data[..next]))
    {
      ghost var c, word := Crc(initial, data[..next]), Message(data[next..next + 8]);
      CrcPrefix(initial, data, next, next + 8);
      CrcWord(c, data[next..next + 8]);
      Rev8Xor(c, word);
      crc := Xor(crc, Rev8(Message(data[next..next + 8])));
      BigSliceBy8(Xor(c, word));
      crc := Xor(table[7, ByteAt(crc, 7)], Xor(table[6, ByteAt(crc, 6)],
             Xor(table[5, ByteAt(crc, 5)], Xor(table[4, ByteAt(crc, 4)],
             Xor(table[3, ByteAt(crc, 3)], Xor(table[2, ByteAt(crc, 2)],
             Xor(table[1, ByteAt(crc, 1)], table[0, ByteAt(crc, 0)])))))));
      next, len := next + 8, len - 8;
    }
    while len > 0
      invariant 0 <= next && 0 <= len && next + len == |data|
      invariant crc == Rev8(Crc(initial, data[..next]))
    {
      CrcPrefix(initial, data, next, next + 1);
      assert data[next..next + 1] == [data[next]];
      BigTableByte(Crc(initial, data[..next]), data[next]);
      crc := Xor(table[0, ByteAt(Xor(ShiftRight(crc, 56), ByteWord(data[next])), 0)], ShiftLeft(crc, 8));
      next, len := next + 1, len - 1;
    }
    assert data[..next] == data;
    Rev8Involution(Crc(initial, data));
    r := Rev8(crc);
  }

  // ----- The two sides agree -----

  /**
   * The value of the fast routines on initial value `c` is the value of the reference routine
   * started from the mirror image of `c`.
   */
  lemma FastIsReference(c: Word, data: seq<Byte>)
    ensures Crc(c, data) == Reverse(ReferenceBits(Reverse(c), Message(data)))
  {
    assert Reverse(Reverse(c)) == c;
    ReferenceIsCrc(Reverse(c), Message(data));
  }

  // ----- Error detection -----

  lemma {:induction false} CrcBitsInjective(c: Word, d: Word, s: seq<bool>)
    requires CrcBits(c, s) == CrcBits(d, s)
    ensures c == d
  {
    if s != [] {
      var n := |s| - 1;
      var x, y, b := CrcBits(c, s[..n]), CrcBits(d, s[..n]), Extend([s[n]]);
      StepInjective(Xor(x, b), Xor(y, b));
      assert Xor(b, x) == Xor(x, b) && Xor(b, y) == Xor(y, b);
      XorCancels(b, x, y);
      CrcBitsInjective(c, d, s[..n]);
    }
  }

  /**
   * Messages that agree outside a window of at most 64 bits have equal CRCs only if they are
   * equal: every burst error of up to 64 bits is detected.
   */
  lemma BurstDetected(c: Word, pre: seq<bool>, s: seq<bool>, t: seq<bool>, post: seq<bool>)
    requires |s| == |t| <= 64
    requires CrcBits(c, pre + s + post) == CrcBits(c, pre + t + post)
    ensures s == t
  {
    var x := CrcBits(c, pre);
    CrcBitsAppend(c, pre + s, post); CrcBitsAppend(c, pre, s);
    CrcBitsAppend(c, pre + t, post); CrcBitsAppend(c, pre, t);
    CrcBitsInjective(CrcBits(x, s), CrcBits(x, t), post);
    Absorb(x, s); Absorb(x, t);
    FeedInjective(|s|, Xor(x, Extend(s)), Xor(x, Extend(t)));
    XorCancels(x, Extend(s), Extend(t));
    assert s == Extend(s)[..|s|] && t == Extend(t)[..|s|];
  }
}
