/**
 * The check value of the CRC64 (crc64.c): the CRC of "123456789" is 0xe9c6d914c4b8d9ca. It is
 * evaluated on machine words, whose steps are proved to be those of the bit-by-bit definition.
 */
module CrcCheck {
  import opened Words
  import opened Crc64

  const REFLECTED: bv64 := 0x95ac9329ac4bc9b5

  predicate Odd(v: bv64) { v & 1 == 1 }

  function Half(v: bv64): (r: bv64) { v >> 1 }

  function Add(a: bv64, b: bv64): (r: bv64) { a ^ b }

  /** The low `n` bits of a machine word. */
  function Low(v: bv64, n: nat): (s: seq<bool>)
    ensures |s| == n
    decreases n
  {
    if n == 0 then [] else [Odd(v)] + Low(Half(v), n - 1)
  }

  function AsWord(v: bv64): (w: Word) { Low(v, 64) }

  function Shifted(v: bv64, n: nat): (w: bv64)
    decreases n
  {
    if n == 0 then v else Shifted(Half(v), n - 1)
  }

  /** `Step` on machine words. */
  function WordStep(v: bv64): (r: bv64) { if Odd(v) then Add(Half(v), REFLECTED) else Half(v) }

  function WordFeed(n: nat, v: bv64): (r: bv64)
    decreases n
  {
    if n == 0 then v else WordFeed(n - 1, WordStep(v))
  }

  // ----- Shifting and adding -----

  lemma AddBits(a: bv64, b: bv64)
    ensures Odd(Add(a, b)) == (Odd(a) != Odd(b))
    ensures Half(Add(a, b)) == Add(Half(a), Half(b))
  {}

  lemma {:induction false} LowAdd(a: bv64, b: bv64, n: nat, i: nat)
    requires i < n
    ensures Low(Add(a, b), n)[i] == (Low(a, n)[i] != Low(b, n)[i])
    decreases n
  {
    hide Odd, Half, Add;
    AddBits(a, b);
    if i > 0 { LowAdd(Half(a), Half(b), n - 1, i - 1); }
  }

  lemma AddIs(a: bv64, b: bv64)
    ensures AsWord(Add(a, b)) == Xor(AsWord(a), AsWord(b))
  {
    hide Odd, Half, Add, Low;
    forall i | 0 <= i < 64 ensures AsWord(Add(a, b))[i] == Xor(AsWord(a), AsWord(b))[i] { LowAdd(a, b, 64, i); }
  }

  lemma {:induction false} ShiftedTwice(v: bv64, m: nat, n: nat)
    ensures Shifted(v, m + n) == Shifted(Shifted(v, m), n)
    decreases m
  {
    hide Half;
    if m != 0 { ShiftedTwice(Half(v), m - 1, n); }
  }

  function Seventh(v: bv64): (r: bv64) { v >> 7 }

  lemma SevenHalves(v: bv64)
    ensures Half(Half(Half(Half(Half(Half(Half(v))))))) == Seventh(v)
  {}

  lemma SevenShifts(v: bv64)
    ensures Shifted(v, 7) == Seventh(v)
  {
    SevenHalves(v);
    hide Half, Seventh;
    var w := Half(Half(Half(v)));
    assert Shifted(v, 7) == Shifted(w, 4);
    assert Shifted(w, 4) == Shifted(Half(Half(Half(w))), 1);
  }

  lemma {:induction false} SevenTimes(v: bv64, n: nat)
    ensures Shifted(v, n + 7) == Shifted(Seventh(v), n)
  {
    ShiftedTwice(v, 7, n);
    SevenShifts(v);
  }

  lemma NineSevenths(v: bv64)
    ensures Seventh(Seventh(Seventh(Seventh(Seventh(Seventh(Seventh(Seventh(Seventh(Half(v)))))))))) == 0
  {}

  /** Nothing is left of a word after 64 shifts. */
  lemma Gone(v: bv64)
    ensures Shifted(Half(v), 63) == 0
  {
    NineSevenths(v);
    hide Half, Seventh, Shifted;
    var a := Half(v);
    SevenTimes(a, 56);
    var b := Seventh(a);
    SevenTimes(b, 49);
    var c := Seventh(b);
    SevenTimes(c, 42);
    var d := Seventh(c);
    SevenTimes(d, 35);
    var e := Seventh(d);
    SevenTimes(e, 28);
    var f := Seventh(e);
    SevenTimes(f, 21);
    var g := Seventh(f);
    SevenTimes(g, 14);
    var h := Seventh(g);
    SevenTimes(h, 7);
    SevenShifts(Seventh(h));
  }

  lemma {:induction false} LowZero(v: bv64, n: nat)
    requires Shifted(v, n) == 0
    ensures Low(v, n + 1) == Low(v, n) + [false]
    decreases n
  {
    if n != 0 {
      hide Odd, Half;
      LowZero(Half(v), n - 1);
      assert Low(v, n + 1) == [Odd(v)] + Low(Half(v), n);
    }
  }

  lemma HalfIs(v: bv64)
    ensures AsWord(v)[0] == Odd(v) && AsWord(Half(v)) == ShiftRight(AsWord(v), 1)
  {
    Gone(v);
    hide Odd, Half, Shifted;
    LowZero(Half(v), 63);
    assert Low(v, 64) == [Odd(v)] + Low(Half(v), 63);
  }

  lemma StepIs(v: bv64)
    ensures AsWord(WordStep(v)) == Step(AsWord(v))
  {
    PolyIs();
    HalfIs(v);
    AddIs(Half(v), REFLECTED);
    hide Odd, Half, Add, AsWord, Xor, ShiftRight, Bits, Reverse;
  }

  lemma {:induction false} FeedIs(n: nat, v: bv64)
    ensures AsWord(WordFeed(n, v)) == Feed(n, AsWord(v))
    decreases n
  {
    hide WordStep, Step, AsWord;
    if n != 0 {
      StepIs(v);
      FeedIs(n - 1, WordStep(v));
    }
  }

  // ----- The polynomial -----

  /** The low `n` bits of `v` appended to `acc`, the lowest first. */
  function Mirror(v: bv64, n: nat, acc: nat): (r: nat)
    decreases n
  {
    if n == 0 then acc else Mirror(Half(v), n - 1, 2 * acc + if Odd(v) then 1 else 0)
  }

  lemma BitsAppend(acc: nat, b: bool, k: nat)
    ensures Bits(2 * acc + if b then 1 else 0, k + 1) == [b] + Bits(acc, k)
  {}

  lemma {:induction false} MirrorBits(v: bv64, n: nat, acc: nat, k: nat, i: nat)
    requires i < n + k
    ensures Bits(Mirror(v, n, acc), n + k)[i] == if i < n then Low(v, n)[n - 1 - i] else Bits(acc, k)[i - n]
    decreases n
  {
    hide Odd, Half, Bits;
    if n != 0 {
      MirrorBits(Half(v), n - 1, 2 * acc + if Odd(v) then 1 else 0, k + 1, i);
      BitsAppend(acc, Odd(v), k);
    }
  }

  lemma Mirror0()
    ensures Mirror(0x95ac9329ac4bc9b5, 64, 0x0) == Mirror(0x95ac9329ac4bc9, 56, 0xad)
  {}

  lemma Mirror1()
    ensures Mirror(0x95ac9329ac4bc9, 56, 0xad) == Mirror(0x95ac9329ac4b, 48, 0xad93)
  {}

  lemma Mirror2()
    ensures Mirror(0x95ac9329ac4b, 48, 0xad93) == Mirror(0x95ac9329ac, 40, 0xad93d2)
  {}

  lemma Mirror3()
    ensures Mirror(0x95ac9329ac, 40, 0xad93d2) == Mirror(0x95ac9329, 32, 0xad93d235)
  {}

  lemma Mirror4()
    ensures Mirror(0x95ac9329, 32, 0xad93d235) == Mirror(0x95ac93, 24, 0xad93d23594)
  {}

  lemma Mirror5()
    ensures Mirror(0x95ac93, 24, 0xad93d23594) == Mirror(0x95ac, 16, 0xad93d23594c9)
  {}

  lemma Mirror6()
    ensures Mirror(0x95ac, 16, 0xad93d23594c9) == Mirror(0x95, 8, 0xad93d23594c935)
  {}

  lemma Mirror7()
    ensures Mirror(0x95, 8, 0xad93d23594c935) == Mirror(0x0, 0, 0xad93d23594c935a9)
  {}

  lemma MirrorPoly()
    ensures Mirror(REFLECTED, 64, 0) == 0xad93d23594c935a9
  {
    hide Mirror;
    Mirror0();
    Mirror1();
    Mirror2();
    Mirror3();
    Mirror4();
    Mirror5();
    Mirror6();
    Mirror7();
    MirrorNone(0xad93d23594c935a9);
  }

  lemma MirrorNone(acc: nat)
    ensures Mirror(0, 0, acc) == acc
  {}

  lemma PolyIs()
    ensures Reverse(POLY) == AsWord(REFLECTED)
  {
    MirrorPoly();
    hide Bits, Mirror, Low;
    forall i | 0 <= i < 64 ensures Reverse(POLY)[i] == AsWord(REFLECTED)[i] {
      MirrorBits(REFLECTED, 64, 0, 0, 63 - i);
    }
  }

  // ----- The check value -----

  function WordValue(v: bv64, n: nat): (r: nat)
    decreases n
  {
    if n == 0 then 0 else (if Odd(v) then 1 else 0) + 2 * WordValue(Half(v), n - 1)
  }

  lemma {:induction false} LowValue(v: bv64, n: nat)
    ensures Low(v, n) == Bits(WordValue(v, n), n)
    decreases n
  {
    hide Odd, Half;
    if n != 0 { LowValue(Half(v), n - 1); }
  }

  lemma {:induction false} LowZeros(v: bv64, m: nat, n: nat)
    requires Shifted(v, m) == 0
    ensures Low(v, m + n) == Low(v, m) + Zeros(n)
    decreases m, n
  {
    if m != 0 {
      hide Odd, Half;
      LowZeros(Half(v), m - 1, n);
      assert Low(v, m + n) == [Odd(v)] + Low(Half(v), m - 1 + n);
    } else if n != 0 {
      LowZeros(Half(v), 0, n - 1);
      assert Low(v, n) == [false] + Zeros(n - 1);
    }
  }

  /** One byte of a message. */
  lemma Digit(c: bv64, v: bv64, b: Byte, r: bv64)
    requires WordValue(v, 8) == b && Shifted(v, 8) == 0 && WordFeed(8, Add(c, v)) == r
    ensures Crc(AsWord(c), [b]) == AsWord(r)
  {
    hide Odd, Half, Add, WordFeed, WordValue, Shifted, Feed, Crc, Xor, Low, Bits;
    LowValue(v, 8);
    LowZeros(v, 8, 56);
    assert ByteWord(b) == AsWord(v);
    CrcByte(AsWord(c), b);
    AddIs(c, v);
    FeedIs(8, Add(c, v));
  }

  lemma Digit1()
    ensures Crc(AsWord(0x0), [49]) == AsWord(0xfdc17184a9f739fa)
  {
    Digit(0x0, 0x31, 49, 0xfdc17184a9f739fa);
  }

  lemma Digit2()
    ensures Crc(AsWord(0xfdc17184a9f739fa), [50]) == AsWord(0xe10364513a98ed96)
  {
    Digit(0xfdc17184a9f739fa, 0x32, 50, 0xe10364513a98ed96);
  }

  lemma Digit3()
    ensures Crc(AsWord(0xe10364513a98ed96), [51]) == AsWord(0xd5bcfb814479b1ac)
  {
    Digit(0xe10364513a98ed96, 0x33, 51, 0xd5bcfb814479b1ac);
  }

  lemma Digit4()
    ensures Crc(AsWord(0xd5bcfb814479b1ac), [52]) == AsWord(0x43593c5dcda521f0)
  {
    Digit(0xd5bcfb814479b1ac, 0x34, 52, 0x43593c5dcda521f0);
  }

  lemma Digit5()
    ensures Crc(AsWord(0x43593c5dcda521f0), [53]) == AsWord(0xf0758513239c7e0d)
  {
    Digit(0x43593c5dcda521f0, 0x35, 53, 0xf0758513239c7e0d);
  }

  lemma Digit6()
    ensures Crc(AsWord(0xf0758513239c7e0d), [54]) == AsWord(0xa3a90925b2ab4903)
  {
    Digit(0xf0758513239c7e0d, 0x36, 54, 0xa3a90925b2ab4903);
  }

  lemma Digit7()
    ensures Crc(AsWord(0xa3a90925b2ab4903), [55]) == AsWord(0x47824d362431ad45)
  {
    Digit(0xa3a90925b2ab4903, 0x37, 55, 0x47824d362431ad45);
  }

  lemma Digit8()
    ensures Crc(AsWord(0x47824d362431ad45), [56]) == AsWord(0x49ec20b315e86dc2)
  {
    Digit(0x47824d362431ad45, 0x38, 56, 0x49ec20b315e86dc2);
  }

  lemma Digit9()
    ensures Crc(AsWord(0x49ec20b315e86dc2), [57]) == AsWord(0xe9c6d914c4b8d9ca)
  {
    Digit(0x49ec20b315e86dc2, 0x39, 57, 0xe9c6d914c4b8d9ca);
  }

  lemma After(s: seq<Byte>, b: Byte, c: bv64, r: bv64) returns (t: seq<Byte>)
    requires Crc(Zeros(64), s) == AsWord(c) && Crc(AsWord(c), [b]) == AsWord(r)
    ensures t == s + [b] && Crc(Zeros(64), t) == AsWord(r)
  {
    hide Crc, AsWord;
    CrcAppend(Zeros(64), s, [b]);
    t := s + [b];
  }

  lemma Nothing()
    ensures Crc(Zeros(64), []) == AsWord(0)
  {
    hide Crc;
    CrcEmpty(Zeros(64));
    LowZeros(0, 0, 64);
  }

  /** The published check value: the CRC of "123456789". */
  lemma CheckValue()
    ensures Crc(Zeros(64), [49, 50, 51, 52, 53, 54, 55, 56, 57]) == AsWord(0xe9c6d914c4b8d9ca)
  {
    hide *;
    Nothing();
    Digit1();
    var s1 := After([], 49, 0x0, 0xfdc17184a9f739fa);
    Digit2();
    var s2 := After(s1, 50, 0xfdc17184a9f739fa, 0xe10364513a98ed96);
    Digit3();
    var s3 := After(s2, 51, 0xe10364513a98ed96, 0xd5bcfb814479b1ac);
    Digit4();
    var s4 := After(s3, 52, 0xd5bcfb814479b1ac, 0x43593c5dcda521f0);
    Digit5();
    var s5 := After(s4, 53, 0x43593c5dcda521f0, 0xf0758513239c7e0d);
    Digit6();
    var s6 := After(s5, 54, 0xf0758513239c7e0d, 0xa3a90925b2ab4903);
    Digit7();
    var s7 := After(s6, 55, 0xa3a90925b2ab4903, 0x47824d362431ad45);
    Digit8();
    var s8 := After(s7, 56, 0x47824d362431ad45, 0x49ec20b315e86dc2);
    Digit9();
    var s9 := After(s8, 57, 0x49ec20b315e86dc2, 0xe9c6d914c4b8d9ca);
    assert s9 == [49, 50, 51, 52, 53, 54, 55, 56, 57];
  }
}
