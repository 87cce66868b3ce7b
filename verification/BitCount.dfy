/** Counting set bits: the word-parallel count and BITCOUNT ranges (bitops.c). */
module BitCount {
  import opened Words
  import opened Decimal
  import opened Bitmap

  /** The number of set bits among `n` bits from `o` on. */
  function Ones(p: Bytes, o: nat, n: nat): (c: nat)
    ensures c <= n
  {
    if n == 0 then 0 else Ones(p, o, n - 1) + if Bit(p, o + n - 1) then 1 else 0
  }

  /** Set bits among the low `bits` bits of a number; for a byte, the table bitsinbyte. */
  function OnesIn(x: nat, bits: nat): (c: nat)
    ensures c <= bits
  {
    if bits == 0 then 0 else x % 2 + OnesIn(x / 2, bits - 1)
  }

  // ----- Word-parallel counting -----

  /** x & 0x5555...: the low bit of each of `n` groups of 2 bits. */
  function Keep1Of2(x: nat, n: nat): (r: nat) { if n == 0 then 0 else x % 2 + 4 * Keep1Of2(x / 4, n - 1) }

  /** x & 0x3333...: the low 2 bits of each group of 4. */
  function Keep2Of4(x: nat, n: nat): (r: nat) { if n == 0 then 0 else x % 4 + 16 * Keep2Of4(x / 16, n - 1) }

  /** x & 0x0F0F...: the low 4 bits of each group of 8. */
  function Keep4Of8(x: nat, n: nat): (r: nat) { if n == 0 then 0 else x % 16 + 256 * Keep4Of8(x / 256, n - 1) }

  /** The bitwise and of the low `len` bits. */
  function And(x: nat, mask: nat, len: nat): (r: nat) {
    if len == 0 then 0 else (if mask % 2 == 1 then x % 2 else 0) + 2 * And(x / 2, mask / 2, len - 1)
  }

  /** `pattern` in each of `n` groups of as many bits as `size` has values. */
  function Groups(pattern: nat, size: nat, n: nat): (mask: nat) {
    if n == 0 then 0 else pattern + size * Groups(pattern, size, n - 1)
  }

  lemma AndOne(x: nat, mask: nat, len: nat)
    ensures And(x, 1 + 2 * mask, len + 1) == x % 2 + 2 * And(x / 2, mask, len)
  {
    ModUnique(1 + 2 * mask, 2, mask, 1);
  }

  lemma AndZero(x: nat, mask: nat, len: nat)
    ensures And(x, 2 * mask, len + 1) == 2 * And(x / 2, mask, len)
  {
    ModUnique(2 * mask, 2, mask, 0);
  }

  /** Two bits at a time. */
  lemma AndOnes(x: nat, mask: nat, len: nat)
    ensures And(x, 3 + 4 * mask, len + 2) == x % 4 + 4 * And(x / 4, mask, len)
    ensures And(x, 4 * mask, len + 2) == 4 * And(x / 4, mask, len)
  {
    hide And;
    AndOne(x, 1 + 2 * mask, len + 1);
    AndOne(x / 2, mask, len);
    AndZero(x, 2 * mask, len + 1);
    AndZero(x / 2, mask, len);
    assert 3 + 4 * mask == 1 + 2 * (1 + 2 * mask);
    ModUnique(x, 4, x / 2 / 2, x % 2 + 2 * (x / 2 % 2));
  }

  lemma AndFours(x: nat, mask: nat, len: nat)
    ensures And(x, 15 + 16 * mask, len + 4) == x % 16 + 16 * And(x / 16, mask, len)
    ensures And(x, 16 * mask, len + 4) == 16 * And(x / 16, mask, len)
  {
    hide And;
    AndOnes(x, 3 + 4 * mask, len + 2);
    AndOnes(x / 4, mask, len);
    AndOnes(x, 4 * mask, len + 2);
    assert 15 + 16 * mask == 3 + 4 * (3 + 4 * mask);
    Fours(x);
  }

  lemma {:induction false} Mask1Of2(x: nat, n: nat)
    ensures And(x, Groups(1, 4, n), 2 * n) == Keep1Of2(x, n)
  {
    if n > 0 {
      var mask := Groups(1, 4, n - 1);
      assert Groups(1, 4, n) == 1 + 2 * (2 * mask);
      hide And;
      AndOne(x, 2 * mask, 2 * n - 1);
      AndZero(x / 2, mask, 2 * n - 2);
      Mask1Of2(x / 4, n - 1);
    }
  }

  lemma {:induction false} Mask2Of4(x: nat, n: nat)
    ensures And(x, Groups(3, 16, n), 4 * n) == Keep2Of4(x, n)
  {
    if n > 0 {
      var mask := Groups(3, 16, n - 1);
      assert Groups(3, 16, n) == 3 + 4 * (4 * mask);
      hide And;
      AndOnes(x, 4 * mask, 4 * n - 2);
      AndOnes(x / 4, mask, 4 * n - 4);
      Fours(x);
      Mask2Of4(x / 16, n - 1);
    }
  }

  lemma {:induction false} Mask4Of8(x: nat, n: nat)
    ensures And(x, Groups(15, 256, n), 8 * n) == Keep4Of8(x, n)
  {
    if n > 0 {
      var mask := Groups(15, 256, n - 1);
      assert Groups(15, 256, n) == 15 + 16 * (16 * mask);
      hide And;
      AndFours(x, 16 * mask, 8 * n - 4);
      AndFours(x / 16, mask, 8 * n - 8);
      Sixteens(x);
      Mask4Of8(x / 256, n - 1);
    }
  }

  lemma Constants()
    ensures Groups(1, 4, 16) == 0x5555_5555 && Groups(3, 16, 8) == 0x3333_3333 && Groups(15, 256, 4) == 0x0F0F_0F0F
  {
    assert Groups(1, 4, 4) == 0x55 by { assert Groups(1, 4, 2) == 0x5; }
    assert Groups(1, 4, 8) == 0x5555 by { assert Groups(1, 4, 6) == 0x555; }
    assert Groups(1, 4, 12) == 0x55_5555 by { assert Groups(1, 4, 10) == 0x5_5555; }
    assert Groups(1, 4, 14) == 0x555_5555;
    assert Groups(3, 16, 4) == 0x3333 by { assert Groups(3, 16, 2) == 0x33; }
    assert Groups(3, 16, 6) == 0x33_3333;
    assert Groups(15, 256, 2) == 0x0F0F;
  }

  /** The three constants of the source keep what their names say. */
  lemma Masks(x: nat)
    ensures And(x, 0x5555_5555, 32) == Keep1Of2(x, 16)
    ensures And(x, 0x3333_3333, 32) == Keep2Of4(x, 8)
    ensures And(x, 0x0F0F_0F0F, 32) == Keep4Of8(x, 4)
  {
    hide And, Keep1Of2, Keep2Of4, Keep4Of8, Groups;
    Constants();
    Mask1Of2(x, 16);
    Mask2Of4(x, 8);
    Mask4Of8(x, 4);
  }

  /** `y` has `n` lanes of 2 bits that together count the bits of `x`. */
  predicate Lanes2(y: nat, x: nat, n: nat) {
    if n == 0 then y == 0 else y % 4 == OnesIn(x % 4, 2) && Lanes2(y / 4, x / 4, n - 1)
  }

  predicate Lanes4(y: nat, x: nat, n: nat) {
    if n == 0 then y == 0 else y % 16 == OnesIn(x % 16, 4) && Lanes4(y / 16, x / 16, n - 1)
  }

  predicate Lanes8(y: nat, x: nat, n: nat) {
    if n == 0 then y == 0 else y % 256 == OnesIn(x % 256, 8) && Lanes8(y / 256, x / 256, n - 1)
  }

  lemma Twos(x: nat)
    ensures x / 2 / 4 == x / 4 / 2 && x / 2 % 2 == x % 4 / 2 && x == 4 * (x / 4) + x % 4
  {
    var a, r := x / 8, x % 8;
    ModUnique(x, 2, 4 * a + r / 2, r % 2);
    ModUnique(x, 4, 2 * a + r / 4, r % 4);
    ModUnique(4 * a + r / 2, 4, a, r / 2);
    ModUnique(2 * a + r / 4, 2, a, r / 4);
    ModUnique(4 * a + r / 2, 2, 2 * a + r / 4, r % 4 / 2);
  }

  lemma Fours(x: nat)
    ensures x / 4 / 4 == x / 16 && x / 4 / 16 == x / 16 / 4 && x % 16 == x % 4 + 4 * (x / 4 % 4)
  {
    var a, b, c, d := x % 4, x / 4 % 4, x / 4 / 4 % 4, x / 4 / 4 / 4;
    assert x == 16 * (4 * d + c) + (a + 4 * b);
    ModUnique(x, 16, 4 * d + c, a + 4 * b);
    ModUnique(x / 4, 16, d, b + 4 * c);
  }

  lemma Sixteens(x: nat)
    ensures x / 16 / 16 == x / 256 && x % 256 == x % 16 + 16 * (x / 16 % 16)
  {
    ModUnique(x, 256, x / 16 / 16, x % 16 + 16 * (x / 16 % 16));
  }

  lemma TwoBits(d: nat)
    requires d < 4
    ensures OnesIn(d, 2) == d - d / 2 <= 2
  {
    assert OnesIn(d, 2) == d % 2 + (d / 2 % 2 + OnesIn(d / 2 / 2, 0));
  }

  lemma Subtract(q: nat, d: nat, k: nat)
    requires d < 4 && k <= q
    ensures var y := 4 * q + d - (d / 2 + 4 * k); y >= 0 && y % 4 == d - d / 2 && y / 4 == q - k
  {
    ModUnique(4 * q + d - (d / 2 + 4 * k), 4, q - k, d - d / 2);
  }

  /** x - ((x >> 1) & 0x55555555). */
  lemma {:induction false} FirstStep(x: nat, n: nat)
    requires x < Pow2(2 * n)
    ensures x >= Keep1Of2(x / 2, n) && Lanes2(x - Keep1Of2(x / 2, n), x, n)
  {
    if n > 0 {
      var q, d := x / 4, x % 4;
      Twos(x);
      assert q < Pow2(2 * n - 2) by { assert Pow2(2 * n) == 4 * Pow2(2 * n - 2); }
      hide Pow2;
      FirstStep(q, n - 1);
      var k := Keep1Of2(q / 2, n - 1);
      assert Keep1Of2(x / 2, n) == x / 2 % 2 + 4 * Keep1Of2(x / 2 / 4, n - 1);
      hide Keep1Of2;
      Subtract(q, d, k);
      TwoBits(d);
    }
  }

  lemma AddLanes(a: nat, b: nat, r: nat)
    requires a + b < 16
    ensures (a + b + 16 * r) % 16 == a + b && (a + b + 16 * r) / 16 == r
  {
    ModUnique(a + b + 16 * r, 16, r, a + b);
  }

  /** (y & 0x33333333) + ((y >> 2) & 0x33333333). */
  lemma {:induction false} SecondStep(y: nat, x: nat, n: nat)
    requires Lanes2(y, x, 2 * n)
    ensures Lanes4(Keep2Of4(y, n) + Keep2Of4(y / 4, n), x, n)
  {
    if n > 0 {
      assert Lanes2(y / 4, x / 4, 2 * n - 1);
      assert Lanes2(y / 4 / 4, x / 4 / 4, 2 * n - 2);
      assert y % 4 == OnesIn(x % 4, 2) && y / 4 % 4 == OnesIn(x / 4 % 4, 2);
      hide Lanes2, OnesIn, Lanes4, Keep2Of4;
      Fours(x);
      Fours(y);
      SecondStep(y / 16, x / 16, n - 1);
      FourBits(x);
      SecondEnd(y, x, n);
    }
  }

  lemma SecondEnd(y: nat, x: nat, n: nat)
    requires n > 0 && y % 4 + y / 4 % 4 == OnesIn(x % 16, 4) && y / 4 / 16 == y / 16 / 4
    requires Lanes4(Keep2Of4(y / 16, n - 1) + Keep2Of4(y / 16 / 4, n - 1), x / 16, n - 1)
    ensures Lanes4(Keep2Of4(y, n) + Keep2Of4(y / 4, n), x, n)
  {
    hide OnesIn;
    var u, v := Keep2Of4(y / 16, n - 1), Keep2Of4(y / 16 / 4, n - 1);
    assert Keep2Of4(y, n) == y % 4 + 16 * u;
    assert Keep2Of4(y / 4, n) == y / 4 % 4 + 16 * v;
    AddLanes(y % 4, y / 4 % 4, u + v);
  }

  lemma FourBits(x: nat)
    ensures OnesIn(x % 16, 4) == OnesIn(x % 4, 2) + OnesIn(x / 4 % 4, 2)
  {
    Fours(x);
    assert Pow2(2) == 4;
    hide OnesIn, Pow2;
    OnesSplit(x % 4, x / 4 % 4, 2, 2, 4);
  }

  lemma {:induction false} OnesSplit(a: nat, b: nat, m: nat, n: nat, p: nat)
    requires a < p && p == Pow2(m)
    ensures OnesIn(a + p * b, m + n) == OnesIn(a, m) + OnesIn(b, n)
  {
    if m > 0 {
      var h := Pow2(m - 1) * b;
      OnesSplit(a / 2, b, m - 1, n, Pow2(m - 1));
      assert p * b == 2 * h by { DoubleMul(Pow2(m - 1), b); }
      ModUnique(a + 2 * h, 2, a / 2 + h, a % 2);
      hide Pow2;
    } else {
      assert p * b == b;
    }
  }

  lemma DoubleMul(p: int, b: int)
    ensures (2 * p) * b == 2 * (p * b)
  {}

  lemma Carry(a: nat, b: nat, r: nat)
    requires a + b < 16 && b + r % 16 < 16
    ensures var z := a + 16 * b + 256 * r;
            (z + z / 16) % 16 == a + b && (z + z / 16) / 256 == r + r / 16
  {
    var z := a + 16 * b + 256 * r;
    ModUnique(z, 16, b + 16 * r, a);
    var c, s := r % 16, r / 16;
    var w := z + z / 16;
    assert w == 16 * ((b + c) + 16 * (r + s)) + (a + b);
    ModUnique(w, 16, (b + c) + 16 * (r + s), a + b);
    ModUnique(w, 256, r + s, (a + b) + 16 * (b + c));
  }

  lemma Decompose(z: nat)
    ensures z == z % 16 + 16 * (z / 16 % 16) + 256 * (z / 16 / 16)
  {}

  /** (z + (z >> 4)) & 0x0F0F0F0F. */
  lemma {:induction false} ThirdStep(z: nat, x: nat, n: nat)
    requires Lanes4(z, x, 2 * n)
    ensures Lanes8(Keep4Of8(z + z / 16, n), x, n)
  {
    if n > 0 {
      assert Lanes4(z / 16, x / 16, 2 * n - 1);
      assert Lanes4(z / 16 / 16, x / 16 / 16, 2 * n - 2);
      LaneBound(z / 16 / 16, x / 16 / 16, 2 * n - 2);
      ThirdStep(z / 16 / 16, x / 16 / 16, n - 1);
      var a, b, r := z % 16, z / 16 % 16, z / 16 / 16;
      assert a == OnesIn(x % 16, 4) && b == OnesIn(x / 16 % 16, 4);
      hide Lanes4, OnesIn;
      Sixteens(x);
      Decompose(z);
      Carry(a, b, r);
      EightBits(x);
      ThirdEnd(z, x, n, a + b, r);
    }
  }

  lemma ThirdEnd(z: nat, x: nat, n: nat, lane: nat, r: nat)
    requires n > 0 && (z + z / 16) % 16 == lane == OnesIn(x % 256, 8) && (z + z / 16) / 256 == r + r / 16
    requires Lanes8(Keep4Of8(r + r / 16, n - 1), x / 256, n - 1)
    ensures Lanes8(Keep4Of8(z + z / 16, n), x, n)
  {
    hide OnesIn;
    var w := Keep4Of8(r + r / 16, n - 1);
    assert Keep4Of8(z + z / 16, n) == lane + 256 * w;
    ModUnique(lane + 256 * w, 256, w, lane);
  }

  lemma LaneBound(z: nat, x: nat, n: nat)
    requires Lanes4(z, x, n)
    ensures z % 16 <= 4
  {}

  lemma EightBits(x: nat)
    ensures OnesIn(x % 256, 8) == OnesIn(x % 16, 4) + OnesIn(x / 16 % 16, 4)
  {
    Sixteens(x);
    assert Pow2(4) == 16;
    hide OnesIn, Pow2;
    OnesSplit(x % 16, x / 16 % 16, 4, 4, 16);
  }

  const TWO32: int := 0x1_0000_0000

  /** The count of each byte of a 32-bit word, in that byte. */
  function Swar(x: nat): (y: int) {
    var pairs := x - And(x / 2, 0x5555_5555, 32);
    if pairs < 0 then 0 else
    var nibbles := And(pairs, 0x3333_3333, 32) + And(pairs / 4, 0x3333_3333, 32);
    And(nibbles + nibbles / 16, 0x0F0F_0F0F, 32)
  }

  lemma SwarLanes(x: nat)
    requires x < TWO32
    ensures Swar(x) >= 0 && Lanes8(Swar(x), x, 4)
  {
    hide Lanes2, Lanes4, Lanes8, Keep1Of2, Keep2Of4, Keep4Of8, Pow2, And;
    Pow2Of32();
    Masks(x / 2);
    FirstStep(x, 16);
    var pairs := x - Keep1Of2(x / 2, 16);
    Masks(pairs);
    Masks(pairs / 4);
    SecondStep(pairs, x, 8);
    var nibbles := Keep2Of4(pairs, 8) + Keep2Of4(pairs / 4, 8);
    Masks(nibbles + nibbles / 16);
    ThirdStep(nibbles, x, 4);
  }

  lemma Pow2Of32()
    ensures Pow2(32) == TWO32
  {
    hide Pow2;
    Pow2Of8();
    Pow2Sum(8, 8);
    Pow2Sum(16, 16);
  }

  lemma LaneStep(y: nat, x: nat, n: nat)
    requires n > 0 && Lanes8(y, x, n)
    ensures y == OnesIn(x % 256, 8) + 256 * (y / 256) && Lanes8(y / 256, x / 256, n - 1)
  {
    hide OnesIn;
  }

  lemma LastLane(y: nat, x: nat)
    requires Lanes8(y, x, 0)
    ensures y == 0
  {}

  /** Four lanes of a word. */
  predicate Lanes(y: int, a: nat, b: nat, c: nat, d: nat) { y == a + 0x100 * b + 0x1_0000 * c + 0x100_0000 * d }

  lemma SwarOfBytes(b0: Byte, b1: Byte, b2: Byte, b3: Byte)
    ensures Lanes(Swar(Word32(b0, b1, b2, b3)), OnesIn(b0, 8), OnesIn(b1, 8), OnesIn(b2, 8), OnesIn(b3, 8))
  {
    hide Swar, OnesIn, Lanes8;
    var x3: nat := b3;
    var x2: nat := b2 + 256 * x3;
    var x1: nat := b1 + 256 * x2;
    var x := Word32(b0, b1, b2, b3);
    assert x == b0 + 256 * x1;
    SwarLanes(x);
    var y := Swar(x);
    LaneStep(y, x, 4);
    ModUnique(x, 256, x1, b0);
    LaneStep(y / 256, x1, 3);
    ModUnique(x1, 256, x2, b1);
    LaneStep(y / 256 / 256, x2, 2);
    ModUnique(x2, 256, x3, b2);
    ModUnique(x3, 256, 0, b3);
    LaneStep(y / 256 / 256 / 256, x3, 1);
    LastLane(y / 256 / 256 / 256 / 256, x3 / 256);
  }

  /** A 32-bit word with these bytes, least significant first. */
  function Word32(b0: int, b1: int, b2: int, b3: int): (x: nat)
    requires 0 <= b0 < 256 && 0 <= b1 < 256 && 0 <= b2 < 256 && 0 <= b3 < 256
    ensures x < TWO32
  {
    b0 + 0x100 * b1 + 0x1_0000 * b2 + 0x100_0000 * b3
  }

  /** Multiplying by 0x01010101 adds the four lanes up in the top byte. */
  lemma Gather(y: int, a: nat, b: nat, c: nat, d: nat)
    requires Lanes(y, a, b, c, d) && a + b + c + d < 256
    ensures 0 <= y < TWO32 && y * 0x0101_0101 % TWO32 / 0x100_0000 == a + b + c + d
  {
    var low := a + 0x100 * (a + b) + 0x1_0000 * (a + b + c);
    var top := a + b + c + d;
    var over := (b + c + d) + 0x100 * (c + d) + 0x1_0000 * d;
    assert y * 0x0101_0101 == TWO32 * over + (low + 0x100_0000 * top);
    ModUnique(y * 0x0101_0101, TWO32, over, low + 0x100_0000 * top);
  }

  /** Set bits of the bytes from `i` to `j`. */
  function ByteOnes(p: Bytes, i: nat, j: nat): (c: nat)
    requires i <= j <= |p|
    ensures c <= 8 * (j - i)
    decreases j
  {
    if i == j then 0 else ByteOnes(p, i, j - 1) + OnesIn(p[j - 1], 8)
  }

  lemma FourBytes(p: Bytes, i: nat, j: nat)
    requires i <= j && j + 4 <= |p|
    ensures ByteOnes(p, i, j + 4) == ByteOnes(p, i, j) + (OnesIn(p[j], 8) + OnesIn(p[j + 1], 8) + OnesIn(p[j + 2], 8) + OnesIn(p[j + 3], 8))
  {
    hide OnesIn;
    assert ByteOnes(p, i, j + 4) == ByteOnes(p, i, j + 3) + OnesIn(p[j + 3], 8);
    assert ByteOnes(p, i, j + 3) == ByteOnes(p, i, j + 2) + OnesIn(p[j + 2], 8);
    assert ByteOnes(p, i, j + 2) == ByteOnes(p, i, j + 1) + OnesIn(p[j + 1], 8);
  }

  /** Bytes and bits count the same. */
  lemma {:induction false} OnesOfBytes(p: Bytes, i: nat, j: nat)
    requires i <= j <= |p|
    ensures Ones(p, 8 * i, 8 * (j - i)) == ByteOnes(p, i, j)
    decreases j
  {
    hide OnesIn, Bit;
    if i < j {
      hide Ones;
      OnesOfBytes(p, i, j - 1);
      OnesOfByte(p, 8 * i, j - 1, 8 * (j - 1 - i));
      assert 8 * (j - i) == 8 * (j - 1 - i) + 8;
    }
  }

  function BoolToInt(b: bool): (n: nat) { if b then 1 else 0 }

  lemma OnesOfByte(p: Bytes, o: nat, k: nat, n: nat)
    requires k < |p| && o + n == 8 * k
    ensures Ones(p, o, n + 8) == Ones(p, o, n) + OnesIn(p[k], 8)
  {
    var b := p[k];
    EightOnes(p, o, n);
    EightBitsOf(b);
    hide Ones, OnesIn;
    forall j | 0 <= j < 8 ensures Bit(p, o + n + j) == ByteBit(b, j) {
      assert (o + n + j) / 8 == k && (o + n + j) % 8 == j;
    }
  }

  lemma EightOnes(p: Bytes, o: nat, n: nat)
    ensures Ones(p, o, n + 8) == Ones(p, o, n)
              + BoolToInt(Bit(p, o + n)) + BoolToInt(Bit(p, o + n + 1)) + BoolToInt(Bit(p, o + n + 2)) + BoolToInt(Bit(p, o + n + 3))
              + BoolToInt(Bit(p, o + n + 4)) + BoolToInt(Bit(p, o + n + 5)) + BoolToInt(Bit(p, o + n + 6)) + BoolToInt(Bit(p, o + n + 7))
  {
    hide Bit;
    assert Ones(p, o, n + 8) == Ones(p, o, n + 7) + BoolToInt(Bit(p, o + n + 7));
    assert Ones(p, o, n + 7) == Ones(p, o, n + 6) + BoolToInt(Bit(p, o + n + 6));
    assert Ones(p, o, n + 6) == Ones(p, o, n + 5) + BoolToInt(Bit(p, o + n + 5));
    assert Ones(p, o, n + 5) == Ones(p, o, n + 4) + BoolToInt(Bit(p, o + n + 4));
    assert Ones(p, o, n + 4) == Ones(p, o, n + 3) + BoolToInt(Bit(p, o + n + 3));
    assert Ones(p, o, n + 3) == Ones(p, o, n + 2) + BoolToInt(Bit(p, o + n + 2));
    assert Ones(p, o, n + 2) == Ones(p, o, n + 1) + BoolToInt(Bit(p, o + n + 1));
  }

  lemma EightBitsOf(b: Byte)
    ensures OnesIn(b, 8) == BoolToInt(ByteBit(b, 0)) + BoolToInt(ByteBit(b, 1)) + BoolToInt(ByteBit(b, 2)) + BoolToInt(ByteBit(b, 3))
                            + BoolToInt(ByteBit(b, 4)) + BoolToInt(ByteBit(b, 5)) + BoolToInt(ByteBit(b, 6)) + BoolToInt(ByteBit(b, 7))
  {
    hide OnesIn, Trues, BoolToInt, Bits;
    OnesOfBits(b, 8);
    TruesOf8(Bits(b, 8));
  }

  lemma TruesOf8(s: seq<bool>)
    requires |s| == 8
    ensures Trues(s) == BoolToInt(s[7]) + BoolToInt(s[6]) + BoolToInt(s[5]) + BoolToInt(s[4])
                        + BoolToInt(s[3]) + BoolToInt(s[2]) + BoolToInt(s[1]) + BoolToInt(s[0])
  {
    hide Trues, BoolToInt;
    assert s[0..] == s;
    TruesStep(s, 0);
    TruesStep(s, 1);
    TruesStep(s, 2);
    TruesStep(s, 3);
    TruesStep(s, 4);
    TruesStep(s, 5);
    TruesStep(s, 6);
    TruesStep(s, 7);
  }

  lemma TruesStep(s: seq<bool>, k: nat)
    requires k < |s|
    ensures Trues(s[k..]) == BoolToInt(s[k]) + Trues(s[k + 1..])
    ensures k + 1 == |s| ==> Trues(s[k + 1..]) == 0
  {
    assert s[k..][1..] == s[k + 1..];
  }

  function Trues(s: seq<bool>): (n: nat) { if s == [] then 0 else BoolToInt(s[0]) + Trues(s[1..]) }

  lemma {:induction false} OnesOfBits(x: nat, n: nat)
    ensures OnesIn(x, n) == Trues(Bits(x, n))
  {
    if n > 0 {
      OnesOfBits(x / 2, n - 1);
      assert Bits(x, n)[1..] == Bits(x / 2, n - 1);
    }
  }

  /** Seven words at a time: each lane sums to at most 56, so all four lanes to at most 224. */
  method CountSeven(p: Bytes, i: nat) returns (n: nat)
    requires i + 28 <= |p|
    ensures n == ByteOnes(p, i, i + 28)
  {
    hide OnesIn, Swar, ByteOnes, Lanes;
    var sum := 0;
    LanesZero();
    ghost var a: nat, b: nat, c: nat, d: nat := 0, 0, 0, 0;
    NoBytes(p, i);
    for k := 0 to 7
      invariant Lanes(sum, a, b, c, d) && a + b + c + d == ByteOnes(p, i, i + 4 * k)
    {
      var j := i + 4 * k;
      var aux := Swar(Word32(p[j], p[j + 1], p[j + 2], p[j + 3]));
      SwarOfBytes(p[j], p[j + 1], p[j + 2], p[j + 3]);
      FourBytes(p, i, j);
      LanesAdd(sum, aux, a, b, c, d, OnesIn(p[j], 8), OnesIn(p[j + 1], 8), OnesIn(p[j + 2], 8), OnesIn(p[j + 3], 8));
      sum := sum + aux;
      a, b, c, d := a + OnesIn(p[j], 8), b + OnesIn(p[j + 1], 8), c + OnesIn(p[j + 2], 8), d + OnesIn(p[j + 3], 8);
    }
    assert a + b + c + d <= 224;
    Gather(sum, a, b, c, d);
    n := sum * 0x0101_0101 % TWO32 / 0x100_0000;
  }

  lemma LanesZero()
    ensures Lanes(0, 0, 0, 0, 0)
  {}

  lemma LanesAdd(x: int, y: int, a: nat, b: nat, c: nat, d: nat, e: nat, f: nat, g: nat, h: nat)
    requires Lanes(x, a, b, c, d) && Lanes(y, e, f, g, h)
    ensures Lanes(x + y, a + e, b + f, c + g, d + h)
  {}

  lemma NoBytes(p: Bytes, i: nat)
    requires i <= |p|
    ensures ByteOnes(p, i, i) == 0
  {}

  lemma {:induction false} BytesSplit(p: Bytes, i: nat, j: nat, k: nat)
    requires i <= j <= k <= |p|
    ensures ByteOnes(p, i, k) == ByteOnes(p, i, j) + ByteOnes(p, j, k)
    decreases k
  {
    hide OnesIn;
    if j < k { BytesSplit(p, i, j, k - 1); }
  }

  /** redisPopcount on the bytes `p`, whose address is `align` modulo 4. */
  method RedisPopcount(p: Bytes, align: nat) returns (bits: nat)
    ensures bits == Ones(p, 0, 8 * |p|)
  {
    hide OnesIn, ByteOnes, Ones;
    var i := 0;
    bits := 0;
    NoBytes(p, 0);
    while (align + i) % 4 != 0 && i < |p|
      invariant 0 <= i <= |p| && bits == ByteOnes(p, 0, i)
      decreases |p| - i
    {
      OneByte(p, i);
      bits := bits + OnesIn(p[i], 8);
      i := i + 1;
    }
    while |p| - i >= 28
      invariant 0 <= i <= |p| && bits == ByteOnes(p, 0, i)
      decreases |p| - i
    {
      var n := CountSeven(p, i);
      BytesSplit(p, 0, i, i + 28);
      bits := bits + n;
      i := i + 28;
    }
    while i < |p|
      invariant 0 <= i <= |p| && bits == ByteOnes(p, 0, i)
    {
      OneByte(p, i);
      bits := bits + OnesIn(p[i], 8);
      i := i + 1;
    }
    OnesOfBytes(p, 0, |p|);
  }

  lemma OneByte(p: Bytes, i: nat)
    requires i < |p|
    ensures ByteOnes(p, 0, i + 1) == ByteOnes(p, 0, i) + OnesIn(p[i], 8)
  {
    hide OnesIn;
  }
}
