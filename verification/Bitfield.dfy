/** Integers of any width at any bit offset of a string (bitops.c). */
module Bitfield {
  import opened Words
  import opened Decimal
  import opened Bitmap

  const TWO64: int := 0x1_0000_0000_0000_0000
  const TWO63: int := 0x8000_0000_0000_0000

  lemma TwoPowers()
    ensures Pow2(64) == TWO64 && Pow2(63) == TWO63
  {
    hide Pow2;
    Pow2Of8();
    Pow2Sum(8, 8);
    Pow2Sum(16, 16);
    Pow2Sum(32, 32);
    Pow2Sum(1, 63);
    assert Pow2(1) == 2 by { Pow2One(); }
  }

  lemma Pow2One()
    ensures Pow2(1) == 2 && Pow2(0) == 1
  {}

  /** What the bits of `p` become when `v` is written at `o` with `bits` bits. */
  ghost predicate Wrote(p: Bytes, p': Bytes, o: nat, bits: nat, v: nat) {
    |p'| == |p| && forall m: nat :: Bit(p', m) == if o <= m < o + bits then Low(v, bits)[m - o] else Bit(p, m)
  }

  method SetUnsignedBitfield(p: array<Byte>, offset: nat, bits: nat, value: nat)
    requires bits <= 64 && value < TWO64 && offset + bits <= 8 * p.Length
    modifies p
    ensures Wrote(old(p[..]), p[..], offset, bits, value)
  {
    var at := offset;
    for j := 0 to bits
      invariant at == offset + j
      invariant forall m: nat :: Bit(p[..], m) == if offset <= m < at then Low(value, bits)[m - offset] else Bit(old(p[..]), m)
    {
      var bitval := value / Pow2(bits - 1 - j) % 2 == 1;
      var byte, bit := at / 8, at % 8;
      ghost var before := p[..];
      p[byte] := SetByteBit(p[byte], bit, bitval);
      assert p[..] == before[byte := SetByteBit(before[byte], bit, bitval)];
      LowAt(value, bits, j);
      forall m: nat ensures Bit(p[..], m) == if m == at then bitval else Bit(before, m) {
        SetBitAt(before, at, bitval, m);
      }
      at := at + 1;
    }
  }

  /** One bit more; shifting drops nothing, because the value has fewer than 64 bits before it. */
  lemma NumStep(p: Bytes, o: nat, j: nat)
    requires j < 64
    ensures Num(Window(p, o, j + 1)) == 2 * Num(Window(p, o, j)) + (if Bit(p, o + j) then 1 else 0)
    ensures 2 * Num(Window(p, o, j)) < TWO64
  {
    assert Window(p, o, j + 1)[..j] == Window(p, o, j);
    var v := Num(Window(p, o, j));
    hide Num, Window;
    TwoPowers();
    Pow2Grows(j, 63);
  }

  method GetUnsignedBitfield(p: Bytes, offset: nat, bits: nat) returns (value: nat)
    requires bits <= 64 && offset + bits <= 8 * |p|
    ensures value == Num(Window(p, offset, bits))
  {
    hide Num, ByteBit, Window;
    value := 0;
    for j := 0 to bits
      invariant value == Num(Window(p, offset, j))
    {
      var at := offset + j;
      var bitval := ByteBit(p[at / 8], at % 8);
      NumStep(p, offset, j);
      value := 2 * value % TWO64 + if bitval then 1 else 0;
    }
  }

  /** What was written is read back, for every width, offset and value; other bits are as before. */
  lemma ReadBack(p: Bytes, p': Bytes, o: nat, bits: nat, v: nat)
    requires Wrote(p, p', o, bits, v)
    ensures Num(Window(p', o, bits)) == v % Pow2(bits)
  {
    assert Window(p', o, bits) == Low(v, bits);
    NumLow(v, bits);
  }

  /** Writing back what was read changes nothing. */
  lemma WriteBack(p: Bytes, p': Bytes, o: nat, bits: nat)
    requires Wrote(p, p', o, bits, Num(Window(p, o, bits)))
    ensures forall m :: Bit(p', m) == Bit(p, m)
  {
    LowNum(Window(p, o, bits));
  }

  // ----- Signed values -----

  /** The value of a two's complement integer of the given width. */
  function AsSigned(u: nat, bits: nat): (v: int)
    requires 1 <= bits
  {
    if u >= Pow2(bits - 1) then u - Pow2(bits) else u
  }

  /** getSignedBitfield: the sign bit is copied into all higher bits. */
  method GetSignedBitfield(p: Bytes, offset: nat, bits: nat) returns (value: int)
    requires 1 <= bits <= 64 && offset + bits <= 8 * |p|
    ensures value == AsSigned(Num(Window(p, offset, bits)), bits)
    ensures 0 <= value + Pow2(bits - 1) < Pow2(bits)
  {
    var u := GetUnsignedBitfield(p, offset, bits);
    TwoPowers();
    Pow2Grows(bits, 64);
    value := ToSigned(u);
    if bits < 64 {
      SignBit(u, bits);
      Pow2Grows(bits, 63);
      if u / Pow2(bits - 1) % 2 == 1 { value := ToSigned(u + (TWO64 - Pow2(bits))); }
    }
  }

  /** An unsigned 64-bit value as a signed one. */
  function ToSigned(u: nat): (v: int)
    requires u < TWO64
    ensures -TWO63 <= v < TWO63 && (v - u) % TWO64 == 0
  {
    if u >= TWO63 then u - TWO64 else u
  }

  function ToUnsigned(v: int): (u: nat)
    ensures u < TWO64
  {
    v % TWO64
  }

  lemma SignBit(u: nat, bits: nat)
    requires 1 <= bits && u < Pow2(bits)
    ensures u / Pow2(bits - 1) % 2 == 1 <==> u >= Pow2(bits - 1)
  {
    var p := Pow2(bits - 1);
    if u >= p { ModUnique(u, p, 1, u - p); } else { ModUnique(u, p, 0, u); }
  }
}
