/** Bytes and 64-bit machine words. A word is its bits, least significant first. */
module Words {

  type Byte = b: int | 0 <= b < 256

  type Word = w: seq<bool> | |w| == 64 witness seq(64, _ => false)

  function Zeros(n: nat): (z: seq<bool>)
    ensures |z| == n
  {
    seq(n, _ => false)
  }

  function Pow2(n: nat): (p: nat)
    ensures p > 0
  {
    if n == 0 then 1 else 2 * Pow2(n - 1)
  }

  /** The `len` low bits of `n`. */
  function Bits(n: nat, len: nat): (s: seq<bool>)
    ensures |s| == len
  {
    if len == 0 then [] else [n % 2 == 1] + Bits(n / 2, len - 1)
  }

  /** The number whose bits are `s`. */
  function Value(s: seq<bool>): (n: nat)
    ensures n < Pow2(|s|)
  {
    if s == [] then 0 else (if s[0] then 1 else 0) + 2 * Value(s[1..])
  }

  lemma {:induction false} BitsOfValue(s: seq<bool>)
    ensures Bits(Value(s), |s|) == s
  {
    if s != [] { BitsOfValue(s[1..]); }
  }

  lemma {:induction false} ValueOfBits(n: nat, len: nat)
    requires n < Pow2(len)
    ensures Value(Bits(n, len)) == n
  {
    if len != 0 { ValueOfBits(n / 2, len - 1); }
  }

  lemma Pow2Of8()
    ensures Pow2(8) == 256
  {
    assert Pow2(4) == 16;
  }

  function Xor(a: Word, b: Word): (r: Word) {
    seq(64, i requires 0 <= i < 64 => a[i] != b[i])
  }

  function Or(a: Word, b: Word): (r: Word) {
    seq(64, i requires 0 <= i < 64 => a[i] || b[i])
  }

  function ShiftRight(a: Word, k: nat): (r: Word)
    requires k <= 64
  {
    a[k..] + Zeros(k)
  }

  function ShiftLeft(a: Word, k: nat): (r: Word)
    requires k <= 64
  {
    Zeros(k) + a[..64 - k]
  }

  /** At most 64 bits, zero-extended to a word. */
  function Extend(s: seq<bool>): (r: Word)
    requires |s| <= 64
  {
    s + Zeros(64 - |s|)
  }

  function ByteWord(b: Byte): (r: Word) { Extend(Bits(b, 8)) }

  /** Byte `k` of a word, counted from the least significant one: `(a >> 8k) & 0xff`. */
  function ByteAt(a: Word, k: nat): (b: Byte)
    requires k < 8
  {
    Pow2Of8();
    Value(a[8 * k..8 * k + 8])
  }

  function Reverse(a: Word): (r: Word) {
    seq(64, i requires 0 <= i < 64 => a[63 - i])
  }

  lemma XorCancels(a: Word, b: Word, c: Word)
    requires Xor(a, b) == Xor(a, c)
    ensures b == c
  {
    forall i | 0 <= i < 64 ensures b[i] == c[i] {
      assert Xor(a, b)[i] == Xor(a, c)[i];
    }
  }
}
