/** Overflow of bitfield arithmetic (bitops.c), over 64-bit machine integers written out. */
module BitfieldOverflow {
  import opened Wrappers
  import opened Words
  import opened Bitmap
  import opened Bitfield

  datatype Policy = Wrap | Sat | Fail

  /** The code returned (0, 1 or -1) and the value stored through `limit`, if any. */
  datatype Check = Check(code: int, limit: Option<int>)

  /** The result of 64-bit signed arithmetic, wrapped around. */
  function Signed64(x: int): (v: int) { ToSigned(ToUnsigned(x)) }

  lemma Signed64Of(x: int)
    ensures Int64(x) ==> Signed64(x) == x
    ensures TWO63 <= x < TWO64 ==> Signed64(x) == x - TWO64
    ensures -TWO64 <= x < -TWO63 ==> Signed64(x) == x + TWO64
  {
    if Int64(x) {
      ModUnique(x, TWO64, if x < 0 then -1 else 0, if x < 0 then x + TWO64 else x);
    } else if TWO63 <= x < TWO64 {
      ModUnique(x, TWO64, 0, x);
    } else if -TWO64 <= x < -TWO63 {
      ModUnique(x, TWO64, -1, x + TWO64);
    }
  }

  predicate Int64(v: int) { -TWO63 <= v < TWO63 }

  function Max(signed: bool, bits: nat): (m: int)
    requires 1 <= bits
  {
    (if signed then Pow2(bits - 1) else Pow2(bits)) - 1
  }

  function Min(signed: bool, bits: nat): (m: int)
    requires 1 <= bits
  {
    if signed then -Max(signed, bits) - 1 else 0
  }

  predicate Fits(signed: bool, bits: nat, x: int)
    requires 1 <= bits
  {
    Min(signed, bits) <= x <= Max(signed, bits)
  }

  /** checkUnsignedBitfieldOverflow. */
  function CheckUnsigned(value: nat, incr: int, bits: nat, policy: Policy): (c: Check)
    requires 1 <= bits <= 63 && value < TWO64 && Int64(incr)
  {
    var max := Pow2(bits) - 1;
    var maxincr := Signed64(max - value);
    var minincr := Signed64(0 - value);
    var wrapped := ToUnsigned(value + incr) % Pow2(bits);
    if value > max || (incr > 0 && incr > maxincr) then
      Check(1, match policy case Wrap => Some(wrapped) case Sat => Some(max) case Fail => None)
    else if incr < 0 && incr < minincr then
      (match policy case Wrap => Check(1, Some(wrapped)) case Sat => Check(-1, Some(0)) case Fail => Check(-1, None))
    else Check(0, None)
  }

  /** checkSignedBitfieldOverflow. */
  function CheckSigned(value: int, incr: int, bits: nat, policy: Policy): (c: Check)
    requires 1 <= bits <= 64 && Int64(value) && Int64(incr)
  {
    var max := if bits == 64 then TWO63 - 1 else Pow2(bits - 1) - 1;
    var min := -max - 1;
    var maxincr := Signed64(max - value);
    var minincr := Signed64(min - value);
    var wrapped := SignedWrap(value, incr, bits);
    if value > max || (bits != 64 && incr > maxincr) || (value >= 0 && incr > 0 && incr > maxincr) then
      Check(1, match policy case Wrap => Some(wrapped) case Sat => Some(max) case Fail => None)
    else if value < min || (bits != 64 && incr < minincr) || (value < 0 && incr < 0 && incr < minincr) then
      (match policy case Wrap => Check(1, Some(wrapped)) case Sat => Check(-1, Some(min)) case Fail => Check(-1, None))
    else Check(0, None)
  }

  /** The wrapping branch: unsigned addition, then the sign bit is spread over the bits above the width. */
  function SignedWrap(value: int, incr: int, bits: nat): (v: int)
    requires 1 <= bits <= 64
  {
    TwoPowers();
    Pow2Grows(bits, 64);
    var c := (ToUnsigned(value) + ToUnsigned(incr)) % TWO64;
    if bits == 64 then ToSigned(c)
    else if c / Pow2(bits - 1) % 2 == 1 then ToSigned(c % Pow2(bits) + (TWO64 - Pow2(bits)))
    else ToSigned(c % Pow2(bits))
  }

  /** The value in range that is congruent to `x` modulo 2^bits. */
  function WrapTo(signed: bool, bits: nat, x: int): (v: int)
    requires 1 <= bits
  {
    var r := x % Pow2(bits);
    if signed then AsSigned(r, bits) else r
  }

  /** There is exactly one such value. */
  lemma WrapToUnique(signed: bool, bits: nat, x: int, v: int)
    requires 1 <= bits
    ensures Fits(signed, bits, WrapTo(signed, bits, x)) && (WrapTo(signed, bits, x) - x) % Pow2(bits) == 0
    ensures Fits(signed, bits, v) && (v - x) % Pow2(bits) == 0 <==> v == WrapTo(signed, bits, x)
  {
    var m, w := Pow2(bits), WrapTo(signed, bits, x);
    RangeSize(signed, bits);
    Congruent(x, m, x / m);
    assert (w - x) % m == 0;
    hide Fits, WrapTo, Pow2;
    if Fits(signed, bits, v) && (v - x) % m == 0 {
      RangeGap(signed, bits, v, w);
      CongruentEqual(v, w, x, m);
    }
  }

  lemma RangeSize(signed: bool, bits: nat)
    requires 1 <= bits
    ensures Max(signed, bits) - Min(signed, bits) == Pow2(bits) - 1 && Pow2(bits) == 2 * Pow2(bits - 1)
  {}

  lemma RangeGap(signed: bool, bits: nat, v: int, w: int)
    requires 1 <= bits && Fits(signed, bits, v) && Fits(signed, bits, w)
    ensures v - w < Pow2(bits) && w - v < Pow2(bits)
  {
    RangeSize(signed, bits);
  }

  lemma Congruent(x: int, m: int, q: int)
    requires m > 0 && q == x / m
    ensures (x % m - x) % m == 0 && (x % m - m - x) % m == 0
  {
    ModUnique(x % m - x, m, -q, 0) by { assert x == m * q + x % m; assert m * -q == -(m * q); }
    ModUnique(x % m - m - x, m, -q - 1, 0) by { assert x == m * q + x % m; assert m * (-q - 1) == -(m * q) - m; }
  }

  lemma CongruentEqual(v: int, w: int, x: int, m: int)
    requires m > 0 && (v - x) % m == 0 && (w - x) % m == 0 && -m < v - w < m
    ensures v == w
  {
    var a, b := (v - x) / m, (w - x) / m;
    assert v - w == m * (a - b) by { assert v - x == m * a; assert w - x == m * b; assert m * a - m * b == m * (a - b); }
    assert a - b >= 1 ==> m * (a - b) >= m;
    assert a - b <= -1 ==> m * (a - b) <= -m;
  }

  /** Reducing modulo 2^64 first does not matter. */
  lemma ModTwice(x: int, bits: nat)
    requires bits <= 64
    ensures x % TWO64 % Pow2(bits) == x % Pow2(bits)
  {
    TwoPowers();
    Pow2Sum(bits, 64 - bits);
    hide Pow2;
    ModMod(x, Pow2(bits), Pow2(64 - bits));
  }

  lemma ModMod(x: int, m: int, k: int)
    requires m > 0 && k > 0
    ensures m * k > 0 && x % (m * k) % m == x % m
  {
    Positive(m, k);
    var q, r := x / (m * k), x % (m * k);
    assert x == (m * k) * q + r;
    Regroup(m, k, q, r / m);
    assert r == m * (r / m) + r % m;
    ModUnique(x, m, k * q + r / m, r % m);
  }

  lemma Positive(m: int, k: int)
    requires m > 0 && k > 0
    ensures m * k > 0
  {}

  lemma Regroup(m: int, k: int, q: int, s: int)
    ensures (m * k) * q + m * s == m * (k * q + s)
  {}

  lemma UnsignedAddMod(a: int, b: int)
    ensures (ToUnsigned(a) + ToUnsigned(b)) % TWO64 == ToUnsigned(a + b)
  {}

  /** The wrapping branch computes the value in range congruent to the true sum. */
  lemma SignedWrapCorrect(value: int, incr: int, bits: nat)
    requires 1 <= bits <= 64
    ensures SignedWrap(value, incr, bits) == WrapTo(true, bits, value + incr)
  {
    var x := value + incr;
    var c := ToUnsigned(x);
    UnsignedAddMod(value, incr);
    TwoPowers();
    ModTwice(x, bits);
    Pow2Grows(bits, 64);
    if bits < 64 {
      Pow2Grows(bits, 63);
      SignOfMod(c, bits);
    }
  }

  lemma SignOfMod(c: nat, bits: nat)
    requires 1 <= bits
    ensures c / Pow2(bits - 1) % 2 == 1 <==> c % Pow2(bits) >= Pow2(bits - 1)
  {
    var p := Pow2(bits - 1);
    var q, r := c / p, c % p;
    assert c == (2 * p) * (q / 2) + (p * (q % 2) + r) by {
      assert c == p * q + r;
      assert p * q == p * (2 * (q / 2) + q % 2);
      assert p * (2 * (q / 2)) == (2 * p) * (q / 2);
    }
    assert q % 2 == 0 || q % 2 == 1;
    ModUnique(c, 2 * p, q / 2, p * (q % 2) + r);
  }

  // ----- What the checks promise -----

  /** The integer to store when `x` is wanted, or None when the operation fails. */
  function Stored(signed: bool, bits: nat, policy: Policy, x: int): (v: Option<int>)
    requires 1 <= bits
  {
    if Fits(signed, bits, x) then Some(x)
    else match policy
      case Wrap => Some(WrapTo(signed, bits, x))
      case Sat => Some(if x > Max(signed, bits) then Max(signed, bits) else Min(signed, bits))
      case Fail => None
  }

  predicate Nearer(x: int, v: int, w: int) { (if v < x then x - v else v - x) <= (if w < x then x - w else w - x) }

  /**
   * What the policies mean: a value that fits is stored as it is; else wrapping keeps it modulo the field size,
   * saturating takes the nearest value that fits, and failing stores nothing.
   */
  lemma StoredExactly(signed: bool, bits: nat, policy: Policy, x: int)
    requires 1 <= bits
    ensures var v := Stored(signed, bits, policy, x);
            && (v.None? <==> policy.Fail? && !Fits(signed, bits, x))
            && (v.Some? ==> Fits(signed, bits, v.value) && (Fits(signed, bits, x) ==> v.value == x))
            && (v.Some? && policy.Wrap? ==> (v.value - x) % Pow2(bits) == 0)
            && (v.Some? && policy.Sat? ==> forall w: int | Fits(signed, bits, w) :: Nearer(x, v.value, w))
  {
    hide WrapTo, Pow2, Max, Min;
    WrapToUnique(signed, bits, x, 0);
    BoundsFit(signed, bits);
    if Fits(signed, bits, x) { SameMod(x, Pow2(bits)); }
  }

  lemma BoundsFit(signed: bool, bits: nat)
    requires 1 <= bits
    ensures Fits(signed, bits, Max(signed, bits)) && Fits(signed, bits, Min(signed, bits))
  {
    RangeSize(signed, bits);
  }

  lemma SameMod(x: int, m: int)
    requires m > 0
    ensures (x - x) % m == 0
  {}

  /** The check says non-zero exactly if the true sum does not fit, and the limit is what to store then. */
  ghost predicate Exact(c: Check, signed: bool, bits: nat, policy: Policy, x: int)
    requires 1 <= bits
  {
    && (c.code != 0 <==> !Fits(signed, bits, x))
    && (c.code != 0 ==> c.limit == Stored(signed, bits, policy, x) && c.code == if policy.Wrap? || x > Max(signed, bits) then 1 else -1)
  }

  lemma UnsignedExact(value: nat, incr: int, bits: nat, policy: Policy)
    requires 1 <= bits <= 63 && value < TWO64 && Int64(incr) && (Fits(false, bits, value) || incr == 0)
    ensures Exact(CheckUnsigned(value, incr, bits, policy), false, bits, policy, value + incr)
  {
    TwoPowers();
    Pow2Grows(bits, 63);
    ModTwice(value + incr, bits);
    Signed64Of(Pow2(bits) - 1 - value);
    Signed64Of(0 - value);
    hide Pow2, Signed64, ToUnsigned;
    assert ToUnsigned(value + incr) % Pow2(bits) == WrapTo(false, bits, value + incr) by { ToUnsignedIs(value + incr); }
    hide WrapTo;
  }

  lemma ToUnsignedIs(x: int)
    ensures ToUnsigned(x) == x % TWO64
  {}

  lemma SignedExact(value: int, incr: int, bits: nat, policy: Policy)
    requires 1 <= bits <= 64 && Int64(value) && Int64(incr) && Fits(true, bits, value)
    ensures Exact(CheckSigned(value, incr, bits, policy), true, bits, policy, value + incr)
  {
    Bounds(bits);
    SignedWrapCorrect(value, incr, bits);
    MaxIs(bits);
    hide SignedWrap, WrapTo, Signed64, Max;
    Signed64Of(Max(true, bits) - value);
    Signed64Of(Min(true, bits) - value);
  }

  lemma Bounds(bits: nat)
    requires 1 <= bits <= 64
    ensures 0 <= Max(true, bits) < TWO63 && (bits < 64 ==> 2 * (Max(true, bits) + 1) <= TWO63)
  {
    TwoPowers();
    Pow2Grows(bits - 1, 63);
    if bits < 64 {
      Pow2Grows(bits - 1, 62);
      Pow2Sum(1, 62);
      Pow2One();
      hide Pow2;
    }
  }

  lemma MaxIs(bits: nat)
    requires 1 <= bits <= 64
    ensures Max(true, bits) == if bits == 64 then TWO63 - 1 else Pow2(bits - 1) - 1
  {
    TwoPowers();
  }

  /** Values so far below the range that the distance to its top wraps around. */
  predicate Astray(bits: nat, value: int)
    requires 1 <= bits
  {
    bits < 64 && value < Min(true, bits) && Max(true, bits) - value >= TWO63
  }

  /** For SET, the value may be anything; saturation goes to the nearer bound exactly if the value is not astray. */
  lemma SignedSetExact(value: int, bits: nat, policy: Policy)
    requires 1 <= bits <= 64 && Int64(value)
    ensures var c := CheckSigned(value, 0, bits, policy);
            && (c.code != 0 <==> !Fits(true, bits, value))
            && (c.code != 0 ==> (c.limit == Stored(true, bits, policy, value) <==> !(policy.Sat? && Astray(bits, value))))
            && (policy.Sat? && Astray(bits, value) ==> c.limit == Some(Max(true, bits)))
  {
    Bounds(bits);
    SignedWrapCorrect(value, 0, bits);
    MaxIs(bits);
    hide SignedWrap, WrapTo, Signed64, Max;
    Signed64Of(Max(true, bits) - value);
    Signed64Of(Min(true, bits) - value);
  }

  /** The smallest 64-bit integer saturates an 8-bit field to its largest value. */
  lemma SaturatesUpwards()
    ensures CheckSigned(-TWO63, 0, 8, Sat).limit == Some(127)
  {
    SignedSetExact(-TWO63, 8, Sat);
    assert Pow2(7) == 128;
  }
}
