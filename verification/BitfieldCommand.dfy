/**
 * A whole BITFIELD call (bitops.c). It answers and writes as if the operations ran one after the
 * other on an infinite tape of bits, on unbounded integers.
 */
module BitfieldCommand {
  import opened Wrappers
  import opened Words
  import opened Decimal
  import opened Bitmap
  import opened Bitfield
  import opened BitfieldOverflow

  datatype Code = Get | Set | IncrBy

  datatype Op = Op(code: Code, signed: bool, bits: nat, offset: nat, i64: int, policy: Policy)

  /** What parsing the arguments guarantees. */
  predicate ValidOp(op: Op) {
    1 <= op.bits <= (if op.signed then 64 else 63) && Int64(op.i64) && op.offset < TWO63
  }

  predicate ValidOps(ops: seq<Op>) { forall i :: 0 <= i < |ops| ==> ValidOp(ops[i]) }

  datatype Reply = Int(v: int) | Nil

  // ----- The reference: a tape of bits -----

  type Tape = nat -> bool

  ghost function TapeOf(p: Bytes): (t: Tape) { (n: nat) => Bit(p, n) }

  ghost function Read(t: Tape, op: Op): (v: int)
    requires 1 <= op.bits
  {
    var u := Num(seq(op.bits, i requires 0 <= i < op.bits => t(op.offset + i)));
    if op.signed then AsSigned(u, op.bits) else u
  }

  ghost function Write(t: Tape, op: Op, v: int): (t': Tape) {
    (n: nat) => if op.offset <= n < op.offset + op.bits then Low(ToUnsigned(v), op.bits)[n - op.offset] else t(n)
  }

  /** The integer the operation asks for; an unsigned SET takes its argument modulo 2^64. */
  function Wanted(op: Op, oldval: int): (x: int) {
    if op.code.IncrBy? then oldval + op.i64 else if op.signed then op.i64 else ToUnsigned(op.i64)
  }

  /** What ends up stored; a signed SET far below its range saturates upwards. */
  function Outcome(op: Op, oldval: int): (v: Option<int>)
    requires 1 <= op.bits
  {
    if op.code.Set? && op.signed && op.policy.Sat? && Astray(op.bits, op.i64) then Some(Max(true, op.bits))
    else Stored(op.signed, op.bits, op.policy, Wanted(op, oldval))
  }

  ghost function TapeStep(t: Tape, op: Op): (t': Tape)
    requires ValidOp(op)
  {
    if op.code.Get? then t
    else match Outcome(op, Read(t, op)) case None => t case Some(v) => Write(t, op, v)
  }

  ghost function Answer(t: Tape, op: Op): (r: Reply)
    requires ValidOp(op)
  {
    var oldval := Read(t, op);
    if op.code.Get? then Int(oldval)
    else match Outcome(op, oldval)
      case None => Nil
      case Some(v) => Int(if op.code.IncrBy? then v else oldval)
  }

  ghost function TapeAfter(t: Tape, ops: seq<Op>): (t': Tape)
    requires ValidOps(ops)
  {
    if ops == [] then t else TapeStep(TapeAfter(t, ops[..|ops| - 1]), ops[|ops| - 1])
  }

  ghost function Answers(t: Tape, ops: seq<Op>): (rs: seq<Reply>)
    requires ValidOps(ops)
  {
    if ops == [] then []
    else Answers(t, ops[..|ops| - 1]) + [Answer(TapeAfter(t, ops[..|ops| - 1]), ops[|ops| - 1])]
  }

  ghost predicate Holds(p: Bytes, t: Tape) { forall n: nat :: Bit(p, n) == t(n) }

  // ----- One operation -----

  lemma ReadWindow(p: Bytes, t: Tape, op: Op)
    requires Holds(p, t) && 1 <= op.bits
    ensures Read(t, op) == var u := Num(Window(p, op.offset, op.bits)); if op.signed then AsSigned(u, op.bits) else u
  {
    assert Window(p, op.offset, op.bits) == seq(op.bits, i requires 0 <= i < op.bits => t(op.offset + i));
  }

  lemma ReadFits(t: Tape, op: Op)
    requires ValidOp(op)
    ensures Fits(op.signed, op.bits, Read(t, op)) && Int64(Read(t, op))
  {
    var u := Num(seq(op.bits, i requires 0 <= i < op.bits => t(op.offset + i)));
    assert u < Pow2(op.bits);
    hide Num;
    TwoPowers();
    if op.signed { Bounds(op.bits); } else { Pow2Grows(op.bits, 63); }
  }

  /** The new value as the code computes it, or None if nothing is written. */
  function NewValue(op: Op, oldval: int): (v: Option<int>)
    requires ValidOp(op) && !op.code.Get? && Int64(oldval) && (!op.signed ==> oldval >= 0)
  {
    var incr, value :=
      if op.code.IncrBy? then op.i64 else 0,
      if op.code.IncrBy? then oldval else if op.signed then op.i64 else ToUnsigned(op.i64);
    var c := if op.signed then CheckSigned(value, incr, op.bits, op.policy) else CheckUnsigned(value, incr, op.bits, op.policy);
    if c.code == 0 then Some(if op.signed then value + incr else ToUnsigned(value + incr))
    else c.limit
  }

  lemma NewValueIs(op: Op, oldval: int)
    requires ValidOp(op) && !op.code.Get? && Int64(oldval) && Fits(op.signed, op.bits, oldval)
    ensures NewValue(op, oldval) == Outcome(op, oldval)
  {
    hide CheckSigned, CheckUnsigned, WrapTo, Pow2;
    if op.signed {
      if op.code.IncrBy? { SignedExact(oldval, op.i64, op.bits, op.policy); } else { SignedSetExact(op.i64, op.bits, op.policy); }
    } else {
      var value := if op.code.IncrBy? then oldval else ToUnsigned(op.i64);
      UnsignedExact(value, if op.code.IncrBy? then op.i64 else 0, op.bits, op.policy);
      SmallUnsigned(op.bits);
    }
  }

  lemma SmallUnsigned(bits: nat)
    requires 1 <= bits <= 63
    ensures forall x :: Fits(false, bits, x) ==> ToUnsigned(x) == x
  {
    TwoPowers();
    Pow2Grows(bits, 63);
  }

  /** SET or INCRBY in place. */
  method Update(p: array<Byte>, op: Op, ghost t: Tape) returns (reply: Reply, changed: bool)
    requires ValidOp(op) && !op.code.Get? && op.offset + op.bits <= 8 * p.Length && Holds(p[..], t)
    modifies p
    ensures Holds(p[..], TapeStep(t, op)) && reply == Answer(t, op)
    ensures changed <==> Outcome(op, Read(t, op)).Some? && Outcome(op, Read(t, op)).value != Read(t, op)
  {
    hide Num, Low, AsSigned, Outcome, NewValue;
    ReadWindow(p[..], t, op);
    ReadFits(t, op);
    var oldval: int;
    if op.signed { oldval := GetSignedBitfield(p[..], op.offset, op.bits); }
    else { oldval := GetUnsignedBitfield(p[..], op.offset, op.bits); }
    NewValueIs(op, oldval);
    match NewValue(op, oldval) {
      case None =>
        reply, changed := Nil, false;
      case Some(v) =>
        reply, changed := Int(if op.code.IncrBy? then v else oldval), v != oldval;
        SetUnsignedBitfield(p, op.offset, op.bits, ToUnsigned(v));
    }
  }

  // ----- GET reads through a copy of nine bytes -----

  method CopyNine(src: Bytes, byte: nat) returns (buf: Bytes)
    ensures Nine(src, byte, buf)
  {
    buf := seq(9, _ => 0);
    var i := 0;
    while i < 9 && byte + i < |src|
      invariant 0 <= i <= 9 && |buf| == 9 && (i > 0 ==> byte + i <= |src|)
      invariant forall j :: 0 <= j < 9 ==> buf[j] == if j < i then src[byte + j] else 0
    {
      buf := buf[i := src[byte + i]];
      i := i + 1;
    }
  }

  predicate Nine(src: Bytes, byte: nat, buf: Bytes) {
    |buf| == 9 && forall i :: 0 <= i < 9 ==> buf[i] == if byte + i < |src| then src[byte + i] else 0
  }

  lemma CopyBit(src: Bytes, buf: Bytes, offset: nat, i: nat)
    requires Nine(src, offset / 8, buf) && i < 64
    ensures Bit(buf, offset % 8 + i) == Bit(src, offset + i)
  {
    hide ByteBit;
    var m := offset % 8 + i;
    assert (offset + i) / 8 == offset / 8 + m / 8 && (offset + i) % 8 == m % 8;
    assert buf[m / 8] == if offset / 8 + m / 8 < |src| then src[offset / 8 + m / 8] else 0;
    ZeroBit(m % 8);
  }

  /** Nine bytes are enough for any width at any position in the first byte. */
  lemma CopyLosesNothing(src: Bytes, buf: Bytes, offset: nat, bits: nat)
    requires Nine(src, offset / 8, buf) && bits <= 64
    ensures Window(buf, offset % 8, bits) == Window(src, offset, bits)
  {
    hide Bit, Nine;
    var a, b := Window(buf, offset % 8, bits), Window(src, offset, bits);
    forall i | 0 <= i < bits ensures a[i] == b[i] {
      CopyBit(src, buf, offset, i);
    }
  }

  method Fetch(src: Bytes, op: Op, ghost t: Tape) returns (reply: Reply)
    requires ValidOp(op) && op.code.Get? && Holds(src, t)
    ensures reply == Answer(t, op)
  {
    hide Num, AsSigned, Window, ByteBit;
    ReadWindow(src, t, op);
    var byte := op.offset / 8;
    var buf := CopyNine(src, byte);
    CopyLosesNothing(src, buf, op.offset, op.bits);
    assert op.offset - byte * 8 == op.offset % 8;
    var v: int;
    if op.signed { v := GetSignedBitfield(buf, op.offset - byte * 8, op.bits); }
    else { v := GetUnsignedBitfield(buf, op.offset - byte * 8, op.bits); }
    reply := Int(v);
  }

  // ----- The command -----

  /** The last bit any operation writes. */
  function HighestWrite(ops: seq<Op>): (h: nat)
    ensures forall i :: 0 <= i < |ops| && !ops[i].code.Get? && ops[i].bits > 0 ==> ops[i].offset + ops[i].bits - 1 <= h
  {
    if ops == [] then 0
    else
      var h, op := HighestWrite(ops[..|ops| - 1]), ops[|ops| - 1];
      if !op.code.Get? && op.bits > 0 && h < op.offset + op.bits - 1 then op.offset + op.bits - 1 else h
  }

  predicate ReadOnly(ops: seq<Op>) { forall i :: 0 <= i < |ops| ==> ops[i].code.Get? }

  /** The loop over the arguments that finds out how far the string must reach. */
  method Prepare(ops: seq<Op>) returns (readonly: bool, highest: nat)
    requires ValidOps(ops)
    ensures readonly == ReadOnly(ops) && highest == HighestWrite(ops)
  {
    readonly, highest := true, 0;
    for j := 0 to |ops|
      invariant readonly == ReadOnly(ops[..j]) && highest == HighestWrite(ops[..j])
    {
      assert ops[..j + 1][..j] == ops[..j];
      assert ops[..j + 1] == ops[..j] + [ops[j]];
      if !ops[j].code.Get? {
        readonly := false;
        if highest < ops[j].offset + ops[j].bits - 1 { highest := ops[j].offset + ops[j].bits - 1; }
      }
    }
    assert ops[..|ops|] == ops;
  }

  /** lookupStringForBitCommand: zero bytes are appended so that `byte` exists. */
  function Grown(p: Bytes, byte: nat): (r: Bytes) {
    if byte < |p| then p else p + seq(byte + 1 - |p|, _ => 0)
  }

  lemma GrownSame(p: Bytes, byte: nat, n: nat)
    ensures Bit(Grown(p, byte), n) == Bit(p, n)
  {
    hide ByteBit;
    ZeroBit(n % 8);
  }

  /** Whether the key is created or its string grows. */
  function Dirty(key: Option<Bytes>, ops: seq<Op>): (d: bool) { key.None? || HighestWrite(ops) / 8 >= |key.value| }

  /** How many operations count as a change: those that store, if the string was created or grew or the value differs. */
  ghost function Changes(t: Tape, ops: seq<Op>, dirty: bool): (n: nat)
    requires ValidOps(ops)
  {
    if ops == [] then 0
    else
      var before, op := TapeAfter(t, ops[..|ops| - 1]), ops[|ops| - 1];
      Changes(t, ops[..|ops| - 1], dirty) + if Counts(before, op, dirty) then 1 else 0
  }

  ghost predicate Counts(t: Tape, op: Op, dirty: bool)
    requires ValidOp(op)
  {
    !op.code.Get? && Outcome(op, Read(t, op)).Some? && (dirty || Outcome(op, Read(t, op)).value != Read(t, op))
  }

  lemma SameBits(bits: nat, x: int, u: nat)
    requires 1 <= bits <= 64 && u < Pow2(bits) && (x == u || x == u - Pow2(bits))
    ensures Low(ToUnsigned(x), bits) == Low(u, bits)
  {
    ModTwice(x, bits);
    var m := Pow2(bits);
    if x == u { ModUnique(x, m, 0, u); } else { ModUnique(x, m, -1, u); }
    NumLow(ToUnsigned(x), bits);
    LowNum(Low(ToUnsigned(x), bits));
  }

  /** Storing the value that is there changes no bit. */
  lemma Rewrite(t: Tape, op: Op, n: nat)
    requires ValidOp(op)
    ensures Write(t, op, Read(t, op))(n) == t(n)
  {
    var s := seq(op.bits, i requires 0 <= i < op.bits => t(op.offset + i));
    SameBits(op.bits, Read(t, op), Num(s));
    LowNum(s);
  }

  /** Without a counted change, every bit is as before. */
  lemma {:induction false} NothingCounted(t: Tape, ops: seq<Op>, dirty: bool, n: nat)
    requires ValidOps(ops) && Changes(t, ops, dirty) == 0
    ensures TapeAfter(t, ops)(n) == t(n)
  {
    if ops != [] {
      var before, op := TapeAfter(t, ops[..|ops| - 1]), ops[|ops| - 1];
      NothingCounted(t, ops[..|ops| - 1], dirty, n);
      Rewrite(before, op, n);
    }
  }

  /** Every write fails under FAIL on the bits as they were before the call. */
  ghost predicate AllOverflow(t: Tape, ops: seq<Op>)
    requires ValidOps(ops)
  {
    forall j :: 0 <= j < |ops| && !ops[j].code.Get? ==> Overflows(t, ops[j])
  }

  ghost predicate Overflows(t: Tape, op: Op)
    requires ValidOp(op)
  {
    op.policy.Fail? && !Fits(op.signed, op.bits, Wanted(op, Read(t, op)))
  }

  /**
   * A string that was created or grew counts as changed unless every write overflows under FAIL
   * on the bits it started from; then the new length goes unreported.
   */
  lemma {:induction false} GrowthCounted(t: Tape, ops: seq<Op>)
    requires ValidOps(ops)
    ensures Changes(t, ops, true) == 0 <==> AllOverflow(t, ops)
  {
    if ops != [] {
      var k := |ops| - 1;
      var before := TapeAfter(t, ops[..k]);
      GrowthCounted(t, ops[..k]);
      OverflowLast(t, ops);
      CountsUnless(before, ops[k]);
      if Changes(t, ops[..k], true) == 0 {
        hide TapeAfter, Overflows, Counts;
        forall n: nat ensures before(n) == t(n) { NothingCounted(t, ops[..k], true, n); }
        SameOverflow(before, t, ops[k]);
      }
    }
  }

  lemma OverflowLast(t: Tape, ops: seq<Op>)
    requires ValidOps(ops) && ops != []
    ensures var k := |ops| - 1;
            AllOverflow(t, ops) <==> AllOverflow(t, ops[..k]) && (ops[k].code.Get? || Overflows(t, ops[k]))
  {
    hide Overflows;
    var init := ops[..|ops| - 1];
    assert forall j :: 0 <= j < |init| ==> init[j] == ops[j];
  }

  lemma CountsUnless(t: Tape, op: Op)
    requires ValidOp(op)
    ensures Counts(t, op, true) <==> !op.code.Get? && !Overflows(t, op)
  {
    hide Read, Fits;
  }

  lemma SameOverflow(a: Tape, b: Tape, op: Op)
    requires ValidOp(op) && forall n: nat :: a(n) == b(n)
    ensures Overflows(a, op) == Overflows(b, op)
  {
    assert seq(op.bits, i requires 0 <= i < op.bits => a(op.offset + i)) == seq(op.bits, i requires 0 <= i < op.bits => b(op.offset + i));
  }

  // ----- What was stored is read back -----

  /** A value that fits its field, signed or not, is read back as it was written. */
  lemma WriteThenRead(t: Tape, op: Op, v: int)
    requires ValidOp(op) && Fits(op.signed, op.bits, v)
    ensures Read(Write(t, op, v), op) == v
  {
    var t', low := Write(t, op, v), Low(ToUnsigned(v), op.bits);
    assert seq(op.bits, i requires 0 <= i < op.bits => t'(op.offset + i)) == low;
    NumLow(ToUnsigned(v), op.bits);
    ModTwice(v, op.bits);
    var m := Pow2(op.bits);
    hide Low, Num;
    if v >= 0 { ModUnique(v, m, 0, v); } else { ModUnique(v, m, -1, v + m); }
  }

  lemma OutcomeFits(op: Op, oldval: int)
    requires 1 <= op.bits
    ensures Outcome(op, oldval).Some? ==> Fits(op.signed, op.bits, Outcome(op, oldval).value)
  {
    WrapToUnique(op.signed, op.bits, Wanted(op, oldval), 0);
    hide WrapTo;
  }

  /** What an operation stores is what a GET of its field reads next, and no bit outside the field changes. */
  lemma StoredReadsBack(t: Tape, op: Op, n: nat)
    requires ValidOp(op) && !op.code.Get? && Outcome(op, Read(t, op)).Some?
    ensures Read(TapeStep(t, op), op) == Outcome(op, Read(t, op)).value
    ensures !(op.offset <= n < op.offset + op.bits) ==> TapeStep(t, op)(n) == t(n)
  {
    hide Read, Outcome;
    OutcomeFits(op, Read(t, op));
    WriteThenRead(t, op, Outcome(op, Read(t, op)).value);
  }

  // ----- What is replied -----

  lemma {:induction false} AnswerAt(t: Tape, ops: seq<Op>, j: nat)
    requires ValidOps(ops) && j < |ops|
    ensures |Answers(t, ops)| == |ops| && Answers(t, ops)[j] == Answer(TapeAfter(t, ops[..j]), ops[j])
    decreases |ops|
  {
    hide Answer, TapeStep;
    var k := |ops| - 1;
    if k == 0 {
      assert ops[..0] == [] && Answers(t, ops[..0]) == [];
    } else {
      AnswerAt(t, ops[..k], if j < k then j else 0);
      if j < k { assert ops[..k][..j] == ops[..j]; }
    }
  }

  /** The reply to a GET of the field of operation `j`, made just before it or just after it. */
  ghost function GetAt(t: Tape, ops: seq<Op>, j: nat, after: bool): (r: Reply)
    requires ValidOps(ops) && j < |ops|
    ensures r.Int?
  {
    var k := if after then j + 1 else j;
    var more := ops[..k] + [ops[j].(code := Get)];
    AnswerAt(t, more, k);
    Answers(t, more)[k]
  }

  lemma GetAtIs(t: Tape, ops: seq<Op>, j: nat, after: bool)
    requires ValidOps(ops) && j < |ops|
    ensures GetAt(t, ops, j, after) == Int(Read(TapeAfter(t, ops[..if after then j + 1 else j]), ops[j]))
  {
    var k := if after then j + 1 else j;
    var more := ops[..k] + [ops[j].(code := Get)];
    AnswerAt(t, more, k);
    assert more[..k] == ops[..k];
    hide Answers, TapeAfter, Read;
    SameField(TapeAfter(t, ops[..k]), ops[j]);
  }

  lemma SameField(t: Tape, op: Op)
    requires 1 <= op.bits
    ensures Read(t, op.(code := Get)) == Read(t, op)
  {
    var get := op.(code := Get);
    assert seq(op.bits, i requires 0 <= i < op.bits => t(op.offset + i))
        == seq(get.bits, i requires 0 <= i < get.bits => t(get.offset + i));
  }

  /**
   * In a list of operations, a GET replies what the field holds, a SET that stores replies what a GET
   * would have replied just before it, and an INCRBY that stores what a GET replies just after it.
   * Only under FAIL is there no reply, exactly if the wanted integer does not fit, and then the field
   * keeps its value. An integer that fits is stored as it is.
   */
  lemma RepliesExactly(t: Tape, ops: seq<Op>, j: nat)
    requires ValidOps(ops) && j < |ops|
    ensures var op, reply := ops[j], Answer(TapeAfter(t, ops[..j]), ops[j]);
            var before, after := GetAt(t, ops, j, false), GetAt(t, ops, j, true);
            var wanted := if op.code.IncrBy? then before.v + op.i64 else if op.signed then op.i64 else op.i64 % TWO64;
            && |Answers(t, ops)| == |ops| && Answers(t, ops)[j] == reply
            && (op.code.Get? ==> reply == before && after == before)
            && (op.code.Set? && reply.Int? ==> reply == before)
            && (op.code.IncrBy? && reply.Int? ==> reply == after)
            && (reply.Nil? <==> !op.code.Get? && op.policy.Fail? && !Fits(op.signed, op.bits, wanted))
            && (reply.Nil? ==> after == before)
            && (!op.code.Get? && Fits(op.signed, op.bits, wanted) ==> after == Int(wanted))
  {
    var op, now := ops[j], TapeAfter(t, ops[..j]);
    AnswerAt(t, ops, j);
    GetAtIs(t, ops, j, false);
    GetAtIs(t, ops, j, true);
    StepOps(t, ops, j);
    hide Answers, TapeAfter, GetAt, Read, Fits, Stored, Astray, Max;
    if !op.code.Get? && Outcome(op, Read(now, op)).Some? { StoredReadsBack(now, op, 0); }
    FittingIsStored(op, Read(now, op));
  }

  lemma FittingIsStored(op: Op, oldval: int)
    requires ValidOp(op)
    ensures !op.code.Get? && Fits(op.signed, op.bits, Wanted(op, oldval)) ==> Outcome(op, oldval) == Some(Wanted(op, oldval))
    ensures !op.code.Get? ==> (Outcome(op, oldval).None? <==> op.policy.Fail? && !Fits(op.signed, op.bits, Wanted(op, oldval)))
  {
    if op.signed { Bounds(op.bits); }
  }

  /** Adding 2 to a one-bit field under FAIL creates a missing key and reports no change. */
  lemma SilentCreation()
    ensures var ops := [Op(IncrBy, false, 1, 0, 2, Fail)];
            ValidOps(ops) && Dirty(None, ops) && Changes(TapeOf([]), ops, true) == 0
  {
    var op := Op(IncrBy, false, 1, 0, 2, Fail);
    var ops := [op];
    assert ops[..0] == [];
    assert Read(TapeOf([]), op) <= 1 by { ReadFits(TapeOf([]), op); assert Max(false, 1) == 1; }
    assert Read(TapeOf([]), op) >= 0;
    assert TapeAfter(TapeOf([]), ops[..0]) == TapeOf([]);
    assert Max(false, 1) == 1;
  }

  /** bitfieldGeneric after parsing: `key` is the string at the key, if there is one. */
  method BitfieldGeneric(key: Option<Bytes>, ops: seq<Op>) returns (replies: seq<Reply>, key': Option<Bytes>, changes: nat)
    requires ValidOps(ops)
    ensures var t := TapeOf(if key.Some? then key.value else []);
            && replies == Answers(t, ops)
            && changes == (if ReadOnly(ops) then 0 else Changes(t, ops, Dirty(key, ops)))
            && (ReadOnly(ops) ==> key' == key)
            && (!ReadOnly(ops) ==> key'.Some? && Holds(key'.value, TapeAfter(t, ops))
                                   && |key'.value| == |Grown(if key.Some? then key.value else [], HighestWrite(ops) / 8)|)
  {
    hide HighestWrite, Answers, TapeAfter, Changes, Holds;
    var p := if key.Some? then key.value else [];
    var readonly, highest := Prepare(ops);
    if readonly {
      replies := RunReads(p, ops);
      key', changes := key, 0;
    } else {
      var q := Grown(p, highest / 8);
      var dirty := key.None? || |q| != |p|;
      var a := new Byte[|q|](i requires 0 <= i < |q| => q[i]);
      assert a[..] == q;
      assert Holds(q, TapeOf(p)) by { GrownHolds(p, highest / 8); }
      replies, changes := RunWrites(a, ops, dirty, TapeOf(p));
      key' := Some(a[..]);
    }
  }

  lemma GrownHolds(p: Bytes, byte: nat)
    ensures Holds(Grown(p, byte), TapeOf(p))
  {
    forall n: nat ensures Bit(Grown(p, byte), n) == Bit(p, n) { GrownSame(p, byte, n); }
  }

  method RunReads(p: Bytes, ops: seq<Op>) returns (replies: seq<Reply>)
    requires ValidOps(ops) && ReadOnly(ops)
    ensures replies == Answers(TapeOf(p), ops)
  {
    hide Answers, TapeAfter, Answer;
    ghost var t := TapeOf(p);
    replies := [];
    NoOps(t, ops);
    for j := 0 to |ops|
      invariant replies == Answers(t, ops[..j]) && TapeAfter(t, ops[..j]) == t
    {
      var r := Fetch(p, ops[j], t);
      StepOps(t, ops, j);
      replies := replies + [r];
    }
    assert ops[..|ops|] == ops;
  }

  method RunWrites(a: array<Byte>, ops: seq<Op>, dirty: bool, ghost t: Tape) returns (replies: seq<Reply>, changes: nat)
    requires ValidOps(ops) && Holds(a[..], t) && a.Length > HighestWrite(ops) / 8
    modifies a
    ensures replies == Answers(t, ops) && changes == Changes(t, ops, dirty) && Holds(a[..], TapeAfter(t, ops))
  {
    hide HighestWrite, Answers, TapeAfter, Changes, Holds, TapeStep;
    replies, changes := [], 0;
    NoOps(t, ops);
    for j := 0 to |ops|
      invariant Holds(a[..], TapeAfter(t, ops[..j])) && replies == Answers(t, ops[..j]) && changes == Changes(t, ops[..j], dirty)
    {
      var r, changed := Execute(a, ops[j], TapeAfter(t, ops[..j]), ops, j);
      if !ops[j].code.Get? && !r.Nil? && (dirty || changed) { changes := changes + 1; }
      StepOps(t, ops, j);
      StepChanges(t, ops, j, dirty);
      replies := replies + [r];
    }
    assert ops[..|ops|] == ops;
  }

  method Execute(a: array<Byte>, op: Op, ghost t: Tape, ghost ops: seq<Op>, ghost j: nat) returns (r: Reply, changed: bool)
    requires ValidOps(ops) && j < |ops| && op == ops[j] && Holds(a[..], t)
    requires a.Length > HighestWrite(ops) / 8
    modifies a
    ensures Holds(a[..], TapeStep(t, op)) && r == Answer(t, op)
    ensures !op.code.Get? ==> (changed <==> Outcome(op, Read(t, op)).Some? && Outcome(op, Read(t, op)).value != Read(t, op))
  {
    if op.code.Get? {
      r := Fetch(a[..], op, t);
      changed := false;
    } else {
      // Every write is inside the string, because it was grown once for all of them.
      assert op.offset + op.bits - 1 <= HighestWrite(ops);
      r, changed := Update(a, op, t);
    }
  }

  lemma StepChanges(t: Tape, ops: seq<Op>, j: nat, dirty: bool)
    requires ValidOps(ops) && j < |ops|
    ensures Changes(t, ops[..j + 1], dirty)
            == Changes(t, ops[..j], dirty) + if Counts(TapeAfter(t, ops[..j]), ops[j], dirty) then 1 else 0
  {
    assert ops[..j + 1][..j] == ops[..j];
  }

  lemma NoOps(t: Tape, ops: seq<Op>)
    requires ValidOps(ops)
    ensures ops[..0] == [] && TapeAfter(t, ops[..0]) == t && Answers(t, ops[..0]) == []
    ensures forall dirty :: Changes(t, ops[..0], dirty) == 0
  {}

  lemma StepOps(t: Tape, ops: seq<Op>, j: nat)
    requires ValidOps(ops) && j < |ops|
    ensures TapeAfter(t, ops[..j + 1]) == TapeStep(TapeAfter(t, ops[..j]), ops[j])
    ensures Answers(t, ops[..j + 1]) == Answers(t, ops[..j]) + [Answer(TapeAfter(t, ops[..j]), ops[j])]
  {
    assert ops[..j + 1][..j] == ops[..j];
  }
}
