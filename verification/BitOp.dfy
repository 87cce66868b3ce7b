/** BITOP: a chunked fast path and a byte-wise tail with early exit (bitops.c). */
module BitOp {
  import opened Wrappers
  import opened Words
  import opened Decimal
  import opened Bitmap
  import BitRange
  import BitPos

  datatype Operation = OpAnd | OpOr | OpXor | OpNot

  function Combine(op: Operation, x: bool, y: bool): (z: bool) {
    match op
    case OpAnd => x && y
    case OpOr => x || y
    case OpXor => x != y
    case OpNot => x
  }

  /** A source as read from its key: a missing key is an empty string. */
  function Text(src: Option<Bytes>): (s: Bytes) { match src case None => [] case Some(s) => s }

  /** The result bit at `n` over the first `k` sources: the operation folded over their zero-padded bits. */
  function BitOf(op: Operation, srcs: seq<Bytes>, n: nat, k: nat): (v: bool)
    requires 1 <= k <= |srcs|
  {
    if k == 1 then (if op.OpNot? then !Bit(srcs[0], n) else Bit(srcs[0], n))
    else Combine(op, BitOf(op, srcs, n, k - 1), Bit(srcs[k - 1], n))
  }

  /** What the result bit at `n` says of the sources: all have it, one has it, an odd number has it, or the one has not. */
  ghost predicate Meaning(op: Operation, srcs: seq<Bytes>, n: nat, k: nat, v: bool)
    requires 1 <= k <= |srcs|
  {
    match op
    case OpAnd => v <==> forall i :: 0 <= i < k ==> Bit(srcs[i], n)
    case OpOr => v <==> exists i :: 0 <= i < k && Bit(srcs[i], n)
    case OpXor => v <==> |Having(srcs, n, k)| % 2 == 1
    case OpNot => v <==> !Bit(srcs[0], n)
  }

  /** The sources among the first `k` with bit `n` set. */
  ghost function Having(srcs: seq<Bytes>, n: nat, k: nat): (s: set<nat>)
    requires k <= |srcs|
  {
    set i: nat | i < k && Bit(srcs[i], n)
  }

  lemma HavingOne(srcs: seq<Bytes>, n: nat, k: nat)
    requires 1 <= k <= |srcs|
    ensures |Having(srcs, n, k)| == |Having(srcs, n, k - 1)| + if Bit(srcs[k - 1], n) then 1 else 0
  {
    hide Bit;
    assert Having(srcs, n, k) == if Bit(srcs[k - 1], n) then Having(srcs, n, k - 1) + {k - 1} else Having(srcs, n, k - 1);
  }

  lemma {:induction false} BitOfMeans(op: Operation, srcs: seq<Bytes>, n: nat, k: nat)
    requires 1 <= k <= |srcs| && (op.OpNot? ==> k == 1)
    ensures Meaning(op, srcs, n, k, BitOf(op, srcs, n, k))
  {
    hide Bit;
    HavingOne(srcs, n, k);
    if k == 1 {
      assert Having(srcs, n, 0) == {};
    } else {
      BitOfMeans(op, srcs, n, k - 1);
      hide Having;
    }
  }

  // ----- Bytes -----

  function ByteOp(op: Operation, x: Byte, y: Byte): (z: Byte) {
    Pow2Of8();
    Value(seq(8, i requires 0 <= i < 8 => Combine(op, Bits(x, 8)[i], Bits(y, 8)[i])))
  }

  function NotByte(x: Byte): (z: Byte) {
    Pow2Of8();
    Value(seq(8, i requires 0 <= i < 8 => !Bits(x, 8)[i]))
  }

  function ByteAt(s: Bytes, j: nat): (b: Byte) { if j < |s| then s[j] else 0 }

  /** The result byte at `j` over the first `k` sources. */
  function ByteOf(op: Operation, srcs: seq<Bytes>, j: nat, k: nat): (b: Byte)
    requires 1 <= k <= |srcs|
  {
    if k == 1 then (if op.OpNot? then NotByte(ByteAt(srcs[0], j)) else ByteAt(srcs[0], j))
    else ByteOp(op, ByteOf(op, srcs, j, k - 1), ByteAt(srcs[k - 1], j))
  }

  lemma ByteOpBit(op: Operation, x: Byte, y: Byte, b: nat)
    requires b < 8
    ensures ByteBit(ByteOp(op, x, y), b) == Combine(op, ByteBit(x, b), ByteBit(y, b))
    ensures ByteBit(NotByte(x), b) == !ByteBit(x, b)
  {
    hide Combine, Bits, Value;
    var s := seq(8, i requires 0 <= i < 8 => Combine(op, Bits(x, 8)[i], Bits(y, 8)[i]));
    BitsOfValue(s);
    assert ByteOp(op, x, y) == Value(s);
    var t := seq(8, i requires 0 <= i < 8 => !Bits(x, 8)[i]);
    BitsOfValue(t);
    assert NotByte(x) == Value(t);
  }

  lemma BitOfByte(s: Bytes, n: nat)
    ensures Bit(s, n) == ByteBit(ByteAt(s, n / 8), n % 8)
  {
    ZeroBit(n % 8);
  }

  lemma {:induction false} ByteOfBits(op: Operation, srcs: seq<Bytes>, n: nat, k: nat)
    requires 1 <= k <= |srcs|
    ensures ByteBit(ByteOf(op, srcs, n / 8, k), n % 8) == BitOf(op, srcs, n, k)
  {
    hide ByteBit, ByteOp, NotByte, Bit, ByteAt, Combine;
    BitOfByte(srcs[k - 1], n);
    if k == 1 {
      ByteOpBit(op, ByteAt(srcs[0], n / 8), 0, n % 8);
    } else {
      ByteOfBits(op, srcs, n, k - 1);
      ByteOpBit(op, ByteOf(op, srcs, n / 8, k - 1), ByteAt(srcs[k - 1], n / 8), n % 8);
    }
  }

  /** A byte no further source can change: the reason for stopping early. */
  predicate Absorbs(op: Operation, b: Byte) { (op.OpAnd? && b == 0) || (op.OpOr? && b == 255) }

  lemma ByteEqual(x: Byte, y: Byte)
    requires forall b :: 0 <= b < 8 ==> ByteBit(x, b) == ByteBit(y, b)
    ensures x == y
  {
    forall i | 0 <= i < 8 ensures Bits(x, 8)[i] == Bits(y, 8)[i] { assert ByteBit(x, 7 - i) == ByteBit(y, 7 - i); }
    assert Bits(x, 8) == Bits(y, 8);
    Pow2Of8();
    ValueOfBits(x, 8);
    ValueOfBits(y, 8);
  }

  lemma Absorbing(op: Operation, x: Byte, y: Byte)
    requires Absorbs(op, x)
    ensures ByteOp(op, x, y) == x
  {
    hide ByteOp, ByteBit;
    forall b | 0 <= b < 8 ensures ByteBit(ByteOp(op, x, y), b) == ByteBit(x, b) {
      ByteOpBit(op, x, y, b);
      BitPos.SkipBit(op.OpAnd?, b);
      assert x == BitPos.SkipByte(op.OpAnd?);
    }
    ByteEqual(ByteOp(op, x, y), x);
  }

  lemma {:induction false} AbsorbedRest(op: Operation, srcs: seq<Bytes>, j: nat, k: nat, m: nat)
    requires 1 <= k <= m <= |srcs| && Absorbs(op, ByteOf(op, srcs, j, k))
    ensures ByteOf(op, srcs, j, m) == ByteOf(op, srcs, j, k)
    decreases m
  {
    hide ByteOp, NotByte, ByteAt;
    if k < m {
      AbsorbedRest(op, srcs, j, k, m - 1);
      Absorbing(op, ByteOf(op, srcs, j, m - 1), ByteAt(srcs[m - 1], j));
    }
  }

  // ----- The computation -----

  /** Lengths of the sources: the longest, and a bound none of them is below. */
  method Lengths(srcs: seq<Option<Bytes>>) returns (maxlen: nat, minlen: nat)
    requires srcs != []
    ensures forall i :: 0 <= i < |srcs| ==> minlen <= |Text(srcs[i])| <= maxlen
    ensures exists i :: 0 <= i < |srcs| && |Text(srcs[i])| == maxlen
  {
    maxlen, minlen := 0, 0;
    ghost var longest := 0;
    for j := 0 to |srcs|
      invariant forall i :: 0 <= i < j ==> minlen <= |Text(srcs[i])| <= maxlen
      invariant 0 <= longest < |srcs| && (j > 0 ==> longest < j && |Text(srcs[longest])| == maxlen) && (j == 0 ==> maxlen == 0 == longest)
    {
      match srcs[j] {
        case None =>
          minlen := 0;
        case Some(s) =>
          assert Text(srcs[j]) == s;
          if |s| > maxlen { maxlen, longest := |s|, j; }
          if j == 0 || |s| < minlen { minlen := |s|; }
      }
    }
  }

  method Bitop(op: Operation, srcs: seq<Option<Bytes>>) returns (res: Bytes)
    requires srcs != [] && (op.OpNot? ==> |srcs| == 1)
    ensures forall i :: 0 <= i < |srcs| ==> |Text(srcs[i])| <= |res|
    ensures exists i :: 0 <= i < |srcs| && |Text(srcs[i])| == |res|
    ensures var texts := seq(|srcs|, i requires 0 <= i < |srcs| => Text(srcs[i]));
            forall n: nat :: n < 8 * |res| ==> Meaning(op, texts, n, |srcs|, Bit(res, n))
  {
    hide ByteOp, NotByte, ByteBit, BitOf, ByteOf, Meaning;
    var maxlen, minlen := Lengths(srcs);
    var texts := seq(|srcs|, i requires 0 <= i < |srcs| => Text(srcs[i]));
    var a := new Byte[maxlen](_ => 0);
    var j := 0;
    if minlen >= 32 && |srcs| <= 16 {
      j := FastPath(op, texts, a, minlen);
    }
    Tail(op, texts, a, j);
    res := a[..];
    forall n: nat | n < 8 * |res| ensures Meaning(op, texts, n, |srcs|, Bit(res, n)) {
      ByteOfBits(op, texts, n, |srcs|);
      BitOfMeans(op, texts, n, |srcs|);
    }
  }

  /** Byte by byte, stopping a column as soon as nothing can change it. */
  method Tail(op: Operation, srcs: seq<Bytes>, res: array<Byte>, from: nat)
    requires srcs != [] && (op.OpNot? ==> |srcs| == 1) && from <= res.Length
    requires forall t :: 0 <= t < from ==> res[t] == ByteOf(op, srcs, t, |srcs|)
    modifies res
    ensures forall t :: 0 <= t < res.Length ==> res[t] == ByteOf(op, srcs, t, |srcs|)
  {
    hide ByteOp, NotByte, ByteOf, ByteAt;
    for j := from to res.Length
      invariant forall t :: 0 <= t < j ==> res[t] == ByteOf(op, srcs, t, |srcs|)
    {
      var b := Column(op, srcs, j);
      res[j] := b;
    }
  }

  method Column(op: Operation, srcs: seq<Bytes>, j: nat) returns (output: Byte)
    requires srcs != [] && (op.OpNot? ==> |srcs| == 1)
    ensures output == ByteOf(op, srcs, j, |srcs|)
  {
    hide ByteOp, NotByte;
    output := if |srcs[0]| <= j then 0 else srcs[0][j];
    if op.OpNot? { output := NotByte(output); }
    var i := 1;
    while i < |srcs|
      invariant 1 <= i <= |srcs| && output == ByteOf(op, srcs, j, i)
    {
      var byte := if |srcs[i]| <= j then 0 else srcs[i][j];
      output := ByteOp(op, output, byte);
      i := i + 1;
      if Absorbs(op, output) {
        AbsorbedRest(op, srcs, j, i, |srcs|);
        return;
      }
    }
  }

  /** As long as every source has 32 more bytes, four words at a time, one source after the other. */
  method FastPath(op: Operation, srcs: seq<Bytes>, res: array<Byte>, minlen: nat) returns (done: nat)
    requires srcs != [] && (op.OpNot? ==> |srcs| == 1) && minlen <= res.Length
    requires forall i :: 0 <= i < |srcs| ==> minlen <= |srcs[i]|
    modifies res
    ensures done <= res.Length && forall t :: 0 <= t < done ==> res[t] == ByteOf(op, srcs, t, |srcs|)
  {
    hide ByteOp, NotByte, ByteOf;
    for t := 0 to minlen
      invariant forall u :: 0 <= u < t ==> res[u] == srcs[0][u]
    {
      res[t] := srcs[0][t];
    }
    done := 0;
    while minlen - done >= 32
      invariant done <= minlen
      invariant forall t :: 0 <= t < done ==> res[t] == ByteOf(op, srcs, t, |srcs|)
      invariant forall t :: done <= t < minlen ==> res[t] == srcs[0][t]
      decreases minlen - done
    {
      Chunk(op, srcs, res, done, minlen);
      done := done + 32;
    }
  }

  method Chunk(op: Operation, srcs: seq<Bytes>, res: array<Byte>, at: nat, minlen: nat)
    requires srcs != [] && (op.OpNot? ==> |srcs| == 1) && at + 32 <= minlen <= res.Length
    requires forall i :: 0 <= i < |srcs| ==> minlen <= |srcs[i]|
    requires forall t :: at <= t < minlen ==> res[t] == srcs[0][t]
    modifies res
    ensures forall t :: at <= t < at + 32 ==> res[t] == ByteOf(op, srcs, t, |srcs|)
    ensures forall t :: 0 <= t < res.Length && !(at <= t < at + 32) ==> res[t] == old(res[t])
  {
    hide ByteOp, NotByte;
    if op.OpNot? {
      for t := at to at + 32
        invariant forall u :: at <= u < t ==> res[u] == ByteOf(op, srcs, u, 1)
        invariant forall u :: 0 <= u < res.Length && !(at <= u < t) ==> res[u] == old(res[u])
      {
        res[t] := NotByte(res[t]);
      }
    } else {
      for i := 1 to |srcs|
        invariant forall t :: at <= t < at + 32 ==> res[t] == ByteOf(op, srcs, t, i)
        invariant forall t :: 0 <= t < res.Length && !(at <= t < at + 32) ==> res[t] == old(res[t])
      {
        FourWords(op, srcs, res, at, i);
      }
    }
  }

  /** lres[0..4] op= lp[i][0..4]: bitwise, so byte by byte. */
  method FourWords(op: Operation, srcs: seq<Bytes>, res: array<Byte>, at: nat, i: nat)
    requires 1 <= i < |srcs| && at + 32 <= |srcs[i]| && at + 32 <= res.Length
    requires forall t :: at <= t < at + 32 ==> res[t] == ByteOf(op, srcs, t, i)
    modifies res
    ensures forall t :: at <= t < at + 32 ==> res[t] == ByteOf(op, srcs, t, i + 1)
    ensures forall t :: 0 <= t < res.Length && !(at <= t < at + 32) ==> res[t] == old(res[t])
  {
    hide ByteOp, NotByte;
    for t := at to at + 32
      invariant forall u :: at <= u < t ==> res[u] == ByteOf(op, srcs, u, i + 1)
      invariant forall u :: t <= u < at + 32 ==> res[u] == ByteOf(op, srcs, u, i)
      invariant forall u :: 0 <= u < res.Length && !(at <= u < t) ==> res[u] == old(res[u])
    {
      res[t] := ByteOp(op, res[t], srcs[i][t]);
    }
  }
}
