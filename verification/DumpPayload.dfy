/**
 * The footer of DUMP payloads (cluster.c): a two-byte RDB version and the CRC64 of everything
 * before it, both little-endian.
 */
module DumpPayload {
  import opened Words
  import opened Crc64

  const RDB_VERSION: nat := 12

  /** The eight bytes of a word in little-endian order. */
  function WordBytes(w: Word): (s: seq<Byte>)
    ensures |s| == 8
  {
    seq(8, k requires 0 <= k < 8 => ByteAt(w, k))
  }

  lemma {:induction false} MessageOfWordBytes(w: Word, k: nat)
    requires k <= 8
    ensures Message(WordBytes(w)[..k]) == w[..8 * k]
  {
    if k != 0 {
      MessageOfWordBytes(w, k - 1);
      assert WordBytes(w)[..k][..k - 1] == WordBytes(w)[..k - 1];
      BitsOfValue(w[8 * (k - 1)..8 * (k - 1) + 8]);
    }
  }

  lemma MessageOfWord(w: Word)
    ensures Message(WordBytes(w)) == w
  {
    hide Message, WordBytes;
    MessageOfWordBytes(w, 8);
    assert WordBytes(w)[..8] == WordBytes(w) && w[..64] == w;
  }

  lemma ByteOfBits(a: Byte, b: Byte)
    requires Bits(a, 8) == Bits(b, 8)
    ensures a == b
  {
    hide Bits, Value;
    Pow2Of8();
    ValueOfBits(a, 8);
    ValueOfBits(b, 8);
  }

  lemma {:induction false} MessageInjective(s: seq<Byte>, t: seq<Byte>)
    requires |s| == |t| && Message(s) == Message(t)
    ensures s == t
  {
    hide Bits;
    if s != [] {
      var n := |s| - 1;
      assert Message(s[..n]) == Message(s)[..8 * n] == Message(t[..n]);
      assert Bits(s[n], 8) == Message(s)[8 * n..] == Bits(t[n], 8);
      MessageInjective(s[..n], t[..n]);
      ByteOfBits(s[n], t[n]);
      assert s == s[..n] + [s[n]] && t == t[..n] + [t[n]];
    }
  }

  function Version(p: seq<Byte>): (v: nat)
    requires |p| >= 10
  {
    256 * (p[|p| - 9] as int) + p[|p| - 10] as int
  }

  /** The checksum part of the check: the CRC of the whole payload, footer included, is zero. */
  predicate Intact(p: seq<Byte>) { Crc(Zeros(64), p) == Zeros(64) }

  lemma {:induction false} FeedZero(n: nat)
    ensures Feed(n, Zeros(64)) == Zeros(64)
  {
    hide Bits;
    if n != 0 {
      assert Step(Zeros(64)) == Zeros(64);
      FeedZero(n - 1);
    }
  }

  lemma XorIsZero(a: Word, b: Word)
    requires Xor(a, b) == Zeros(64)
    ensures a == b
  {
    forall i | 0 <= i < 64 ensures a[i] == b[i] { assert !Xor(a, b)[i]; }
  }

  lemma XorSelf(a: Word)
    ensures Xor(a, a) == Zeros(64)
  {}

  /** Comparing the stored checksum is the same as asking for a zero residue. */
  lemma ResidueIsZero(data: seq<Byte>, footer: seq<Byte>)
    requires |footer| == 8
    ensures Intact(data + footer) <==> footer == WordBytes(Crc(Zeros(64), data))
  {
    hide Crc, Bits, Message, WordBytes, Xor, Feed, Zeros;
    var c := Crc(Zeros(64), data);
    CrcAppend(Zeros(64), data, footer);
    CrcWord(c, footer);
    MessageOfWord(c);
    FeedZero(64);
    if Intact(data + footer) {
      FeedInjective(64, Xor(c, Message(footer)), Zeros(64));
      XorIsZero(c, Message(footer));
      MessageInjective(footer, WordBytes(c));
    }
    XorSelf(c);
  }

  method CreateDumpPayload(table: array2<Word>, value: seq<Byte>, addr: nat) returns (payload: seq<Byte>)
    requires IsTable(table)
    ensures |payload| == |value| + 10 && payload[..|value|] == value
    ensures payload[|value|..|value| + 2] == [12, 0]
    ensures payload[|value| + 2..] == WordBytes(Crc(Zeros(64), payload[..|value| + 2]))
    ensures Version(payload) == RDB_VERSION && Intact(payload)
  {
    hide Crc, WordBytes, Zeros;
    var body := value + [RDB_VERSION % 256, RDB_VERSION / 256];
    var crc := LittleCrc64(table, Zeros(64), body, addr);
    ResidueIsZero(body, WordBytes(crc));
    payload := body + WordBytes(crc);
    assert payload[..|value| + 2] == body;
  }

  method VerifyDumpPayload(table: array2<Word>, p: seq<Byte>, addr: nat, skipChecksum: bool)
    returns (ok: bool, version: nat)
    requires IsTable(table)
    ensures |p| >= 10 ==> version == Version(p)
    ensures ok <==> |p| >= 10 && Version(p) <= RDB_VERSION && (skipChecksum || Intact(p))
  {
    hide Crc, WordBytes, Zeros;
    if |p| < 10 { return false, 0; }
    var footer := p[|p| - 10..];
    version := 256 * (footer[1] as int) + footer[0] as int;
    if version > RDB_VERSION { return false, version; }
    if skipChecksum { return true, version; }
    var crc := LittleCrc64(table, Zeros(64), p[..|p| - 8], addr);
    ResidueIsZero(p[..|p| - 8], footer[2..]);
    assert p[..|p| - 8] + footer[2..] == p;
    ok := WordBytes(crc) == footer[2..];
  }

  /**
   * A payload that differs from an intact one, but only inside eight consecutive bytes, is not
   * intact, wherever the damage is: in the object, the version or the checksum itself.
   */
  lemma DamageDetected(p: seq<Byte>, q: seq<Byte>, i: nat)
    requires |p| == |q| && i + 8 <= |p|
    requires p[..i] == q[..i] && p[i + 8..] == q[i + 8..]
    requires Intact(p) && p != q
    ensures !Intact(q)
  {
    hide Bits, CrcBits, Message, Zeros;
    var pre, s, t, post := p[..i], p[i..i + 8], q[i..i + 8], p[i + 8..];
    assert p == pre + s + post && q == pre + t + post;
    MessageAppend(pre + s, post); MessageAppend(pre, s);
    MessageAppend(pre + t, post); MessageAppend(pre, t);
    if Intact(q) {
      BurstDetected(Zeros(64), Message(pre), Message(s), Message(t), Message(post));
      MessageInjective(s, t);
      assert false;
    }
  }

  /** In particular every change of exactly one byte is detected. */
  lemma OneByteChangeDetected(p: seq<Byte>, k: nat, b: Byte)
    requires |p| >= 10 && k < |p| && Intact(p) && p[k] != b
    ensures !Intact(p[k := b])
  {
    var i := if k + 8 <= |p| then k else |p| - 8;
    DamageDetected(p, p[k := b], i);
  }
}
