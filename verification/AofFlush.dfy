/**
 * Writing the buffer to the current append-only file (aof.c: aofWrite, flushAppendOnlyFile).
 *
 * A descriptor has a write position. With O_APPEND every write goes to the end of the file;
 * without it (aof.c:790) a write goes to the descriptor's own position, and one past the end of
 * the file leaves a gap of zero bytes.
 */
module AofFlush {
  import opened Wrappers
  import opened Words
  import opened Decimal

  datatype Fd = Fd(append: bool, offset: nat)

  /** What one write(2) call does. */
  datatype Attempt = Wrote(n: nat) | Interrupted | WriteError

  datatype Policy = Always | EverySec | Never

  /** The open file and the server fields that go with it; `ok` is aof_last_write_status. */
  datatype Log = Log(file: Bytes, fd: Fd, buf: Bytes, size: nat, postponed: int, ok: bool)

  /** The surroundings of one flush. */
  datatype FlushEnv = FlushEnv(policy: Policy, force: bool, now: int, syncing: bool,
                               attempts: seq<Attempt>, truncates: bool)

  function Gap(n: nat): (z: Bytes)
    ensures |z| == n
  {
    seq(n, _ => 0)
  }

  function Position(file: Bytes, fd: Fd): (p: nat) { if fd.append then |file| else fd.offset }

  function Padded(file: Bytes, n: nat): (f: Bytes)
    ensures |f| >= n && |f| >= |file| && f[..|file|] == file
    ensures n <= |file| ==> f == file
  {
    if n <= |file| then file else file + Gap(n - |file|)
  }

  function Put(file: Bytes, fd: Fd, data: Bytes): (f: Bytes) {
    if data == [] then file
    else
      var p := Position(file, fd);
      Over(Padded(file, p), p, data)
  }

  /** `data` in place of what is at position `p`. */
  function Over(base: Bytes, p: nat, data: Bytes): (f: Bytes)
    requires p <= |base|
    ensures |f| == if p + |data| <= |base| then |base| else p + |data|
  {
    base[..p] + data + (if p + |data| <= |base| then base[p + |data|..] else [])
  }

  lemma OverTwice(base: Bytes, p: nat, a: Bytes, b: Bytes)
    requires p <= |base|
    ensures Over(Over(base, p, a), p + |a|, b) == Over(base, p, a + b)
  {
    var once := Over(base, p, a);
    assert once[..p + |a|] == base[..p] + a;
    if p + |a| + |b| <= |base| { assert once[p + |a| + |b|..] == base[p + |a| + |b|..]; }
  }

  function Moved(file: Bytes, fd: Fd, data: Bytes): (r: Fd) {
    if data == [] then fd else fd.(offset := Position(file, fd) + |data|)
  }

  /** Two writes in a row are one write of both. */
  lemma PutTwice(file: Bytes, fd: Fd, a: Bytes, b: Bytes)
    ensures Put(Put(file, fd, a), Moved(file, fd, a), b) == Put(file, fd, a + b)
    ensures Moved(Put(file, fd, a), Moved(file, fd, a), b) == Moved(file, fd, a + b)
  {
    hide Over;
    if a == [] {
      assert a + b == b;
    } else if b == [] {
      assert a + b == a;
    } else {
      var p := Position(file, fd);
      OverTwice(Padded(file, p), p, a, b);
    }
  }

  /** The bytes written before the first error; the calls end with an error if any is left. */
  function Total(len: nat, attempts: seq<Attempt>): (t: nat)
    ensures t <= len
  {
    if len == 0 || attempts == [] then 0
    else match attempts[0]
      case Interrupted => Total(len, attempts[1..])
      case WriteError => 0
      case Wrote(n) => if n > len then len else n + Total(len - n, attempts[1..])
  }

  /** The value aofWrite returns. */
  function Written(len: nat, attempts: seq<Attempt>): (n: int)
    ensures -1 <= n <= len
  {
    var t := Total(len, attempts);
    if t == 0 && len > 0 then -1 else t
  }

  method AofWrite(file: Bytes, fd: Fd, buf: Bytes, attempts: seq<Attempt>)
    returns (file': Bytes, fd': Fd, result: int)
    ensures result == Written(|buf|, attempts)
    ensures file' == Put(file, fd, buf[..Total(|buf|, attempts)])
    ensures fd' == Moved(file, fd, buf[..Total(|buf|, attempts)])
  {
    hide Put, Moved;
    file', fd' := file, fd;
    var len, total, calls := |buf|, 0, attempts;
    Nothing(file, fd);
    assert buf[..0] == [];
    while len > 0
      invariant 0 <= len && total + len == |buf|
      invariant Total(|buf|, attempts) == total + Total(len, calls)
      invariant file' == Put(file, fd, buf[..total]) && fd' == Moved(file, fd, buf[..total])
      decreases len, calls
    {
      var call := if calls == [] then WriteError else calls[0];
      match call
      case Interrupted => calls := calls[1..];
      case WriteError => return file', fd', if total > 0 then total else -1;
      case Wrote(n) =>
        var k := if n > len then len else n;
        PutTwice(file, fd, buf[..total], buf[total..total + k]);
        assert buf[..total] + buf[total..total + k] == buf[..total + k];
        file', fd' := Put(file', fd', buf[total..total + k]), Moved(file', fd', buf[total..total + k]);
        total, len, calls := total + k, len - k, calls[1..];
    }
    result := total;
  }

  lemma Nothing(file: Bytes, fd: Fd)
    ensures Put(file, fd, []) == file && Moved(file, fd, []) == fd
  {}

  // ----- The flush -----

  function TruncatedTo(file: Bytes, n: nat): (f: Bytes) { Padded(file, n)[..n] }

  predicate Postpones(l: Log, env: FlushEnv) {
    env.policy == EverySec && !env.force && env.syncing
    && (l.postponed == 0 || env.now - l.postponed < 2000)
  }

  /** The end of a flush that made `l` out of the log by writing `n` bytes (-1 for none). */
  function Settle(l: Log, n: int, policy: Policy, truncates: bool): (r: Option<Log>)
    requires n <= |l.buf|
  {
    if n == |l.buf| then Some(l.(buf := [], size := l.size + n, ok := true))
    else if policy == Always then None
    else if n <= 0 then Some(l.(ok := false))
    else if truncates then Some(l.(file := TruncatedTo(l.file, l.size), ok := false))
    else Some(l.(buf := l.buf[n..], size := l.size + n, ok := false))
  }

  /** The log right after aofWrite. */
  function AfterWrite(l: Log, attempts: seq<Attempt>): (r: Log) {
    var data := l.buf[..Total(|l.buf|, attempts)];
    l.(file := Put(l.file, l.fd, data), fd := Moved(l.file, l.fd, data), postponed := 0)
  }

  /** flushAppendOnlyFile; None when the process exits. */
  function Flush(l: Log, env: FlushEnv): (r: Option<Log>) {
    if l.buf == [] then Some(l)
    else if Postpones(l, env) then Some(if l.postponed == 0 then l.(postponed := env.now) else l)
    else Settle(AfterWrite(l, env.attempts), Written(|l.buf|, env.attempts), env.policy, env.truncates)
  }

  /** flushAppendOnlyFile, statement by statement. */
  method FlushLog(log: Log, env: FlushEnv) returns (r: Option<Log>)
    ensures r == Flush(log, env)
  {
    hide Put, Moved, Total, TruncatedTo;
    var l := log;
    if |l.buf| == 0 { return Some(l); }
    if env.policy == EverySec && !env.force && env.syncing {
      if l.postponed == 0 {
        l := l.(postponed := env.now);
        return Some(l);
      } else if env.now - l.postponed < 2000 {
        return Some(l);
      }
    }
    var file, fd, nwritten := AofWrite(l.file, l.fd, l.buf, env.attempts);
    l := l.(file := file, fd := fd, postponed := 0);
    if nwritten != |l.buf| {
      if nwritten != -1 && env.truncates {
        l := l.(file := TruncatedTo(l.file, l.size));
        nwritten := -1;
      }
      if env.policy == Always { return None; }
      l := l.(ok := false);
      if nwritten > 0 {
        l := l.(size := l.size + nwritten, buf := l.buf[nwritten..]);
      }
      return Some(l);
    }
    l := l.(ok := true, size := l.size + nwritten, buf := []);
    r := Some(l);
  }

  // ----- When a flush writes, waits, fails and exits -----

  /** The bytes that calls accept if there is no end to the data. */
  function Accepted(attempts: seq<Attempt>): (n: nat) {
    if attempts == [] then 0 else (if attempts[0].Wrote? then attempts[0].n else 0) + Accepted(attempts[1..])
  }

  /** Interrupted calls are repeated, short ones go on with the rest, and the first error ends it all. */
  lemma {:induction false} TotalIs(len: nat, before: seq<Attempt>, after: seq<Attempt>)
    requires forall i :: 0 <= i < |before| ==> before[i] != WriteError
    requires after == [] || after[0] == WriteError
    ensures Total(len, before + after) == if Accepted(before) < len then Accepted(before) else len
    decreases before
  {
    if before == [] {
      assert before + after == after;
    } else {
      assert (before + after)[1..] == before[1..] + after;
      if before[0].Interrupted? {
        TotalIs(len, before[1..], after);
      } else if before[0].n <= len {
        TotalIs(len - before[0].n, before[1..], after);
      }
    }
  }

  /**
   * Only an unforced flush under `everysec`, with a sync running, waits, and not longer than two
   * seconds. Any other writes: all of the buffer if the calls let it through, and then the log is in
   * order; if not, `always` exits and the other policies record the failure, with the part that was
   * written taken back or, if that fails too, taken off the buffer.
   */
  lemma FlushOutcome(l: Log, env: FlushEnv)
    requires Valid(l) && AtEnd(l) && l.buf != []
    ensures var r := Flush(l, env);
            var all := Total(|l.buf|, env.attempts) == |l.buf|;
            if !env.force && env.policy == EverySec && env.syncing && (l.postponed == 0 || env.now < l.postponed + 2000) then
              r == Some(l.(postponed := if l.postponed == 0 then env.now else l.postponed))
            else if all then
              && r.Some? && r.value.file == l.file + l.buf && r.value.buf == [] && r.value.ok
              && r.value.size == |l.file + l.buf| && r.value.postponed == 0
            else if env.policy == Always then r == None
            else
              var kept := if env.truncates then 0 else Total(|l.buf|, env.attempts);
              && r.Some? && !r.value.ok && r.value.postponed == 0
              && r.value.file == l.file + l.buf[..kept] && r.value.buf == l.buf[kept..]
  {
    hide Put, Moved, Total, TruncatedTo;
    WriteAtEnd(l, env.attempts);
    assert l.buf[..|l.buf|] == l.buf;
    var t := Total(|l.buf|, env.attempts);
    RolledBack(l.file, l.buf[..t]);
    if t == 0 { assert l.file + l.buf[..0] == l.file && l.buf[0..] == l.buf; }
  }

  lemma RolledBack(file: Bytes, data: Bytes)
    ensures TruncatedTo(file + data, |file|) == file
  {}

  /** A short write that was undone with ftruncate. */
  predicate RollsBack(l: Log, env: FlushEnv) {
    l.buf != [] && !Postpones(l, env) && env.policy != Always && env.truncates
    && 0 < Written(|l.buf|, env.attempts) < |l.buf|
  }

  /** The recorded size is right and the descriptor never points into the file. */
  predicate Valid(l: Log) {
    l.size == |l.file| && (l.fd.append || l.fd.offset >= |l.file|)
  }

  predicate AtEnd(l: Log) { l.fd.append || l.fd.offset == |l.file| }

  /** File bytes followed by the buffer are what they were, and the recorded size is right. */
  predicate Kept(l: Log, l': Log) { l'.file + l'.buf == l.file + l.buf && Valid(l') }

  lemma WriteAtEnd(l: Log, attempts: seq<Attempt>)
    requires Valid(l) && AtEnd(l)
    ensures var l', t := AfterWrite(l, attempts), Total(|l.buf|, attempts);
            && l'.file == l.file + l.buf[..t]
            && (l.fd.append || l'.fd.offset == |l.file| + t)
  {
    hide Total;
  }

  lemma WriteElsewhere(l: Log, attempts: seq<Attempt>)
    requires Valid(l) && !AtEnd(l)
    ensures var l', t := AfterWrite(l, attempts), Total(|l.buf|, attempts);
            && l.file <= l'.file && l'.fd.offset >= |l'.file|
            && (if t > 0 then |l'.file| > |l.file| + t else l'.file == l.file)
  {
    hide Total;
  }

  lemma SettleKeeps(l: Log, w: Log, t: nat, n: int, policy: Policy, truncates: bool)
    requires Valid(l) && AtEnd(l) && l.buf != [] && t <= |l.buf| && n == (if t == 0 then -1 else t)
    requires w == l.(file := l.file + l.buf[..t], fd := w.fd, postponed := 0)
    requires w.fd.append == l.fd.append && (l.fd.append || w.fd.offset == |l.file| + t)
    requires Settle(w, n, policy, truncates).Some?
    ensures var r := Settle(w, n, policy, truncates).value;
            && Kept(l, r) && l.file <= r.file && r.fd.append == l.fd.append
            && (AtEnd(r) <==> l.fd.append || !(0 < t < |l.buf| && truncates))
  {
    var r := Settle(w, n, policy, truncates).value;
    var done, left := l.buf[..t], l.buf[t..];
    if t == |l.buf| {
      assert w.file + [] == l.file + l.buf;
    } else if t == 0 {
      assert w.file == l.file;
    } else if truncates {
      assert TruncatedTo(w.file, l.size) == l.file;
    } else {
      hide Padded, TruncatedTo;
      assert (l.file + done) + left == l.file + (done + left);
      assert done + left == l.buf;
    }
  }

  /**
   * Every outcome that does not exit keeps the bytes, as long as the descriptor is at the end
   * of the file. It is again there afterwards, unless a short write was rolled back on a
   * descriptor without O_APPEND.
   */
  lemma FlushKeeps(l: Log, env: FlushEnv)
    requires Valid(l) && AtEnd(l) && Flush(l, env).Some?
    ensures Kept(l, Flush(l, env).value)
    ensures AtEnd(Flush(l, env).value) <==> l.fd.append || !RollsBack(l, env)
    ensures l.file <= Flush(l, env).value.file && Flush(l, env).value.fd.append == l.fd.append
  {
    if l.buf != [] && !Postpones(l, env) {
      hide Put, Total, Settle;
      WriteAtEnd(l, env.attempts);
      SettleKeeps(l, AfterWrite(l, env.attempts), Total(|l.buf|, env.attempts),
                  Written(|l.buf|, env.attempts), env.policy, env.truncates);
      SettleAlways(AfterWrite(l, env.attempts), Written(|l.buf|, env.attempts), env.truncates);
    }
  }

  lemma SettleAlways(l: Log, n: int, truncates: bool)
    requires n <= |l.buf|
    ensures Settle(l, n, Always, truncates).Some? ==> n == |l.buf|
  {}

  /** How many bytes of the buffer a flush leaves in the file: all, or those of a short write that is not undone. */
  function Taken(l: Log, env: FlushEnv): (n: nat)
    ensures n <= |l.buf|
  {
    var n := Written(|l.buf|, env.attempts);
    if l.buf != [] && !Postpones(l, env) && (n == |l.buf| || (0 < n && !env.truncates)) then n else 0
  }

  /** Exactly those bytes move from the buffer to the file, unless they would land behind a gap. */
  lemma FlushTakes(l: Log, env: FlushEnv)
    requires Valid(l) && (AtEnd(l) || Taken(l, env) == 0) && Flush(l, env).Some?
    ensures Flush(l, env).value.file == l.file + l.buf[..Taken(l, env)]
    ensures Flush(l, env).value.buf == l.buf[Taken(l, env)..]
  {
    if l.buf != [] && !Postpones(l, env) {
      hide Put, Total, Written;
      var w, t, n := AfterWrite(l, env.attempts), Total(|l.buf|, env.attempts), Written(|l.buf|, env.attempts);
      WrittenIs(|l.buf|, env.attempts);
      if AtEnd(l) {
        WriteAtEnd(l, env.attempts);
      } else {
        WriteElsewhere(l, env.attempts);
      }
      SettleTakes(l, w, t, n, env.policy, env.truncates);
    }
  }

  lemma WrittenIs(len: nat, attempts: seq<Attempt>)
    ensures var t := Total(len, attempts); Written(len, attempts) == if t == 0 && len > 0 then -1 else t
  {}

  lemma SettleTakes(l: Log, w: Log, t: nat, n: int, policy: Policy, truncates: bool)
    requires Valid(l) && l.buf != [] && t <= |l.buf| && n == (if t == 0 then -1 else t)
    requires w == l.(file := w.file, fd := w.fd, postponed := 0) && l.file <= w.file && (t == 0 ==> w.file == l.file)
    requires n == |l.buf| || (0 < n && !truncates) ==> w.file == l.file + l.buf[..t]
    requires Settle(w, n, policy, truncates).Some?
    ensures var r, k := Settle(w, n, policy, truncates).value, if n == |l.buf| || (0 < n && !truncates) then t else 0;
            r.file == l.file + l.buf[..k] && r.buf == l.buf[k..]
  {
    if 0 < t < |l.buf| && truncates { assert TruncatedTo(w.file, l.size) == l.file; }
  }

  lemma SettleElsewhere(l: Log, w: Log, t: nat, n: int, policy: Policy, truncates: bool)
    requires Valid(l) && !AtEnd(l) && l.buf != [] && t <= |l.buf| && n == (if t == 0 then -1 else t)
    requires w == l.(file := w.file, fd := w.fd, postponed := 0)
    requires l.file <= w.file && w.fd.offset >= |w.file| && !w.fd.append
    requires if t > 0 then |w.file| > |l.file| + t else w.file == l.file
    requires Settle(w, n, policy, truncates).Some?
    ensures var r := Settle(w, n, policy, truncates).value;
            Kept(l, r) <==> !(n == |l.buf| || (0 < n && !truncates))
  {
    assert TruncatedTo(w.file, l.size) == l.file;
  }

  /** Exactly when a flush keeps the bytes: unless it leaves data behind a gap. */
  lemma FlushKeepsExactly(l: Log, env: FlushEnv)
    requires Valid(l) && Flush(l, env).Some?
    ensures Kept(l, Flush(l, env).value) <==> AtEnd(l) || Taken(l, env) == 0
  {
    if AtEnd(l) {
      hide Flush, Taken;
      FlushKeeps(l, env);
    } else if l.buf != [] && !Postpones(l, env) {
      hide Put, Total, Settle;
      WriteElsewhere(l, env.attempts);
      SettleElsewhere(l, AfterWrite(l, env.attempts), Total(|l.buf|, env.attempts),
                      Written(|l.buf|, env.attempts), env.policy, env.truncates);
    }
  }

  /** A short write rolled back on a file opened without O_APPEND, then a full write: a zero gap. */
  lemma GapAfterRollback()
    ensures var l := Log([], Fd(false, 0), [65, 66], 0, 0, true);
            var full := FlushEnv(EverySec, true, 0, false, [Wrote(2)], true);
            var short := full.(attempts := [Wrote(1), WriteError]);
            Flush(l, short).Some? && Flush(Flush(l, short).value, full).Some?
            && Flush(Flush(l, short).value, full).value.file == [0, 65, 66]
  {
    var l := Log([], Fd(false, 0), [65, 66], 0, 0, true);
    assert Total(2, [Wrote(1), WriteError]) == 1 + Total(1, [Wrote(1), WriteError][1..]) == 1;
    assert Put([], Fd(false, 0), [65]) == [65];
    var l' := l.(fd := Fd(false, 1), ok := false);
    assert TruncatedTo([65], 0) == [];
    assert Flush(l, FlushEnv(EverySec, true, 0, false, [Wrote(1), WriteError], true)) == Some(l');
    assert Total(2, [Wrote(2)]) == 2 + Total(0, [Wrote(2)][1..]);
    assert l'.buf[..2] == l'.buf;
  }
}
