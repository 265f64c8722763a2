/** The per-connection receive loop of aesdsocket: line framing over a bounded
    receive buffer, appends to the log and a send-back after every line.

    The socket is abstracted on both sides. What the peer sends is a sequence
    of segments; one recv() asked for `room` bytes returns up to `room` bytes
    from the front of the first segment and leaves the rest queued, and an
    empty segment or the end of the sequence is recv() returning 0 (or -1:
    the loop treats both alike). What the sends report is the script of
    Transmit. The log file is its contents; opening it in append mode, the
    flushes and the file position are left implicit.
 */
module Connection {
  import opened Bytes
  import opened Transmit

  /** One call of send_file_back: the log as it stood, and what reached the client. */
  datatype Reply = Reply(snapshot: Bytes, status: Status, wire: Bytes)

  /** The client got the whole snapshot exactly when the call returned 0, and a prefix of it in any case. */
  predicate Honest(r: Reply)
  {
    r.wire <= r.snapshot && (r.status == Sent <==> r.wire == r.snapshot)
  }

  predicate AllHonest(rs: seq<Reply>)
  {
    forall k :: 0 <= k < |rs| ==> Honest(rs[k])
  }

  predicate AllSent(rs: seq<Reply>)
  {
    forall k :: 0 <= k < |rs| ==> rs[k].status == Sent
  }

  /** `b` is `a` with further replies after it. */
  predicate Extends(a: seq<Reply>, b: seq<Reply>)
  {
    |a| <= |b| && b[..|a|] == a
  }

  function Snapshots(rs: seq<Reply>): (r: seq<Bytes>)
    ensures |r| == |rs|
    ensures forall k :: 0 <= k < |rs| ==> r[k] == rs[k].snapshot
  {
    seq(|rs|, k requires 0 <= k < |rs| => rs[k].snapshot)
  }

  /** State of one connection: the receive buffer (the first total_received bytes of
      receive_buffer), the log contents, the send-backs so far and the unused send script. */
  datatype Session = Session(buf: Bytes, log: Bytes, replies: seq<Reply>, net: seq<SendReply>)

  // ---------------------------------------------------------------------------
  // The peer

  /** The bytes the peer sends before its stream ends. */
  function Stream(segs: seq<Bytes>): Bytes
    decreases |segs|
  {
    if |segs| == 0 || |segs[0]| == 0 then [] else segs[0] + Stream(segs[1..])
  }

  /** recv(conn_fd, ..., room, 0): the bytes returned, and what stays queued. */
  function Recv(segs: seq<Bytes>, room: nat): (r: (Bytes, seq<Bytes>))
    requires room > 0
    ensures |r.0| <= room
    ensures r.0 + Stream(r.1) == Stream(segs)
    ensures |r.0| == 0 <==> Stream(segs) == []
  {
    if |segs| == 0 || |segs[0]| == 0 then ([], segs)
    else if |segs[0]| <= room then (segs[0], segs[1..])
    else
      var rest := [segs[0][room..]] + segs[1..];
      assert rest[1..] == segs[1..];
      assert segs[0] == segs[0][..room] + segs[0][room..];
      (segs[0][..room], rest)
  }

  // ---------------------------------------------------------------------------
  // The receive loop

  /** fwrite is done; send_file_back streams the log as it now stands. */
  function SendBack(s: Session): (r: Session)
    ensures r.buf == s.buf && r.log == s.log
    ensures Extends(s.replies, r.replies) && |r.replies| == |s.replies| + 1
    ensures r.replies[|s.replies|].snapshot == s.log && Honest(r.replies[|s.replies|])
  {
    var t := SendFileBack(s.log, s.net);
    s.(replies := s.replies + [Reply(s.log, t.status, t.wire)], net := t.rest)
  }

  /** How the newline-scan loop ended: no newline left, or its `break` after a failed
      send-back, or stuck inside sendall. */
  datatype ScanEnd = Drained | Broke | Stuck

  /** The inner `while (memchr(...))` loop: log the buffer up to and including its first
      newline, send the log back, drop the line from the buffer, repeat. */
  function Scan(s: Session): (r: (Session, ScanEnd))
    decreases |s.buf|, 1
  {
    match FindNewline(s.buf)
    case NoNewline => (s, Drained)
    case NewlineAt(i) => Round(s, i, Advance(s, i))
  }

  /** The rest of a round of the scan loop once `s1` is `s` after the line ending at `i`
      was logged and sent back: a send-back that failed ends the loop with its `break`,
      before the buffer is compacted; otherwise the line leaves the buffer. */
  function Round(s: Session, i: nat, s1: Session): (r: (Session, ScanEnd))
    requires i < |s.buf| && |s1.replies| > |s.replies|
    decreases |s.buf|, 0
  {
    var status := s1.replies[|s.replies|].status;
    if status == Failed then (s1, Broke)
    else if status == Stalled then (s1, Stuck)
    else Scan(s1.(buf := s.buf[i + 1..]))
  }

  /** The start of a round of the scan loop: append the buffer up to and including the
      newline at `i` to the log, then send the log back. */
  function Advance(s: Session, i: nat): (r: Session)
    requires i < |s.buf|
    ensures r.buf == s.buf && r.log == s.log + s.buf[..i + 1]
    ensures Extends(s.replies, r.replies) && |r.replies| == |s.replies| + 1
    ensures r.replies[|s.replies|].snapshot == r.log && Honest(r.replies[|s.replies|])
  {
    SendBack(s.(log := s.log + s.buf[..i + 1]))
  }

  // How a round of the scan loop goes, one lemma for each way.

  lemma ScanNone(s: Session)
    requires FindNewline(s.buf).NoNewline?
    ensures Scan(s) == (s, Drained)
  {
  }

  lemma ScanSome(s: Session, i: nat)
    requires FindNewline(s.buf) == NewlineAt(i)
    ensures Scan(s) == Round(s, i, Advance(s, i))
  {
  }

  lemma RoundSent(s: Session, i: nat, s1: Session)
    requires i < |s.buf| && |s1.replies| > |s.replies| && s1.replies[|s.replies|].status == Sent
    ensures Round(s, i, s1) == Scan(s1.(buf := s.buf[i + 1..]))
  {
  }

  lemma RoundStops(s: Session, i: nat, s1: Session)
    requires i < |s.buf| && |s1.replies| > |s.replies| && s1.replies[|s.replies|].status != Sent
    ensures Round(s, i, s1) == (s1, if s1.replies[|s.replies|].status == Failed then Broke else Stuck)
  {
  }

  lemma ScanSent(s: Session, i: nat)
    requires FindNewline(s.buf) == NewlineAt(i)
    requires Advance(s, i).replies[|s.replies|].status == Sent
    ensures Scan(s) == Scan(Advance(s, i).(buf := s.buf[i + 1..]))
  {
    FoundAt(s.buf, i);
    ScanSome(s, i);
    RoundSent(s, i, Advance(s, i));
  }

  /** Only whole lines leave the buffer: `b` is a suffix of `a` with a newline or nothing before it. */
  predicate LinesRemoved(a: Bytes, b: Bytes)
  {
    |b| <= |a| && b == a[|a| - |b|..] && (|b| < |a| ==> a[|a| - |b| - 1] == NL)
  }

  /** `log` is `log0`, then what was removed from the front of `a` to leave `b`, then `extra`. */
  predicate Logged(log0: Bytes, a: Bytes, b: Bytes, extra: Bytes, log: Bytes)
  {
    |b| <= |a| && log == log0 + a[..|a| - |b|] + extra
  }

  lemma LinesRemovedStep(a: Bytes, i: nat, b: Bytes)
    requires i < |a| && a[i] == NL
    requires LinesRemoved(a[i + 1..], b)
    ensures LinesRemoved(a, b)
  {
    assert a[i + 1..][|a| - i - 1 - |b|..] == a[|a| - |b|..];
    if |b| < |a| - i - 1 {
      assert a[i + 1..][|a| - i - 1 - |b| - 1] == a[|a| - |b| - 1];
    }
  }

  lemma LoggedStep(log0: Bytes, a: Bytes, i: nat, b: Bytes, extra: Bytes, log: Bytes)
    requires i < |a|
    requires Logged(log0 + a[..i + 1], a[i + 1..], b, extra, log)
    ensures Logged(log0, a, b, extra, log)
  {
    assert a[..|a| - |b|] == a[..i + 1] + a[i + 1..][..|a| - i - 1 - |b|];
  }

  /** The scan loop keeps a suffix of the buffer, and what it removed in front of that
      suffix ends with a newline. */
  lemma {:induction false} ScanKeepsSuffix(s: Session)
    ensures LinesRemoved(s.buf, Scan(s).0.buf)
    decreases |s.buf|
  {
    match FindNewline(s.buf)
    case NoNewline =>
      ScanNone(s);
      assert s.buf[0..] == s.buf;
    case NewlineAt(i) =>
      var s1 := Advance(s, i);
      if s1.replies[|s.replies|].status == Sent {
        var s2 := s1.(buf := s.buf[i + 1..]);
        ScanSent(s, i);
        ScanKeepsSuffix(s2);
        LinesRemovedStep(s.buf, i, Scan(s2).0.buf);
      } else {
        FoundAt(s.buf, i);
        ScanSome(s, i);
        RoundStops(s, i, s1);
        assert Scan(s).0 == s1;
        assert s.buf[0..] == s.buf;
      }
  }

  /** The scan loop only adds replies after those already made. */
  lemma {:induction false} ScanExtends(s: Session)
    ensures Extends(s.replies, Scan(s).0.replies)
    decreases |s.buf|
  {
    match FindNewline(s.buf)
    case NoNewline =>
      ScanNone(s);
    case NewlineAt(i) =>
      var s1 := Advance(s, i);
      if s1.replies[|s.replies|].status == Sent {
        var s2 := s1.(buf := s.buf[i + 1..]);
        ScanSent(s, i);
        ScanExtends(s2);
        ExtendsTrans(s.replies, s1.replies, Scan(s2).0.replies);
      } else {
        FoundAt(s.buf, i);
        ScanSome(s, i);
        RoundStops(s, i, s1);
      }
  }

  lemma ExtendsTrans(a: seq<Reply>, b: seq<Reply>, c: seq<Reply>)
    requires Extends(a, b) && Extends(b, c)
    ensures Extends(a, c)
  {
    assert c[..|a|] == c[..|b|][..|a|];
  }

  /** The scan loop drains every newline from the buffer exactly when every send-back
      it made succeeded. */
  lemma {:induction false} ScanDrainsIffSent(s: Session)
    ensures Scan(s).1 == Drained <==> AllSentFrom(Scan(s).0.replies, |s.replies|)
    decreases |s.buf|
  {
    match FindNewline(s.buf)
    case NoNewline =>
      ScanNone(s);
    case NewlineAt(i) =>
      var s1 := Advance(s, i);
      if s1.replies[|s.replies|].status == Sent {
        var s2 := s1.(buf := s.buf[i + 1..]);
        ScanSent(s, i);
        ScanDrainsIffSent(s2);
        ScanExtends(s2);
        var r := Scan(s2).0;
        assert r.replies[|s.replies|] == r.replies[..|s1.replies|][|s.replies|];
        AllSentFromStep(r.replies, |s.replies|);
      } else {
        FoundAt(s.buf, i);
        ScanSome(s, i);
        RoundStops(s, i, s1);
      }
  }

  /** Every reply from position `n` on was sent in full. */
  predicate AllSentFrom(rs: seq<Reply>, n: nat)
  {
    forall k :: n <= k < |rs| ==> rs[k].status == Sent
  }

  lemma AllSentFromStep(rs: seq<Reply>, n: nat)
    requires n < |rs|
    ensures AllSentFrom(rs, n) <==> rs[n].status == Sent && AllSentFrom(rs, n + 1)
  {
  }

  /** A drained scan leaves no newline in the buffer, and the bytes it removed went to
      the log once each, in order. */
  lemma {:induction false} ScanDrainedLog(s: Session)
    ensures var (r, e) := Scan(s); e == Drained ==> NL !in r.buf && Logged(s.log, s.buf, r.buf, [], r.log)
    decreases |s.buf|
  {
    match FindNewline(s.buf)
    case NoNewline =>
      ScanNone(s);
      assert s.buf[..0] == [];
    case NewlineAt(i) =>
      var s1 := Advance(s, i);
      if s1.replies[|s.replies|].status == Sent {
        var s2 := s1.(buf := s.buf[i + 1..]);
        ScanSent(s, i);
        ScanDrainedLog(s2);
        var (r, e) := Scan(s2);
        if e == Drained {
          LoggedStep(s.log, s.buf, i, r.buf, [], r.log);
        }
      }
  }

  /** `r` still holds, at the front of its buffer, the line last appended to its log,
      and before that line the log gained what was removed from the front of `s.buf`. */
  predicate KeepsLine(s: Session, r: Session)
  {
    FindNewline(r.buf).NewlineAt? && Logged(s.log, s.buf, r.buf, r.buf[..FindNewline(r.buf).pos + 1], r.log)
  }

  lemma KeepsLineStep(s: Session, i: nat, s2: Session, r: Session)
    requires i < |s.buf|
    requires s2.log == s.log + s.buf[..i + 1] && s2.buf == s.buf[i + 1..]
    requires KeepsLine(s2, r)
    ensures KeepsLine(s, r)
  {
    LoggedStep(s.log, s.buf, i, r.buf, r.buf[..FindNewline(r.buf).pos + 1], r.log);
  }

  /** The `break` of the scan loop: after a send-back that failed (or never returned) the loop
      stops before compacting, so the line just logged is still at the front of the buffer. */
  lemma {:induction false} ScanBreakKeepsLine(s: Session)
    ensures Scan(s).1 != Drained ==> KeepsLine(s, Scan(s).0)
    decreases |s.buf|
  {
    match FindNewline(s.buf)
    case NoNewline =>
      ScanNone(s);
    case NewlineAt(i) =>
      var s1 := Advance(s, i);
      if s1.replies[|s.replies|].status == Sent {
        var s2 := s1.(buf := s.buf[i + 1..]);
        ScanSent(s, i);
        ScanBreakKeepsLine(s2);
        if Scan(s2).1 != Drained {
          KeepsLineStep(s, i, s2, Scan(s2).0);
        }
      } else {
        FoundAt(s.buf, i);
        ScanSome(s, i);
        RoundStops(s, i, s1);
        BrokenLine(s, i);
        assert Scan(s).0 == s1;
      }
  }

  lemma BrokenLine(s: Session, i: nat)
    requires FindNewline(s.buf) == NewlineAt(i)
    ensures KeepsLine(s, Advance(s, i))
  {
    var s1 := Advance(s, i);
    assert s.log + s.buf[..0] + s.buf[..i + 1] == s1.log;
  }

  /** Every send-back so far was honest, and what each one streamed was a prefix of the
      next one's snapshot and of the current log `log`. */
  predicate Integrity(rs: seq<Reply>, log: Bytes)
  {
    && AllHonest(rs)
    && (forall k :: 0 <= k < |rs| ==> rs[k].snapshot <= log)
    && (forall k :: 0 <= k < |rs| - 1 ==> rs[k].snapshot <= rs[k + 1].snapshot)
  }

  lemma IntegrityGrow(rs: seq<Reply>, log: Bytes, log': Bytes)
    requires Integrity(rs, log) && log <= log'
    ensures Integrity(rs, log')
  {
    forall k | 0 <= k < |rs|
      ensures rs[k].snapshot <= log'
    {
      PrefixTrans(rs[k].snapshot, log, log');
    }
  }

  lemma IntegrityStep(rs: seq<Reply>, log: Bytes, log': Bytes, x: Reply)
    requires Integrity(rs, log) && log <= log' && x.snapshot == log' && Honest(x)
    ensures Integrity(rs + [x], log')
  {
    IntegrityGrow(rs, log, log');
    if |rs| > 0 {
      PrefixTrans(rs[|rs| - 1].snapshot, log, log');
    }
    var rs' := rs + [x];
    assert forall k :: 0 <= k < |rs| ==> rs'[k] == rs[k];
  }

  /** One round of the scan loop appends to the log and keeps the send-backs' integrity. */
  lemma AdvanceIntegrity(s: Session, i: nat)
    requires i < |s.buf|
    ensures s.log <= Advance(s, i).log
    ensures Integrity(s.replies, s.log) ==> Integrity(Advance(s, i).replies, Advance(s, i).log)
  {
    var s1 := Advance(s, i);
    var x := s1.replies[|s.replies|];
    assert s1.replies == s.replies + [x];
    if Integrity(s.replies, s.log) {
      IntegrityStep(s.replies, s.log, s1.log, x);
    }
  }

  /** The scan loop only appends to the log, and keeps the send-backs' integrity. */
  lemma {:induction false} ScanAppendsOnly(s: Session)
    ensures var r := Scan(s).0; s.log <= r.log && (Integrity(s.replies, s.log) ==> Integrity(r.replies, r.log))
    decreases |s.buf|
  {
    match FindNewline(s.buf)
    case NoNewline =>
      ScanNone(s);
    case NewlineAt(i) =>
      FoundAt(s.buf, i);
      var s1 := Advance(s, i);
      AdvanceIntegrity(s, i);
      if s1.replies[|s.replies|].status == Sent {
        var s2 := s1.(buf := s.buf[i + 1..]);
        ScanSent(s, i);
        ScanAppendsOnly(s2);
        PrefixTrans(s.log, s2.log, Scan(s2).0.log);
      } else {
        ScanSome(s, i);
        RoundStops(s, i, s1);
      }
  }

  /** The first round of a scan appends the buffer's first line to the log, whatever
      happens after it. */
  lemma ScanFirstLine(t: Session, p: nat)
    requires FindNewline(t.buf) == NewlineAt(p)
    ensures p < |t.buf| && t.log + t.buf[..p + 1] <= Scan(t).0.log
  {
    FoundAt(t.buf, p);
    var s1 := Advance(t, p);
    if s1.replies[|t.replies|].status == Sent {
      var s2 := s1.(buf := t.buf[p + 1..]);
      ScanSent(t, p);
      ScanAppendsOnly(s2);
    } else {
      ScanSome(t, p);
      RoundStops(t, p, s1);
    }
  }

  /** A buffer's first newline stays its first newline when bytes are appended. */
  lemma FindNewlineAppend(a: Bytes, b: Bytes, p: nat)
    requires FindNewline(a) == NewlineAt(p)
    ensures FindNewline(a + b) == NewlineAt(p)
  {
    FoundAt(a, p);
    var c := a + b;
    assert c[..p] == a[..p] && c[p] == NL;
  }

  /** The duplicate that follows the `break` of the scan loop. A pass whose scan breaks
      after a failed send-back has just appended the buffer's first line to the log, and
      leaves that line in the buffer. However the connection goes on from there (whatever
      the peer sends, a capacity flush, the final flush, a later send-back that never
      returns), the same line is appended to the log a second time right after the first. */
  lemma BreakRelogsLine(s: Session, data: Bytes, segs: seq<Bytes>)
    requires |s.buf| + |data| <= MAX_RECV_BUF_LEN
    ensures var (r, e) := Scan(s.(buf := s.buf + data));
            e == Broke ==>
              && FindNewline(r.buf).NewlineAt?
              && var line := r.buf[..FindNewline(r.buf).pos + 1];
                 && |line| <= |r.log| && r.log[|r.log| - |line|..] == line
                 && r.log + line <= Finish(Resume(Absorb(s, data), segs)).log
  {
    var t := s.(buf := s.buf + data);
    var (r, e) := Scan(t);
    ScanBreakKeepsLine(t);
    if e == Broke {
      var p := FindNewline(r.buf).pos;
      var line := r.buf[..p + 1];
      FoundAt(r.buf, p);
      var front := t.log + t.buf[..|t.buf| - |r.buf|];
      assert r.log == front + line;
      assert r.log[|front|..] == line;
      var q := CapacityFlush(r);
      assert Absorb(s, data) == Pass(q, false);
      if |r.buf| < MAX_RECV_BUF_LEN {
        assert q == r;
        assert Relogs(r.log, line, q);
      } else {
        assert q.log == r.log + r.buf && r.buf == line + r.buf[p + 1..];
        assert Relogs(r.log, line, q);
      }
      RelogsRecvLoop(r.log, line, q, segs);
    }
  }

  /** The line `line` is logged a second time after the log `p`: it already has been, or
      the log is still `p` and `line` is the first line of the buffer. */
  ghost predicate Relogs(p: Bytes, line: Bytes, q: Session)
  {
    || p + line <= q.log
    || (&& |line| > 0 && q.log == p
        && FindNewline(q.buf) == NewlineAt(|line| - 1) && line == q.buf[..|line|])
  }

  /** A pass of the receive loop logs the pending line. */
  lemma RelogsAbsorb(p: Bytes, line: Bytes, q: Session, data: Bytes)
    requires Relogs(p, line, q) && |q.buf| + |data| <= MAX_RECV_BUF_LEN
    ensures p + line <= Absorb(q, data).state.log
  {
    var a := Absorb(q, data).state;
    AbsorbIntegrity(q, data);
    if p + line <= q.log {
      PrefixTrans(p + line, q.log, a.log);
    } else {
      var i := |line| - 1;
      var t := q.(buf := q.buf + data);
      FindNewlineAppend(q.buf, data, i);
      ScanFirstLine(t, i);
      assert t.buf[..i + 1] == line;
      var sc := Scan(t).0;
      assert a == sc || a == CapacityFlush(sc);
      PrefixTrans(p + line, sc.log, a.log);
    }
  }

  /** The rest of the connection logs the pending line. */
  lemma RelogsRecvLoop(p: Bytes, line: Bytes, q: Session, segs: seq<Bytes>)
    requires Relogs(p, line, q) && |q.buf| < MAX_RECV_BUF_LEN
    ensures p + line <= Finish(RecvLoop(q, segs)).log
  {
    var (data, rest) := Recv(segs, MAX_RECV_BUF_LEN - |q.buf|);
    if |data| == 0 {
      assert RecvLoop(q, segs) == Pass(q, false);
      RelogsFinalFlush(p, line, q);
    } else {
      var a := Absorb(q, data);
      RelogsAbsorb(p, line, q, data);
      assert RecvLoop(q, segs) == Resume(a, rest);
      RelogsResume(p, line, a, rest);
    }
  }

  /** The final flush logs the pending line. */
  lemma RelogsFinalFlush(p: Bytes, line: Bytes, q: Session)
    requires Relogs(p, line, q)
    ensures p + line <= FinalFlush(q).log
  {
    var f := FinalFlush(q);
    if p + line <= q.log {
      PrefixTrans(p + line, q.log, f.log);
    } else {
      assert q.buf == line + q.buf[|line|..];
      assert f.log == p + line + q.buf[|line|..];
    }
  }

  /** Once the line is logged, the rest of the connection keeps it. */
  lemma RelogsResume(p: Bytes, line: Bytes, a: Pass, segs: seq<Bytes>)
    requires !a.hung ==> |a.state.buf| < MAX_RECV_BUF_LEN
    requires p + line <= a.state.log
    ensures p + line <= Finish(Resume(a, segs)).log
  {
    ResumeIntegrity(a, segs);
    var b := Resume(a, segs);
    FinishIntegrity(b);
    PrefixTrans(p + line, a.state.log, b.state.log);
    PrefixTrans(p + line, b.state.log, Finish(b).log);
  }

  lemma PrefixTrans(a: Bytes, b: Bytes, c: Bytes)
    requires a <= b && b <= c
    ensures a <= c
  {
    assert c[..|a|] == c[..|b|][..|a|];
  }

  /** A drained scan makes one send-back per newline of the buffer, the k-th with the
      log as it stood once the k-th line had been appended. */
  lemma {:induction false} ScanReplies(s: Session)
    ensures Scan(s).1 == Drained ==> RepliesPerLine(s, Scan(s).0)
    decreases |s.buf|
  {
    match FindNewline(s.buf)
    case NoNewline =>
      ScanNone(s);
      assert Scan(s).0 == s;
      NoLinePrefixes(s.buf);
      assert PrependAll(s.log, LinePrefixes(s.buf)) == [];
      assert Snapshots(s.replies) + [] == Snapshots(s.replies);
    case NewlineAt(i) =>
      var s1 := Advance(s, i);
      if s1.replies[|s.replies|].status == Sent {
        var s2 := s1.(buf := s.buf[i + 1..]);
        ScanSent(s, i);
        ScanReplies(s2);
        ScanRepliesStep(s, i, s1, s2);
      } else {
        FoundAt(s.buf, i);
        ScanSome(s, i);
        RoundStops(s, i, s1);
        assert Scan(s).1 != Drained;
      }
  }

  /** The replies a drained scan of `s` added are one per line of `s.buf`, each
      snapshot the log of `s` followed by the stream up to that line. */
  predicate RepliesPerLine(s: Session, r: Session)
  {
    Snapshots(r.replies) == Snapshots(s.replies) + PrependAll(s.log, LinePrefixes(s.buf))
  }

  lemma ScanRepliesStep(s: Session, i: nat, s1: Session, s2: Session)
    requires FindNewline(s.buf) == NewlineAt(i)
    requires s1 == Advance(s, i) && s1.replies[|s.replies|].status == Sent
    requires s2 == s1.(buf := s.buf[i + 1..]) && Scan(s) == Scan(s2)
    requires Scan(s2).1 == Drained ==> RepliesPerLine(s2, Scan(s2).0)
    ensures Scan(s).1 == Drained ==> RepliesPerLine(s, Scan(s).0)
  {
    if Scan(s2).1 == Drained {
      FoundAt(s.buf, i);
      RepliesPerLineStep(s, i, s1.replies[|s.replies|], s2, Scan(s2).0);
    }
  }

  /** A round that logged the line ending at `i` and made the reply `x`, followed by one
      reply per line of the rest of the buffer, is one reply per line of the whole buffer. */
  lemma RepliesPerLineStep(s: Session, i: nat, x: Reply, s2: Session, r: Session)
    requires i < |s.buf| && s.buf[i] == NL && NL !in s.buf[..i]
    requires s2.log == s.log + s.buf[..i + 1] && s2.buf == s.buf[i + 1..]
    requires s2.replies == s.replies + [x] && x.snapshot == s2.log
    requires RepliesPerLine(s2, r)
    ensures RepliesPerLine(s, r)
  {
    var line := s.buf[..i + 1];
    var xs := LinePrefixes(s2.buf);
    assert s.buf == line + s2.buf;
    assert line[..|line| - 1] == s.buf[..i];
    FirstLinePrefixes(s.log, line, s2.buf);
    SnapshotsAppend(s.replies, x);
    Assoc(Snapshots(s.replies), [s.log + line], PrependAll(s.log + line, xs));
  }

  lemma Assoc<T>(a: seq<T>, b: seq<T>, c: seq<T>)
    ensures a + b + c == a + (b + c)
  {
  }

  lemma SnapshotsAppend(rs: seq<Reply>, x: Reply)
    ensures Snapshots(rs + [x]) == Snapshots(rs) + [x.snapshot]
  {
  }

  /** The capacity check after the scan loop: a buffer that has filled up goes to the log whole, with no send-back. */
  function CapacityFlush(s: Session): (r: Session)
    ensures |r.buf| < MAX_RECV_BUF_LEN
    ensures r.replies == s.replies && r.net == s.net
    ensures r.log + r.buf == s.log + s.buf
    ensures |s.buf| < MAX_RECV_BUF_LEN ==> r == s
    ensures |s.buf| >= MAX_RECV_BUF_LEN ==> r.buf == [] && r.log == s.log + s.buf
  {
    if |s.buf| >= MAX_RECV_BUF_LEN then s.(log := s.log + s.buf, buf := []) else s
  }

  /** Where the receive loop stands: the connection's state, and whether a send-back
      never returned. */
  datatype Pass = Pass(state: Session, hung: bool)

  /** One pass of the receive loop after recv() returned the bytes `data`: scan for
      lines, then flush a full buffer. */
  function Absorb(s: Session, data: Bytes): (r: Pass)
    requires |s.buf| + |data| <= MAX_RECV_BUF_LEN
    ensures !r.hung ==> |r.state.buf| < MAX_RECV_BUF_LEN
    ensures Extends(s.replies, r.state.replies)
  {
    ScanExtends(s.(buf := s.buf + data));
    var (sc, e) := Scan(s.(buf := s.buf + data));
    if e == Stuck then Pass(sc, true)
    else Pass(CapacityFlush(sc), false)
  }

  /** The outer `while (recv(...) > 0)` loop. Every recv() asks for the room left in
      the buffer, which is never zero. */
  function RecvLoop(s: Session, segs: seq<Bytes>): (r: Pass)
    requires |s.buf| < MAX_RECV_BUF_LEN
    ensures !r.hung ==> |r.state.buf| < MAX_RECV_BUF_LEN
    ensures Extends(s.replies, r.state.replies)
    decreases |Stream(segs)|, 0
  {
    var (data, rest) := Recv(segs, MAX_RECV_BUF_LEN - |s.buf|);
    if |data| == 0 then Pass(s, false)
    else
      var p := Absorb(s, data);
      var r := Resume(p, rest);
      assert r.state.replies[..|s.replies|] == p.state.replies[..|s.replies|];
      r
  }

  /** The receive loop after a pass that ended in `p`, with `segs` still to come from the
      peer: it goes on unless a send-back never returned. */
  function Resume(p: Pass, segs: seq<Bytes>): (r: Pass)
    requires !p.hung ==> |p.state.buf| < MAX_RECV_BUF_LEN
    ensures !r.hung ==> |r.state.buf| < MAX_RECV_BUF_LEN
    ensures Extends(p.state.replies, r.state.replies)
    ensures p.hung ==> r == p
    decreases |Stream(segs)|, 1
  {
    if p.hung then p else RecvLoop(p.state, segs)
  }

  /** How a connection ended: closed normally, with the `break` of the final flush that
      leaves the accept loop, or stuck inside sendall. */
  datatype Outcome = Closed | StopServer | Blocked

  datatype ConnResult = ConnResult(log: Bytes, replies: seq<Reply>, outcome: Outcome)

  /** The final flush: bytes left over when the peer is done go to the log and are
      followed by exactly one send-back; a failure there stops the server. */
  function FinalFlush(s: Session): (r: ConnResult)
    ensures r.log == s.log + s.buf
    ensures Extends(s.replies, r.replies)
    ensures |s.buf| == 0 ==> r.replies == s.replies && r.outcome == Closed
    ensures |s.buf| > 0 ==>
              |r.replies| == |s.replies| + 1 && r.replies[|s.replies|].snapshot == r.log &&
              (r.outcome == Closed <==> r.replies[|s.replies|].status == Sent) &&
              (r.outcome == StopServer <==> r.replies[|s.replies|].status == Failed)
  {
    if |s.buf| > 0 then
      var s1 := SendBack(s.(log := s.log + s.buf));
      var status := s1.replies[|s.replies|].status;
      var outcome := if status == Sent then Closed else if status == Failed then StopServer else Blocked;
      ConnResult(s1.log, s1.replies, outcome)
    else
      assert s.buf == [];
      ConnResult(s.log, s.replies, Closed)
  }

  /** The handling of one accepted connection, starting from the log left by
      earlier connections: the receive loop, then the final flush unless a send-back
      never returned. */
  function HandleConnection(log: Bytes, segs: seq<Bytes>, net: seq<SendReply>): ConnResult
  {
    Finish(RecvLoop(Session([], log, [], net), segs))
  }

  /** How the connection ends once the receive loop has returned `p`: blocked if a send-back
      never returned, otherwise after the final flush. */
  function Finish(p: Pass): ConnResult
  {
    if p.hung then ConnResult(p.state.log, p.state.replies, Blocked) else FinalFlush(p.state)
  }

  /** One pass of the receive loop only appends to the log and keeps the send-backs' integrity. */
  lemma AbsorbIntegrity(s: Session, data: Bytes)
    requires |s.buf| + |data| <= MAX_RECV_BUF_LEN
    ensures var r := Absorb(s, data).state;
            s.log <= r.log && (Integrity(s.replies, s.log) ==> Integrity(r.replies, r.log))
  {
    var t := s.(buf := s.buf + data);
    var sc := Scan(t).0;
    ScanAppendsOnly(t);
    var r := Absorb(s, data).state;
    assert r == sc || r == CapacityFlush(sc);
    PrefixTrans(s.log, sc.log, r.log);
    if Integrity(s.replies, s.log) {
      IntegrityGrow(sc.replies, sc.log, r.log);
    }
  }

  /** The receive loop only appends to the log and keeps the send-backs' integrity. */
  lemma {:induction false} RecvLoopIntegrity(s: Session, segs: seq<Bytes>)
    requires |s.buf| < MAX_RECV_BUF_LEN
    ensures var r := RecvLoop(s, segs).state;
            s.log <= r.log && (Integrity(s.replies, s.log) ==> Integrity(r.replies, r.log))
    decreases |Stream(segs)|, 0
  {
    var (data, rest) := Recv(segs, MAX_RECV_BUF_LEN - |s.buf|);
    if |data| > 0 {
      var p := Absorb(s, data);
      AbsorbIntegrity(s, data);
      ResumeIntegrity(p, rest);
      assert RecvLoop(s, segs) == Resume(p, rest);
      PrefixTrans(s.log, p.state.log, Resume(p, rest).state.log);
    }
  }

  /** One turn of the receive loop: it ends when recv() returns nothing, and otherwise
      absorbs what recv() returned and resumes. */
  lemma RecvLoopUnfold(s: Session, segs: seq<Bytes>)
    requires |s.buf| < MAX_RECV_BUF_LEN
    ensures var (data, rest) := Recv(segs, MAX_RECV_BUF_LEN - |s.buf|);
            RecvLoop(s, segs) == if |data| == 0 then Pass(s, false) else Resume(Absorb(s, data), rest)
  {
  }

  /** The rest of the receive loop only appends to the log and keeps the send-backs' integrity. */
  lemma {:induction false} ResumeIntegrity(p: Pass, segs: seq<Bytes>)
    requires !p.hung ==> |p.state.buf| < MAX_RECV_BUF_LEN
    ensures var r := Resume(p, segs).state;
            p.state.log <= r.log && (Integrity(p.state.replies, p.state.log) ==> Integrity(r.replies, r.log))
    decreases |Stream(segs)|, 1
  {
    if !p.hung {
      RecvLoopIntegrity(p.state, segs);
    }
  }

  /** The end of a connection only appends to the log and keeps the send-backs' integrity. */
  lemma FinishIntegrity(p: Pass)
    ensures var r := Finish(p);
            p.state.log <= r.log && (Integrity(p.state.replies, p.state.log) ==> Integrity(r.replies, r.log))
  {
    var s := p.state;
    var r := Finish(p);
    if !p.hung && Integrity(s.replies, s.log) {
      if |s.buf| > 0 {
        var x := r.replies[|s.replies|];
        assert r.replies == s.replies + [x];
        IntegrityStep(s.replies, s.log, r.log, x);
      } else {
        assert r.log == s.log;
      }
    }
  }

  /** Whatever the peer and the sends do, a connection only appends to the log it started
      from, every send-back is honest, and each streamed a prefix of the next one's log. */
  lemma ConnectionIntegrity(log: Bytes, segs: seq<Bytes>, net: seq<SendReply>)
    ensures var r := HandleConnection(log, segs, net);
            log <= r.log && Integrity(r.replies, r.log)
  {
    var s0 := Session([], log, [], net);
    RecvLoopIntegrity(s0, segs);
    var p := RecvLoop(s0, segs);
    FinishIntegrity(p);
    PrefixTrans(log, p.state.log, Finish(p).log);
  }
}
