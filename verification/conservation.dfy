/** What one connection does to the log and what it sends back, when no
    send-back fails: the log gains exactly the bytes the peer sent, in order,
    and there is one reply per newline received, carrying the log up to that
    newline, plus one final reply when unterminated bytes are left over.
 */
module Conservation {
  import opened Bytes
  import opened Transmit
  import opened Connection

  /** The state of a connection that has received the bytes `c`, starting from the log
      `log0`, with every send-back successful so far: the log holds everything received up to
      the last newline or the last capacity flush, the buffer the rest (no newline, and the
      unterminated tail modulo the capacity), and the replies carry the log as it stood at
      each newline. */
  ghost predicate Faithful(s: Session, log0: Bytes, c: Bytes)
  {
    Buffered(s, log0, c) && Answered(s, log0, c)
  }

  /** The log and buffer half of `Faithful`. */
  ghost predicate Buffered(s: Session, log0: Bytes, c: Bytes)
  {
    && Placed(s.log, s.buf, log0, c)
    && NL !in s.buf
    && |s.buf| == TailLen(c) % MAX_RECV_BUF_LEN
  }

  /** `buf` is the end of `c`, and `log` is `log0` followed by the rest of `c`. */
  ghost predicate Placed(log: Bytes, buf: Bytes, log0: Bytes, c: Bytes)
  {
    |buf| <= |c| && buf == c[|c| - |buf|..] && log == log0 + c[..|c| - |buf|]
  }

  /** The replies half of `Faithful`. */
  ghost predicate Answered(s: Session, log0: Bytes, c: Bytes)
  {
    Snapshots(s.replies) == PrependAll(log0, LinePrefixes(c)) && AllSent(s.replies)
  }

  /** Every send-back of the loop's result `r` succeeded only if the loop did not block
      and stayed faithful to the bytes `c` received from the log `log0`. */
  ghost predicate FaithfulEnd(r: Pass, log0: Bytes, c: Bytes)
  {
    AllSent(r.state.replies) ==> !r.hung && Faithful(r.state, log0, c)
  }

  /** What a drained scan of `t` leaves: no newline in the buffer, the unterminated tail
      of the old buffer as the new one, the lines before it in the log, one reply per line. */
  predicate DrainedShape(t: Session, r: Session)
  {
    && NL !in r.buf
    && LinesRemoved(t.buf, r.buf)
    && Logged(t.log, t.buf, r.buf, [], r.log)
    && RepliesPerLine(t, r)
    && |r.buf| == TailLen(t.buf)
  }

  lemma ScanDrained(t: Session)
    ensures Scan(t).1 == Drained ==> DrainedShape(t, Scan(t).0)
  {
    ScanKeepsSuffix(t);
    ScanDrainedLog(t);
    ScanReplies(t);
    if Scan(t).1 == Drained {
      TailIsKept(t.buf, Scan(t).0.buf);
    }
  }

  /** A newline-free suffix left after removing whole lines is the unterminated tail. */
  lemma TailIsKept(a: Bytes, b: Bytes)
    requires LinesRemoved(a, b) && NL !in b
    ensures |b| == TailLen(a)
  {
    TailLenAt(a, |a| - |b|);
  }

  lemma AllSentPrefix(a: seq<Reply>, b: seq<Reply>)
    requires Extends(a, b) && AllSent(b)
    ensures AllSent(a) && AllSentFrom(b, |a|)
  {
    forall k | 0 <= k < |a|
      ensures a[k].status == Sent
    {
      assert a[k] == b[..|a|][k];
    }
  }

  /** If every send-back of a pass of the receive loop succeeded, its scan drained. */
  lemma AbsorbDrains(s: Session, data: Bytes)
    requires |s.buf| + |data| <= MAX_RECV_BUF_LEN
    ensures var t := s.(buf := s.buf + data);
            AllSent(Absorb(s, data).state.replies) ==>
              !Absorb(s, data).hung && Scan(t).1 == Drained && Absorb(s, data).state == CapacityFlush(Scan(t).0)
  {
    var t := s.(buf := s.buf + data);
    var (sc, e) := Scan(t);
    ScanDrainsIffSent(t);
    if AllSent(Absorb(s, data).state.replies) {
      assert Absorb(s, data).state.replies == sc.replies;
      AllSentPrefix(t.replies, sc.replies);
    }
  }

  /** With a newline-free buffer: the line prefixes of the stream so far, followed by those
      of the buffer with the new bytes put after the logged part, are those of the longer stream. */
  lemma LinePrefixesStep(log0: Bytes, pre: Bytes, buf: Bytes, data: Bytes)
    requires NL !in buf
    ensures PrependAll(log0, LinePrefixes(pre + buf)) + PrependAll(log0 + pre, LinePrefixes(buf + data))
            == PrependAll(log0, LinePrefixes(pre + buf + data))
  {
    var x := LinePrefixes(buf + data);
    LinePrefixesAppend(pre, buf);
    NoLinePrefixes(buf);
    assert PrependAll(pre, LinePrefixes(buf)) == [];
    assert LinePrefixes(pre + buf) == LinePrefixes(pre);
    Assoc(pre, buf, data);
    LinePrefixesAppend(pre, buf + data);
    PrependAllConcat(log0, LinePrefixes(pre), PrependAll(pre, x));
    PrependAllTwice(log0, pre, x);
  }

  /** Adding `d` bytes to a count whose residue leaves room for them adds them to the residue. */
  lemma ModStep(t: nat, d: nat)
    requires t % MAX_RECV_BUF_LEN + d <= MAX_RECV_BUF_LEN
    ensures (t + d) % MAX_RECV_BUF_LEN == (t % MAX_RECV_BUF_LEN + d) % MAX_RECV_BUF_LEN
  {
    var q := t / MAX_RECV_BUF_LEN;
    var r := t % MAX_RECV_BUF_LEN;
    assert t == q * MAX_RECV_BUF_LEN + r;
    if r + d == MAX_RECV_BUF_LEN {
      assert t + d == (q + 1) * MAX_RECV_BUF_LEN;
    } else {
      assert t + d == q * MAX_RECV_BUF_LEN + (r + d);
    }
  }

  /** The unterminated tail of the buffer with the new bytes agrees, modulo the capacity,
      with the unterminated tail of the whole stream. */
  lemma TailStep(c: Bytes, buf: Bytes, data: Bytes)
    requires NL !in buf && |buf| == TailLen(c) % MAX_RECV_BUF_LEN
    requires |buf| + |data| <= MAX_RECV_BUF_LEN
    ensures TailLen(buf + data) % MAX_RECV_BUF_LEN == TailLen(c + data) % MAX_RECV_BUF_LEN
  {
    TailLenAppend(c, data);
    TailLenAppend(buf, data);
    assert buf[0..] == buf;
    TailLenAt(buf, 0);
    TailArith(TailLen(c), TailLen(c + data), TailLen(buf + data), |buf|, |data|, NL in data);
  }

  lemma TailArith(tc: nat, tcd: nat, tb: nat, nb: nat, nd: nat, newline: bool)
    requires nb == tc % MAX_RECV_BUF_LEN && nb + nd <= MAX_RECV_BUF_LEN
    requires newline ==> tb == tcd
    requires !newline ==> tb == nb + nd && tcd == tc + nd
    ensures tb % MAX_RECV_BUF_LEN == tcd % MAX_RECV_BUF_LEN
  {
    if !newline {
      ModStep(tc, nd);
    }
  }

  /** Bytes kept at the end of `b` stay at the end of `pre + b`, with what was logged
      before them logged before them there too; flushing them moves them to the log. */
  lemma KeptStep(log0: Bytes, pre: Bytes, b: Bytes, logged: Bytes, kept: Bytes, log: Bytes, buf: Bytes)
    requires |kept| <= |b| && kept == b[|b| - |kept|..]
    requires logged == log0 + pre + b[..|b| - |kept|]
    requires (log == logged + kept && buf == []) || (log == logged && buf == kept)
    ensures Placed(log, buf, log0, pre + b)
  {
    var c := pre + b;
    var k := |b| - |kept|;
    assert c[..|pre| + k] == pre + b[..k];
    assert c[|pre| + k..] == b[k..];
    assert log0 + pre + b[..k] == log0 + (pre + b[..k]);
    if buf == [] && log == logged + kept {
      assert c[..|pre| + k] + c[|pre| + k..] == c;
      Assoc(log0, c[..|pre| + k], c[|pre| + k..]);
      assert c[..|c|] == c && c[|c|..] == [];
    }
  }

  /** A newline-free buffer of at most the capacity, congruent to the tail, is the tail
      modulo the capacity once a full buffer has been emptied. */
  lemma FlushedLength(kept: nat, tail: nat, flushed: nat)
    requires kept <= MAX_RECV_BUF_LEN && kept % MAX_RECV_BUF_LEN == tail % MAX_RECV_BUF_LEN
    requires flushed == if kept >= MAX_RECV_BUF_LEN then 0 else kept
    ensures flushed == tail % MAX_RECV_BUF_LEN
  {
  }

  /** The buffer and log half of `Faithful`, after one drained pass: `log`, `buf` before
      it, `logged`, `kept` after the scan, `log'`, `buf'` after the capacity flush. */
  lemma BufferStep(log: Bytes, buf: Bytes, data: Bytes, log0: Bytes, c: Bytes,
                   logged: Bytes, kept: Bytes, log': Bytes, buf': Bytes)
    requires Placed(log, buf, log0, c) && NL !in buf && |buf| == TailLen(c) % MAX_RECV_BUF_LEN
    requires |buf| + |data| <= MAX_RECV_BUF_LEN
    requires LinesRemoved(buf + data, kept) && Logged(log, buf + data, kept, [], logged)
    requires NL !in kept && |kept| == TailLen(buf + data)
    requires || (|kept| >= MAX_RECV_BUF_LEN && log' == logged + kept && buf' == [])
             || (|kept| < MAX_RECV_BUF_LEN && log' == logged && buf' == kept)
    ensures Placed(log', buf', log0, c + data) && NL !in buf'
    ensures |buf'| == TailLen(c + data) % MAX_RECV_BUF_LEN
  {
    PlacedStep(log, buf, data, log0, c, logged, kept, log', buf');
    TailStep(c, buf, data);
    FlushedLength(|kept|, TailLen(c + data), |buf'|);
  }

  lemma PlacedStep(log: Bytes, buf: Bytes, data: Bytes, log0: Bytes, c: Bytes,
                   logged: Bytes, kept: Bytes, log': Bytes, buf': Bytes)
    requires Placed(log, buf, log0, c)
    requires |kept| <= |buf + data| && kept == (buf + data)[|buf + data| - |kept|..]
    requires logged == log + (buf + data)[..|buf + data| - |kept|] + []
    requires (log' == logged + kept && buf' == []) || (log' == logged && buf' == kept)
    ensures Placed(log', buf', log0, c + data)
  {
    var b := buf + data;
    var pre := c[..|c| - |buf|];
    assert c == pre + buf;
    assert c + data == pre + b;
    KeptStep(log0, pre, b, logged, kept, log', buf');
  }

  /** The replies half of `Faithful`, after one drained pass. */
  lemma RepliesStep(s: Session, data: Bytes, log0: Bytes, c: Bytes, sc: Session)
    requires Buffered(s, log0, c)
    requires Snapshots(s.replies) == PrependAll(log0, LinePrefixes(c))
    requires RepliesPerLine(s.(buf := s.buf + data), sc)
    ensures Snapshots(sc.replies) == PrependAll(log0, LinePrefixes(c + data))
  {
    var pre := c[..|c| - |s.buf|];
    assert c == pre + s.buf;
    assert s.log == log0 + pre;
    LinePrefixesStep(log0, pre, s.buf, data);
    assert c + data == pre + s.buf + data;
  }

  /** One pass of the receive loop keeps the connection faithful to what it received. */
  lemma AbsorbFaithful(s: Session, data: Bytes, log0: Bytes, c: Bytes)
    requires Faithful(s, log0, c)
    requires |s.buf| + |data| <= MAX_RECV_BUF_LEN
    ensures FaithfulEnd(Absorb(s, data), log0, c + data)
  {
    var t := s.(buf := s.buf + data);
    AbsorbDrains(s, data);
    if AllSent(Absorb(s, data).state.replies) {
      var sc := Scan(t).0;
      var r := Absorb(s, data).state;
      ScanDrained(t);
      BufferStep(s.log, s.buf, data, log0, c, sc.log, sc.buf, r.log, r.buf);
      RepliesStep(s, data, log0, c, sc);
      assert r.replies == sc.replies;
      assert Answered(r, log0, c + data);
    }
  }

  /** The receive loop, as long as every send-back succeeds, keeps the connection faithful
      to everything the peer sends before its stream ends. */
  lemma {:induction false} RecvLoopFaithful(s: Session, segs: seq<Bytes>, log0: Bytes, c: Bytes)
    requires Faithful(s, log0, c)
    ensures FaithfulEnd(RecvLoop(s, segs), log0, c + Stream(segs))
    decreases |Stream(segs)|, 1
  {
    var (data, rest) := Recv(segs, MAX_RECV_BUF_LEN - |s.buf|);
    if |data| == 0 {
      assert RecvLoop(s, segs) == Pass(s, false);
      assert c + Stream(segs) == c;
    } else {
      RecvLoopStep(s, segs, log0, c);
    }
  }

  /** A pass of the receive loop that received bytes, then the rest of the loop. */
  lemma {:induction false} RecvLoopStep(s: Session, segs: seq<Bytes>, log0: Bytes, c: Bytes)
    requires Faithful(s, log0, c)
    requires |Recv(segs, MAX_RECV_BUF_LEN - |s.buf|).0| > 0
    ensures FaithfulEnd(RecvLoop(s, segs), log0, c + Stream(segs))
    decreases |Stream(segs)|, 0
  {
    var (data, rest) := Recv(segs, MAX_RECV_BUF_LEN - |s.buf|);
    var p := Absorb(s, data);
    AbsorbFaithful(s, data, log0, c);
    Assoc(c, data, Stream(rest));
    RecvLoopUnfold(s, segs);
    ResumeFaithful(p, rest, log0, c + data, c + Stream(segs));
  }

  /** The rest of the receive loop after a pass that stayed faithful to `c`, when `c'` is
      `c` followed by the rest of the stream. */
  lemma {:induction false} ResumeFaithful(p: Pass, segs: seq<Bytes>, log0: Bytes, c: Bytes, c': Bytes)
    requires !p.hung ==> |p.state.buf| < MAX_RECV_BUF_LEN
    requires FaithfulEnd(p, log0, c) && c' == c + Stream(segs)
    ensures FaithfulEnd(Resume(p, segs), log0, c')
    decreases |Stream(segs)|, 2
  {
    var r := Resume(p, segs);
    if AllSent(r.state.replies) {
      AllSentPrefix(p.state.replies, r.state.replies);
      RecvLoopFaithful(p.state, segs, log0, c);
    }
  }

  /** The replies owed for the stream `st` from the log `log0`: one per line, then one for
      the unterminated bytes unless the capacity flush already logged them all. */
  function Owed(log0: Bytes, st: Bytes): (r: seq<Bytes>)
  {
    PrependAll(log0, LinePrefixes(st)) + (if TailLen(st) % MAX_RECV_BUF_LEN != 0 then [log0 + st] else [])
  }

  /** One connection, when every send-back succeeds: it ends normally, the log gains exactly
      the bytes the peer sent, and the client gets the log back once per newline it sent
      and once more if unterminated bytes were left in the buffer at the end. */
  lemma ConnectionDelivered(log0: Bytes, segs: seq<Bytes>, net: seq<SendReply>)
    ensures var r := HandleConnection(log0, segs, net);
            AllSent(r.replies) ==>
              && r.outcome == Closed
              && r.log == log0 + Stream(segs)
              && Snapshots(r.replies) == Owed(log0, Stream(segs))
  {
    var s0 := Session([], log0, [], net);
    var st := Stream(segs);
    assert Faithful(s0, log0, []) by {
      assert log0 + [][..0] == log0;
    }
    RecvLoopFaithful(s0, segs, log0, []);
    assert [] + st == st;
    FinishDelivered(RecvLoop(s0, segs), log0, st);
  }

  /** The end of a connection that stayed faithful and whose every send-back succeeded. */
  lemma FinishDelivered(p: Pass, log0: Bytes, st: Bytes)
    requires FaithfulEnd(p, log0, st)
    ensures var r := Finish(p);
            AllSent(r.replies) ==>
              && r.outcome == Closed
              && r.log == log0 + st
              && Snapshots(r.replies) == Owed(log0, st)
  {
    var s := p.state;
    var r := Finish(p);
    if AllSent(r.replies) && !p.hung {
      AllSentPrefix(s.replies, r.replies);
      var k := |st| - |s.buf|;
      assert st[..k] + st[k..] == st;
      Assoc(log0, st[..k], st[k..]);
      if |s.buf| > 0 {
        assert r.replies == s.replies + [r.replies[|s.replies|]];
        SnapshotsAppend(s.replies, r.replies[|s.replies|]);
      } else {
        assert Snapshots(r.replies) + [] == Snapshots(r.replies);
      }
    }
  }

  /** How many replies a connection makes when every send-back succeeds: one per newline,
      plus one for unterminated bytes left over at the end. */
  lemma ConnectionReplyCount(log0: Bytes, segs: seq<Bytes>, net: seq<SendReply>)
    ensures var r := HandleConnection(log0, segs, net);
            var st := Stream(segs);
            AllSent(r.replies) ==>
              |r.replies| == NewlineCount(st) + (if TailLen(st) % MAX_RECV_BUF_LEN != 0 then 1 else 0)
  {
    ConnectionDelivered(log0, segs, net);
    LinePrefixesCount(Stream(segs));
  }
}
