/** Three connections worked through byte by byte: an unterminated message, the
    duplicate that follows a failed send-back inside the scan loop, and a failed final
    send-back that stops the accept loop before the next client.
 */
module Scenarios {
  import opened Bytes
  import opened Transmit
  import opened Connection
  import opened Conservation
  import opened Server

  /** "abc", with no newline. */
  const ABC: Bytes := [0x61, 0x62, 0x63]

  /** The peer sends "abc" and closes: the bytes wait in the buffer, nothing is logged yet. */
  lemma AbcReceived()
    ensures RecvLoop(Session([], [], [], [Accepted(3)]), [ABC]) == Pass(Session(ABC, [], [], [Accepted(3)]), false)
  {
    var s0 := Session([], [], [], [Accepted(3)]);
    var s1 := Session(ABC, [], [], [Accepted(3)]);
    assert Recv([ABC], MAX_RECV_BUF_LEN) == (ABC, []);
    assert FindNewline(ABC) == NoNewline;
    assert Scan(s1) == (s1, Drained);
    assert s0.buf + ABC == ABC;
    assert s0.(buf := s0.buf + ABC) == s1;
    assert Absorb(s0, ABC) == Pass(s1, false);
    assert RecvLoop(s1, []) == Pass(s1, false);
  }

  /** A send that takes all three bytes at once delivers the log "abc". */
  lemma AbcSentBack()
    ensures SendFileBack(ABC, [Accepted(3)]) == Transfer(Sent, ABC, [])
  {
    assert ABC[0..] == ABC;
    assert SendAllFrom(ABC, 3, []) == Transfer(Sent, [], []);
    assert ABC[0..3] == ABC;
    assert SendAllFrom(ABC, 0, [Accepted(3)]) == Transfer(Sent, ABC, []);
    assert ReadBack(ABC, 3, []) == Transfer(Sent, [], []);
    assert ReadBack(ABC, 0, [Accepted(3)]) == Transfer(Sent, ABC, []);
  }

  /** The unterminated message is logged by the final flush and followed by one reply
      carrying the whole log. */
  lemma Unterminated()
    ensures HandleConnection([], [ABC], [Accepted(3)]) == ConnResult(ABC, [Reply(ABC, Sent, ABC)], Closed)
  {
    var s1 := Session(ABC, [], [], [Accepted(3)]);
    AbcReceived();
    AbcSentBack();
    var fin := ConnResult(ABC, [Reply(ABC, Sent, ABC)], Closed);
    assert FinalFlush(s1) == fin;
    assert Finish(Pass(s1, false)) == fin;
  }

  /** "a\n", "b\n", and sends that refuse once and then take everything offered. */
  const LA: Bytes := [0x61, 0x0A]
  const LB: Bytes := [0x62, 0x0A]
  const NET: seq<SendReply> := [Refused, Accepted(100), Accepted(100)]

  /** After "a\n": the line is logged, its send-back is refused, the scan breaks. */
  lemma FirstPassBreaks()
    ensures Absorb(Session([], [], [], NET), LA) == Pass(Session(LA, LA, [Reply(LA, Failed, [])], NET[1..]), false)
  {
    var t := Session(LA, [], [], NET);
    var s1 := Session(LA, LA, [Reply(LA, Failed, [])], NET[1..]);
    assert FindNewline(LA) == NewlineAt(1);
    assert LA[..2] == LA && [] + LA == LA;
    assert SendAllFrom(LA, 0, NET) == Transfer(Failed, [], NET[1..]);
    assert ReadBack(LA, 0, NET) == Transfer(Failed, [], NET[1..]);
    assert Advance(t, 1) == s1;
    ScanSome(t, 1);
    RoundStops(t, 1, s1);
    assert Session([], [], [], NET).(buf := [] + LA) == t;
  }

  /** The two later send-backs: all of "a\na\n", then all of "a\na\nb\n". */
  lemma SecondSendBacks()
    ensures SendFileBack(LA + LA, NET[1..]) == Transfer(Sent, LA + LA, NET[2..])
    ensures SendFileBack(LA + LA + LB, NET[2..]) == Transfer(Sent, LA + LA + LB, [])
  {
    var x := LA + LA;
    var y := LA + LA + LB;
    assert x[0..] == x && x[0..4] == x && y[0..] == y && y[0..6] == y;
    assert SendAllFrom(x, 4, NET[2..]) == Transfer(Sent, [], NET[2..]);
    assert SendAllFrom(x, 0, NET[1..]) == Transfer(Sent, x, NET[2..]);
    assert ReadBack(x, 4, NET[2..]) == Transfer(Sent, [], NET[2..]);
    assert SendAllFrom(y, 6, []) == Transfer(Sent, [], []);
    assert SendAllFrom(y, 0, NET[2..]) == Transfer(Sent, y, []);
    assert ReadBack(y, 6, []) == Transfer(Sent, [], []);
  }

  /** After "b\n": the stale "a\n" is still first in the buffer, so it is logged and sent
      back again, then "b\n" is. */
  lemma SecondPassRelogs()
    ensures var r0 := Reply(LA, Failed, []);
            var r1 := Reply(LA + LA, Sent, LA + LA);
            var r2 := Reply(LA + LA + LB, Sent, LA + LA + LB);
            Absorb(Session(LA, LA, [r0], NET[1..]), LB) == Pass(Session([], LA + LA + LB, [r0, r1, r2], []), false)
  {
    var r0 := Reply(LA, Failed, []);
    var r1 := Reply(LA + LA, Sent, LA + LA);
    var r2 := Reply(LA + LA + LB, Sent, LA + LA + LB);
    var t := Session(LA + LB, LA, [r0], NET[1..]);
    var a1 := Session(LA + LB, LA + LA, [r0, r1], NET[2..]);
    var u := Session(LB, LA + LA, [r0, r1], NET[2..]);
    var a2 := Session(LB, LA + LA + LB, [r0, r1, r2], []);
    var v := Session([], LA + LA + LB, [r0, r1, r2], []);
    SecondSendBacks();
    assert FindNewline(LA + LB) == NewlineAt(1);
    assert (LA + LB)[..2] == LA && (LA + LB)[2..] == LB;
    assert Advance(t, 1) == a1;
    ScanSent(t, 1);
    assert FindNewline(LB) == NewlineAt(1);
    assert LB[..2] == LB && LB[2..] == [];
    assert Advance(u, 1) == a2;
    ScanSent(u, 1);
    ScanNone(v);
    assert Scan(t) == (v, Drained);
  }

  /** The receive loop after the first pass: "b\n" arrives, then the peer closes. */
  lemma SecondPassReceived()
    ensures var r0 := Reply(LA, Failed, []);
            var r1 := Reply(LA + LA, Sent, LA + LA);
            var r2 := Reply(LA + LA + LB, Sent, LA + LA + LB);
            RecvLoop(Session(LA, LA, [r0], NET[1..]), [LB]) == Pass(Session([], LA + LA + LB, [r0, r1, r2], []), false)
  {
    var r0 := Reply(LA, Failed, []);
    var r1 := Reply(LA + LA, Sent, LA + LA);
    var r2 := Reply(LA + LA + LB, Sent, LA + LA + LB);
    var v := Session([], LA + LA + LB, [r0, r1, r2], []);
    SecondPassRelogs();
    assert Recv([LB], MAX_RECV_BUF_LEN - 2) == (LB, []);
    assert RecvLoop(v, []) == Pass(v, false);
  }

  /** The line "a\n" the peer sent once ends up in the log twice: the refused send-back
      leaves it in the buffer, and the next scan logs it again before "b\n". */
  lemma DuplicateAfterBreak()
    ensures var r0 := Reply(LA, Failed, []);
            var r1 := Reply(LA + LA, Sent, LA + LA);
            var r2 := Reply(LA + LA + LB, Sent, LA + LA + LB);
            HandleConnection([], [LA, LB], NET) == ConnResult(LA + LA + LB, [r0, r1, r2], Closed)
  {
    var r0 := Reply(LA, Failed, []);
    var r1 := Reply(LA + LA, Sent, LA + LA);
    var r2 := Reply(LA + LA + LB, Sent, LA + LA + LB);
    var s1 := Session(LA, LA, [r0], NET[1..]);
    var v := Session([], LA + LA + LB, [r0, r1, r2], []);
    FirstPassBreaks();
    SecondPassReceived();
    assert Recv([LA, LB], MAX_RECV_BUF_LEN) == (LA, [LB]);
    assert RecvLoop(Session([], [], [], NET), [LA, LB]) == Pass(v, false);
    assert Finish(Pass(v, false)) == ConnResult(v.log, v.replies, Closed);
  }

  /** "x", with no newline. */
  const LX: Bytes := [0x78]

  /** The first client sends "x" and closes: the byte waits in the buffer. */
  lemma StopReceived()
    ensures RecvLoop(Session([], [], [], [Refused]), [LX]) == Pass(Session(LX, [], [], [Refused]), false)
  {
    var s0 := Session([], [], [], [Refused]);
    var s1 := Session(LX, [], [], [Refused]);
    assert Recv([LX], MAX_RECV_BUF_LEN) == (LX, []);
    assert FindNewline(LX) == NoNewline;
    assert Scan(s1) == (s1, Drained);
    assert s0.(buf := s0.buf + LX) == s1;
    assert Absorb(s0, LX) == Pass(s1, false);
    assert RecvLoop(s1, []) == Pass(s1, false);
  }

  /** The `break` of the final flush: the first client's unterminated "x" is logged, its send-back
      is refused, and the second client is never served. */
  lemma StopBeforeSecondClient()
    ensures Serve([Client([LX], [Refused]), Client([LA], [Accepted(2)])])
            == [ConnResult(LX, [Reply(LX, Failed, [])], StopServer)]
  {
    var s1 := Session(LX, [], [], [Refused]);
    var c := ConnResult(LX, [Reply(LX, Failed, [])], StopServer);
    StopReceived();
    assert LX[0..] == LX && [] + LX == LX;
    assert SendAllFrom(LX, 0, [Refused]) == Transfer(Failed, [], []);
    assert ReadBack(LX, 0, [Refused]) == Transfer(Failed, [], []);
    assert FinalFlush(s1) == c;
    assert HandleConnection([], [LX], [Refused]) == c;
  }
}
