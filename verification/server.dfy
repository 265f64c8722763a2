/** The accept loop of aesdsocket: one connection after another, all appending to
    the same log file, which is removed when the server starts.

    Each client is what it sends and what the sends to it report. Accepting,
    opening the log file, the syslog messages and the signal flag are left out;
    the loop ends when the clients run out, at the `break` of the final flush (a failed
    send-back after the peer closed) or at a send-back that never returns.
 */
module Server {
  import opened Bytes
  import opened Transmit
  import opened Connection
  import opened Conservation

  datatype Client = Client(segs: seq<Bytes>, net: seq<SendReply>)

  /** The `while (!exit_flag)` loop from the log `log`: every connection starts from the
      log the previous one left. */
  function AcceptLoop(log: Bytes, clients: seq<Client>): (r: seq<ConnResult>)
    ensures |r| <= |clients|
    ensures forall k :: 0 <= k < |r| - 1 ==> r[k].outcome == Closed
    ensures |r| < |clients| ==> |r| > 0 && r[|r| - 1].outcome != Closed
    decreases |clients|, 1
  {
    if |clients| == 0 then []
    else Continue(clients, HandleConnection(log, clients[0].segs, clients[0].net))
  }

  /** After the first client's connection ended with `c`: a normal close moves on to the
      next client, anything else ends the loop. */
  function Continue(clients: seq<Client>, c: ConnResult): (r: seq<ConnResult>)
    requires |clients| > 0
    ensures 0 < |r| <= |clients| && r[0] == c
    ensures forall k :: 0 <= k < |r| - 1 ==> r[k].outcome == Closed
    ensures |r| < |clients| ==> r[|r| - 1].outcome != Closed
    decreases |clients|, 0
  {
    if c.outcome != Closed then [c]
    else [c] + AcceptLoop(c.log, clients[1..])
  }

  lemma AcceptUnfold(log: Bytes, clients: seq<Client>)
    requires |clients| > 0
    ensures AcceptLoop(log, clients) == Continue(clients, HandleConnection(log, clients[0].segs, clients[0].net))
  {
  }

  /** The server: the log file is unlinked at startup, so the first connection finds it empty. */
  function Serve(clients: seq<Client>): (r: seq<ConnResult>)
    ensures |r| <= |clients|
    ensures |clients| > 0 ==> |r| > 0 && r[0] == HandleConnection([], clients[0].segs, clients[0].net)
  {
    AcceptLoop([], clients)
  }

  /** The log after the connections `r` that started from `log`. */
  function FinalLog(log: Bytes, r: seq<ConnResult>): Bytes
  {
    if |r| == 0 then log else r[|r| - 1].log
  }

  /** Everything the clients send, one client after the other. */
  function Streams(clients: seq<Client>): Bytes
    decreases |clients|
  {
    if |clients| == 0 then [] else Stream(clients[0].segs) + Streams(clients[1..])
  }

  predicate EverySent(r: seq<ConnResult>)
  {
    forall k :: 0 <= k < |r| ==> AllSent(r[k].replies)
  }

  /** The accept loop only appends to the log, and within every connection each send-back
      is honest and streamed a prefix of the next one's log. */
  ghost predicate Intact(log: Bytes, r: seq<ConnResult>)
  {
    && log <= FinalLog(log, r)
    && forall k :: 0 <= k < |r| ==> Integrity(r[k].replies, r[k].log)
  }

  lemma {:induction false} AcceptLoopIntegrity(log: Bytes, clients: seq<Client>)
    ensures Intact(log, AcceptLoop(log, clients))
    decreases |clients|, 1
  {
    if |clients| > 0 {
      var c := HandleConnection(log, clients[0].segs, clients[0].net);
      ConnectionIntegrity(log, clients[0].segs, clients[0].net);
      AcceptUnfold(log, clients);
      ContinueIntegrity(log, clients, c);
    }
  }

  lemma {:induction false} ContinueIntegrity(log: Bytes, clients: seq<Client>, c: ConnResult)
    requires |clients| > 0 && log <= c.log && Integrity(c.replies, c.log)
    ensures Intact(log, Continue(clients, c))
    decreases |clients|, 0
  {
    if c.outcome == Closed {
      var rest := AcceptLoop(c.log, clients[1..]);
      AcceptLoopIntegrity(c.log, clients[1..]);
      assert Continue(clients, c) == [c] + rest;
      IntactStep(log, c, rest);
    }
  }

  lemma IntactStep(log: Bytes, c: ConnResult, rest: seq<ConnResult>)
    requires log <= c.log && Integrity(c.replies, c.log) && Intact(c.log, rest)
    ensures Intact(log, [c] + rest)
  {
    var r := [c] + rest;
    PrefixTrans(log, c.log, FinalLog(c.log, rest));
    assert FinalLog(log, r) == FinalLog(c.log, rest);
    assert forall k :: 0 < k < |r| ==> r[k] == rest[k - 1];
  }

  /** When every send-back of every connection succeeded: every client was served, the log
      holds everything the clients sent, in the order they were served, and each client got
      back the log as it stood at each of its lines, from the bytes of all clients before it on. */
  ghost predicate Delivered(log: Bytes, clients: seq<Client>, r: seq<ConnResult>)
  {
    EverySent(r) ==>
      && |r| == |clients|
      && FinalLog(log, r) == log + Streams(clients)
      && forall k :: 0 <= k < |r| ==>
           Snapshots(r[k].replies) == Owed(log + Streams(clients[..k]), Stream(clients[k].segs))
  }

  lemma {:induction false} AcceptLoopDelivered(log: Bytes, clients: seq<Client>)
    ensures Delivered(log, clients, AcceptLoop(log, clients))
    decreases |clients|, 1
  {
    if |clients| == 0 {
      assert log + [] == log;
    } else {
      var c := HandleConnection(log, clients[0].segs, clients[0].net);
      ConnectionDelivered(log, clients[0].segs, clients[0].net);
      AcceptUnfold(log, clients);
      ContinueDelivered(log, clients, c);
    }
  }

  lemma {:induction false} ContinueDelivered(log: Bytes, clients: seq<Client>, c: ConnResult)
    requires |clients| > 0
    requires AllSent(c.replies) ==>
               && c.outcome == Closed
               && c.log == log + Stream(clients[0].segs)
               && Snapshots(c.replies) == Owed(log, Stream(clients[0].segs))
    ensures Delivered(log, clients, Continue(clients, c))
    decreases |clients|, 0
  {
    if c.outcome == Closed {
      var rest := AcceptLoop(c.log, clients[1..]);
      AcceptLoopDelivered(c.log, clients[1..]);
      assert Continue(clients, c) == [c] + rest;
      DeliveredStep(log, clients, c, rest);
    } else {
      assert Continue(clients, c) == [c];
      assert !EverySent([c]) by {
        assert [c][0] == c;
      }
    }
  }

  /** The step of `AcceptLoopDelivered`: a first connection that delivered its client's
      stream, followed by connections that delivered the rest. */
  lemma DeliveredStep(log: Bytes, clients: seq<Client>, c: ConnResult, rest: seq<ConnResult>)
    requires |clients| > 0
    requires AllSent(c.replies) ==>
               && c.log == log + Stream(clients[0].segs)
               && Snapshots(c.replies) == Owed(log, Stream(clients[0].segs))
    requires Delivered(c.log, clients[1..], rest)
    ensures Delivered(log, clients, [c] + rest)
  {
    var r := [c] + rest;
    if EverySent(r) {
      assert r[0] == c;
      assert forall k :: 0 < k < |r| ==> r[k] == rest[k - 1];
      forall k | 0 <= k < |rest|
        ensures AllSent(rest[k].replies)
      {
        assert rest[k] == r[k + 1];
      }
      var st := Stream(clients[0].segs);
      Assoc(log, st, Streams(clients[1..]));
      assert FinalLog(log, r) == FinalLog(c.log, rest);
      forall k | 0 <= k < |r|
        ensures Snapshots(r[k].replies) == Owed(log + Streams(clients[..k]), Stream(clients[k].segs))
      {
        if k == 0 {
          assert clients[..0] == [];
          assert log + [] == log;
        } else {
          StreamsFront(clients, k);
          assert clients[k] == clients[1..][k - 1];
          Assoc(log, st, Streams(clients[1..][..k - 1]));
        }
      }
    }
  }

  /** The streams of the first `k` clients are the first client's, then the next `k - 1`. */
  lemma StreamsFront(clients: seq<Client>, k: nat)
    requires 0 < k <= |clients|
    ensures Streams(clients[..k]) == Stream(clients[0].segs) + Streams(clients[1..][..k - 1])
  {
    assert clients[..k][1..] == clients[1..][..k - 1];
  }

  /** When every send-back succeeds, the server's log ends up holding everything every
      client sent, in order. */
  lemma ServeDelivered(clients: seq<Client>)
    ensures var r := Serve(clients);
            EverySent(r) ==> |r| == |clients| && FinalLog([], r) == Streams(clients)
  {
    AcceptLoopDelivered([], clients);
    assert [] + Streams(clients) == Streams(clients);
  }

  /** The `break` of the final flush: a connection ends in StopServer only when its last send-back,
      made after the peer had finished, failed; no client after it is served. */
  lemma StopServerOnlyAtFinalFlush(log: Bytes, segs: seq<Bytes>, net: seq<SendReply>)
    ensures var c := HandleConnection(log, segs, net);
            c.outcome == StopServer ==>
              |c.replies| > 0 && c.replies[|c.replies| - 1].status == Failed &&
              c.replies[|c.replies| - 1].snapshot == c.log
  {
    var p := RecvLoop(Session([], log, [], net), segs);
    if !p.hung && |p.state.buf| == 0 {
      assert Finish(p).outcome == Closed;
    }
  }
}
