/** The transmission helper (`sendall`) and the log read-back (`send_file_back`).

    The socket is abstracted as a script of what successive send() calls
    report. A send either accepts some bytes from the front of what it was
    offered or fails; the transfer that results is described by what reached
    the peer (`wire`), how it ended (`status`) and the part of the script
    still unused (`rest`), which the next send continues from.
 */
module Transmit {
  import opened Bytes

  /** What one send() call reports: it took `count` bytes from the front of the
      request (a count of 0 is the transient "nothing accepted"), or it failed (-1). */
  datatype SendReply = Accepted(count: nat) | Refused

  /** How a transfer ended: every byte went out (return 0), a send failed (return -1),
      or the script ran out while the helper was still retrying. */
  datatype Status = Sent | Failed | Stalled

  datatype Transfer = Transfer(status: Status, wire: Bytes, rest: seq<SendReply>)

  /** `t` with the bytes `p` delivered before it. */
  function After(p: Bytes, t: Transfer): Transfer
  {
    t.(wire := p + t.wire)
  }

  /** The `while (offset < len)` loop of sendall, entered with `offset` bytes already out.
      A send never reports more than it was offered, so an accepted count above the
      remaining length is read as the remaining length. */
  function SendAllFrom(buf: Bytes, offset: nat, net: seq<SendReply>): (t: Transfer)
    requires offset <= |buf|
    ensures t.wire <= buf[offset..]
    ensures t.status == Sent <==> t.wire == buf[offset..]
    ensures offset == |buf| ==> t == Transfer(Sent, [], net)
    decreases |net|
  {
    if offset >= |buf| then Transfer(Sent, [], net)
    else if |net| == 0 then Transfer(Stalled, [], [])
    else
      match net[0]
      case Refused => Transfer(Failed, [], net[1..])
      case Accepted(n) =>
        if n == 0 then SendAllFrom(buf, offset, net[1..])
        else
          var k := Min(n, |buf| - offset);
          var t := SendAllFrom(buf, offset + k, net[1..]);
          assert buf[offset..] == buf[offset..offset + k] + buf[offset + k..];
          After(buf[offset..offset + k], t)
  }

  /** sendall(fd, buf, len): the loop, with the offset it keeps. Returns the status,
      the bytes the peer received and the number of send replies used. */
  method SendAll(buf: Bytes, net: seq<SendReply>) returns (status: Status, wire: Bytes, used: nat)
    ensures used <= |net|
    ensures Transfer(status, wire, net[used..]) == SendAllFrom(buf, 0, net)
    ensures wire <= buf
    ensures status == Sent <==> wire == buf
  {
    assert buf[0..] == buf;
    var offset: nat := 0;
    used := 0;
    while offset < |buf|
      invariant offset <= |buf| && used <= |net|
      invariant SendAllFrom(buf, 0, net) == After(buf[..offset], SendAllFrom(buf, offset, net[used..]))
      decreases |net| - used
    {
      if used == |net| {
        return Stalled, buf[..offset], used;
      }
      match net[used]
      case Refused =>
        SendFails(buf, offset, net[used..]);
        assert net[used..][1..] == net[used + 1..];
        return Failed, buf[..offset], used + 1;
      case Accepted(n) =>
        var k := Min(n, |buf| - offset);
        SendAccepts(buf, offset, net, used, n);
        offset := offset + k;
        used := used + 1;
    }
    return Sent, buf, used;
  }

  /** A refused send ends the transfer with nothing more delivered. */
  lemma SendFails(buf: Bytes, offset: nat, net: seq<SendReply>)
    requires offset < |buf| && |net| > 0 && net[0] == Refused
    ensures SendAllFrom(buf, offset, net) == Transfer(Failed, [], net[1..])
  {
  }

  /** An accepted send moves the offset on by the count, capped at what is left. */
  lemma SendAccepts(buf: Bytes, offset: nat, net: seq<SendReply>, used: nat, n: nat)
    requires offset < |buf| && used < |net| && net[used] == Accepted(n)
    requires SendAllFrom(buf, 0, net) == After(buf[..offset], SendAllFrom(buf, offset, net[used..]))
    ensures var k := Min(n, |buf| - offset);
            SendAllFrom(buf, 0, net) == After(buf[..offset + k], SendAllFrom(buf, offset + k, net[used + 1..]))
  {
    var k := Min(n, |buf| - offset);
    var pending := net[used..];
    assert pending[0] == Accepted(n) && pending[1..] == net[used + 1..];
    var later := SendAllFrom(buf, offset + k, net[used + 1..]);
    if n > 0 {
      assert SendAllFrom(buf, offset, pending) == After(buf[offset..offset + k], later);
      assert buf[..offset + k] == buf[..offset] + buf[offset..offset + k];
      AfterAfter(buf[..offset], buf[offset..offset + k], later);
    } else {
      assert SendAllFrom(buf, offset, pending) == later;
    }
  }

  lemma AfterAfter(p: Bytes, q: Bytes, t: Transfer)
    ensures After(p, After(q, t)) == After(p + q, t)
  {
    assert p + (q + t.wire) == p + q + t.wire;
  }

  /** The chunks the fread loop of send_file_back reads from the start of the log:
      consecutive, at most MAX_RECV_BUF_LEN bytes each, all full but the last. */
  function ReadChunks(log: Bytes): (chunks: seq<Bytes>)
    ensures Flatten(chunks) == log
    ensures forall k :: 0 <= k < |chunks| ==> 0 < |chunks[k]| <= MAX_RECV_BUF_LEN
    ensures forall k :: 0 <= k < |chunks| - 1 ==> |chunks[k]| == MAX_RECV_BUF_LEN
    decreases |log|
  {
    if |log| == 0 then []
    else
      var n := Min(|log|, MAX_RECV_BUF_LEN);
      var rest := ReadChunks(log[n..]);
      assert ([log[..n]] + rest)[1..] == rest;
      assert log == log[..n] + log[n..];
      [log[..n]] + rest
  }

  /** One sendall per chunk, stopping at the first that does not return 0. */
  function SendChunks(chunks: seq<Bytes>, net: seq<SendReply>): (t: Transfer)
    requires forall k :: 0 <= k < |chunks| ==> |chunks[k]| > 0
    ensures t.wire <= Flatten(chunks)
    ensures t.status == Sent <==> t.wire == Flatten(chunks)
    decreases |chunks|
  {
    if |chunks| == 0 then Transfer(Sent, [], net)
    else
      var first := SendAllFrom(chunks[0], 0, net);
      if first.status != Sent then
        assert |first.wire| < |chunks[0]|;
        PrefixOfConcat(first.wire, chunks[0], Flatten(chunks[1..]));
        first
      else
        var t := SendChunks(chunks[1..], first.rest);
        After(first.wire, t)
  }

  /** A proper prefix of `a` is a proper prefix of `a + b`. */
  lemma PrefixOfConcat(p: Bytes, a: Bytes, b: Bytes)
    requires p <= a && |p| < |a|
    ensures p <= a + b && p != a + b
  {
    assert (a + b)[..|p|] == a[..|p|];
  }

  /** The `while (fread(...) > 0)` loop of send_file_back, with the file position at
      `pos`: read up to MAX_RECV_BUF_LEN bytes, sendall them, stop at the first failure. */
  function ReadBack(log: Bytes, pos: nat, net: seq<SendReply>): (t: Transfer)
    requires pos <= |log|
    ensures t.wire <= log[pos..]
    ensures t.status == Sent <==> t.wire == log[pos..]
    decreases |log| - pos
  {
    if pos == |log| then Transfer(Sent, [], net)
    else
      var n := Min(|log| - pos, MAX_RECV_BUF_LEN);
      var chunk := log[pos..pos + n];
      var first := SendAllFrom(chunk, 0, net);
      assert log[pos..] == chunk + log[pos + n..];
      if first.status != Sent then
        assert chunk[0..] == chunk;
        PrefixOfConcat(first.wire, chunk, log[pos + n..]);
        first
      else
        After(first.wire, ReadBack(log, pos + n, first.rest))
  }

  /** The read-back loop is the chunk-at-a-time transfer of the chunks the fread loop
      reads from the same position. */
  lemma {:induction false} ReadBackChunks(log: Bytes, pos: nat, net: seq<SendReply>)
    requires pos <= |log|
    ensures ReadBack(log, pos, net) == SendChunks(ReadChunks(log[pos..]), net)
    decreases |log| - pos
  {
    if pos < |log| {
      var n := Min(|log| - pos, MAX_RECV_BUF_LEN);
      var chunks := ReadChunks(log[pos..]);
      assert log[pos..][..n] == log[pos..pos + n];
      assert log[pos..][n..] == log[pos + n..];
      assert chunks == [log[pos..pos + n]] + ReadChunks(log[pos + n..]);
      assert chunks[0] == log[pos..pos + n] && chunks[1..] == ReadChunks(log[pos + n..]);
      var first := SendAllFrom(log[pos..pos + n], 0, net);
      if first.status == Sent {
        ReadBackChunks(log, pos + n, first.rest);
      }
    }
  }

  /** send_file_back(fp, conn_fd): rewind, then stream the whole log from its first
      byte. The peer receives the entire log exactly when the call returns 0, and
      otherwise only a proper prefix of it. */
  function SendFileBack(log: Bytes, net: seq<SendReply>): (t: Transfer)
    ensures t.wire <= log
    ensures t.status == Sent <==> t.wire == log
  {
    assert log[0..] == log;
    ReadBack(log, 0, net)
  }
}
