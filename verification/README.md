# aesdsocket: line framing, log append and send-back, in Dafny

aesdsocket is a TCP server that appends every newline-terminated message it
receives to a log file. After each appended line it streams the whole log back
to the client. This project models its core in Dafny and proves properties of
that model. The core is:

- the per-connection receive loop. Bytes go into a buffer of `MAX_RECV_BUF_LEN` =
  4096 bytes. The `memchr` scan logs each complete line and sends the log back. A
  buffer that fills up without a newline is flushed to the log. Leftover bytes go
  to the log when the peer closes, followed by one last send-back;
- `send_file_back`, which rewinds the log and streams it in `fread` chunks of at
  most 4096 bytes;
- `sendall`, which retries partial `send`s until every byte is out or a send fails;
- around them, the accept loop. It serves one client after another on the same
  log, which is unlinked at startup.

Everything is pure functions over byte sequences (`seq<bv8>`), except `sendall`,
which is a method with a loop:

- The log file is its contents. Opening it in append mode, `fflush`, `fsync`,
  `rewind` and `fseek` are implicit.
- The peer is a sequence of segments. One `recv` asked for `room` bytes returns up
  to `room` bytes from the first segment. An empty segment, or the end of the
  sequence, is `recv` returning 0.
- The sends are a script of replies: `Accepted(n)` or `Refused` (-1). When the
  script runs out while `sendall` is still retrying, the transfer is `Stalled`.
  That is how a `sendall` that never returns is represented.

Modules:

- `Bytes`: the byte type, `memchr` (`FindNewline`), the unterminated tail of a
  stream (`TailLen`) and its newline-terminated prefixes (`LinePrefixes`).
- `Transmit`: `sendall` and `send_file_back`.
- `Connection`: the scan loop, the capacity flush, the receive loop and the final
  flush. It also proves integrity facts that hold whatever the peer and the
  sends do.
- `Conservation`: what a connection does when every send-back succeeds.
- `Server`: the accept loop.
- `Scenarios`: three concrete connections worked through byte by byte.

Two control-flow quirks of the code are modelled as written:

- **The `break` at line 167 leaves only the scan loop.** After a failed send-back,
  the line that was just logged stays at the front of the buffer, and receiving
  continues. However the connection goes on, the line is logged a second time
  (`BreakRelogsLine`, `DuplicateAfterBreak`).
- **The `break` at line 183 sits in the accept loop.** A failed final send-back
  therefore stops the server, and no later client is served (`Continue`,
  `StopBeforeSecondClient`).

So a failed send-back never just ends the connection it belongs to. Inside the
scan loop it keeps the same connection receiving. At the final flush it ends the
accept loop.

## Model

| member | source | states |
|---|---|---|
| Bytes.FindNewline | server/aesdsocket.c:162 | `memchr` finds nothing exactly when the buffer holds no newline. Otherwise it finds the position of a newline with none before it. |
| Bytes.LinePrefixesCount | server/aesdsocket.c:162-165 | A stream has as many newline-terminated prefixes as it has newlines, so it is owed one send-back per newline. |
| Bytes.LinePrefixesExactly | server/aesdsocket.c:162-165 | The line prefixes of a stream are exactly its prefixes that end in a newline, listed shortest first. This is an independent description of the snapshots the scan loop sends. |
| Transmit.SendAllFrom | server/aesdsocket.c:37-46 | From any offset, the peer receives a prefix of the rest of the buffer. The loop returns 0 exactly when it received all of it. With nothing left to send, no send is made. |
| Transmit.SendAll | server/aesdsocket.c:37-46 | The loop with its offset agrees with `SendAllFrom` and uses up part of the send script. The bytes out are a prefix of the buffer, and the status is `Sent` exactly when all of it went out. |
| Transmit.SendFails | server/aesdsocket.c:41 | A negative send result returns -1 at once, with nothing more delivered. |
| Transmit.SendAccepts | server/aesdsocket.c:40-43 | A send that accepts `n` bytes moves the offset on by `n`, capped at what is left, so a zero count leaves it unchanged. Everything before the new offset has reached the peer in order. |
| Transmit.ReadChunks | server/aesdsocket.c:55 | The chunks `fread` returns concatenate to the whole log. Each holds 1 to 4096 bytes, and all but the last hold 4096. |
| Transmit.SendChunks | server/aesdsocket.c:55-60 | Sending the chunks one `sendall` at a time, stopping at the first failure, delivers a prefix of their concatenation. It delivers all of it exactly when it returns 0. |
| Transmit.ReadBack | server/aesdsocket.c:55-60 | The `fread` loop from file position `pos` delivers a prefix of the log from `pos`, and all of it exactly when every `sendall` succeeds. |
| Transmit.ReadBackChunks | server/aesdsocket.c:55-60 | The `fread` loop is the chunk-at-a-time transfer of the chunks `fread` reads. |
| Transmit.SendFileBack | server/aesdsocket.c:48-62 | The client receives a prefix of the whole log. It receives the entire log exactly when the call returns 0. |
| Connection.Recv | server/aesdsocket.c:158 | `recv` returns at most the room asked for. What it returns, followed by what stays queued, is the peer's remaining stream. It returns 0 bytes exactly when that stream has ended. |
| Connection.SendBack | server/aesdsocket.c:165 | A send-back leaves the buffer and the log unchanged and adds exactly one reply. That reply's snapshot is the current log, and its delivery is honest: a prefix of the snapshot, and all of it exactly when the call returned 0. |
| Connection.Advance | server/aesdsocket.c:162-165 | One round appends the buffer up to and including the newline at `i` to the log, then adds one honest reply whose snapshot is the new log. |
| Connection.ScanSent | server/aesdsocket.c:162-171 | After a successful send-back, the scan continues on the buffer with the logged line removed (the compaction of lines 169-171). |
| Connection.RoundStops | server/aesdsocket.c:165-168 | After a failed send-back, the scan stops with the state as it was. It ends with `Broke` for a failed call and `Stuck` for a `sendall` that never returned, and never with `Drained`. |
| Connection.ScanKeepsSuffix | server/aesdsocket.c:162-172 | The scan loop keeps a suffix of the buffer. Whatever it removed from the front ends with a newline. |
| Connection.ScanExtends | server/aesdsocket.c:162-172 | The scan loop only adds replies after the existing ones. |
| Connection.ScanDrainsIffSent | server/aesdsocket.c:162-172 | The scan loop ends with no newline left exactly when every send-back it made succeeded. |
| Connection.ScanDrainedLog | server/aesdsocket.c:162-172 | A scan that drains leaves no newline in the buffer. It appended to the log exactly the bytes it removed from the buffer, once each, in order. |
| Connection.ScanBreakKeepsLine | server/aesdsocket.c:165-168 | After the `break`, the line last appended to the log is still at the front of the buffer. Before it, the log gained exactly what left the buffer. |
| Connection.ScanReplies | server/aesdsocket.c:162-172 | A scan that drains adds one reply per newline in the buffer. The k-th carries the log as it stood once the k-th line was appended. |
| Connection.ScanAppendsOnly | server/aesdsocket.c:162-172 | The scan loop only appends to the log. Every send-back stays honest, and each snapshot is a prefix of the next one and of the log. |
| Connection.BreakRelogsLine | server/aesdsocket.c:158-186 | After the `break` of line 167, the log ends with the line just logged. However the connection goes on, the same line is appended again right behind it. This holds whatever the peer sends next, including nothing. It holds whether the line is re-logged by the next scan, by the capacity flush of a full buffer (lines 173-176) or by the final flush (line 180). It holds even when a later send-back never returns. |
| Connection.CapacityFlush | server/aesdsocket.c:173-177 | A buffer of 4096 bytes goes to the log whole and the buffer empties, with no send-back. A smaller buffer is left alone. In both cases log followed by buffer is unchanged, and the next `recv` has room. |
| Connection.Absorb | server/aesdsocket.c:159-177 | Unless a send-back never returned, one pass leaves the buffer below capacity. It only adds replies. |
| Connection.Resume | server/aesdsocket.c:158-178 | After a pass, the loop goes back to `recv` unless a send-back never returned. In that case nothing further happens. It only adds replies, and it leaves room in the buffer unless it blocked. |
| Connection.RecvLoop | server/aesdsocket.c:158-178 | Starting with room in the buffer, the loop ends with the buffer below capacity unless a send-back never returned, so every `recv` has room. It only adds replies. |
| Connection.FinalFlush | server/aesdsocket.c:179-186 | Leftover bytes are appended to the log and followed by exactly one send-back carrying the whole log. With no leftover there is no send-back. The connection closes normally exactly when that send-back succeeds. It ends with the `break` of line 183 exactly when the call failed. |
| Connection.AbsorbIntegrity | server/aesdsocket.c:159-177 | One pass only appends to the log and keeps the send-backs' integrity. |
| Connection.RecvLoopIntegrity | server/aesdsocket.c:158-178 | The receive loop only appends to the log and keeps the send-backs' integrity. |
| Connection.FinishIntegrity | server/aesdsocket.c:179-186 | The end of a connection only appends to the log and keeps the send-backs' integrity. |
| Connection.ConnectionIntegrity | server/aesdsocket.c:156-186 | Whatever the peer and the sends do, a connection only appends to the log it started from. Every send-back is honest, and each snapshot is a prefix of the next and of the final log. |
| Conservation.AbsorbDrains | server/aesdsocket.c:159-177 | If every send-back of a pass succeeded, its scan drained the buffer, the pass did not block, and the result is the capacity flush of the scan. |
| Conservation.AbsorbFaithful | server/aesdsocket.c:159-177 | If every send-back succeeds, one pass keeps the connection faithful to the bytes received. The log holds the stream up to the last newline or flush, and the buffer holds the rest: no newline, and the unterminated tail modulo 4096 bytes. There is one reply per newline, carrying the log up to it. |
| Conservation.RecvLoopFaithful | server/aesdsocket.c:158-178 | If every send-back succeeds, the receive loop does not block and stays faithful to everything the peer sent. |
| Conservation.FinishDelivered | server/aesdsocket.c:179-186 | A faithful connection whose final send-back succeeds closes normally. Its log is the starting log followed by the whole stream, and it has made every reply it owed. |
| Conservation.ConnectionDelivered | server/aesdsocket.c:156-186 | If every send-back succeeds, the connection closes normally and the log gains exactly the bytes the peer sent, in order. The client gets the log back once per newline, carrying the log up to that newline. It gets it once more, with the whole log, if unterminated bytes were left in the buffer. |
| Conservation.ConnectionReplyCount | server/aesdsocket.c:162-181 | If every send-back succeeds, there are as many replies as newlines received, plus one if unterminated bytes were left over at the end. |
| Server.AcceptLoop | server/aesdsocket.c:136-193 | The loop serves at most the clients there are. Every connection but the last closed normally, and a loop that stops before the clients run out stopped on a connection that did not. |
| Server.Continue | server/aesdsocket.c:179-193 | After a connection, a normal close moves on to the next client. A StopServer (the `break` of line 183) or a blocked send-back ends the loop with that connection. |
| Server.Serve | server/aesdsocket.c:71-193 | The log is unlinked before the loop, so the first client is handled from an empty log. |
| Server.AcceptLoopIntegrity | server/aesdsocket.c:136-193 | Across connections the log only grows, and every connection keeps the send-backs' integrity. |
| Server.AcceptLoopDelivered | server/aesdsocket.c:136-193 | If every send-back of every connection succeeds, every client is served, and the log is the starting log followed by all the clients' streams in order. Each client gets back the log through each of its lines, starting with everything the earlier clients sent. |
| Server.ServeDelivered | server/aesdsocket.c:71-193 | If every send-back succeeds, the final log is exactly everything every client sent, in order. |
| Server.StopServerOnlyAtFinalFlush | server/aesdsocket.c:179-186 | A connection ends in StopServer only when its last send-back failed, and that send-back's snapshot was the whole log. |
| Scenarios.Unterminated | server/aesdsocket.c:179-186 | A client sends "abc" and closes. The final flush logs "abc" and makes one reply carrying it. |
| Scenarios.DuplicateAfterBreak | server/aesdsocket.c:162-172 | A client sends "a\n" and "b\n", and the first send-back is refused. The log becomes "a\na\nb\n": the line sent once is logged twice. |
| Scenarios.StopBeforeSecondClient | server/aesdsocket.c:179-186 | The first client's final send-back is refused, so the server stops and the second client is never served. |

## Left out

- **Socket setup, daemonisation, signals and syslog** (lines 64-128 and 17-35) are left out. This covers `socket`, `bind`, `listen`, `fork`, `setsid` and `dup2`, and the `exit_flag`/`shutdown` signal path with its `accept` retry. They are OS plumbing or asynchronous signal delivery. The accept loop runs until its clients run out instead of until `exit_flag` is set.
- **Failing `accept` and `fopen`** (lines 138-142 and 150-154) are not modelled. Both only skip a client without touching the log.
- **The final `unlink`** (line 197) is not modelled. The server's log is the file's contents just before it.
- **`recv` returning -1** is the same as the peer closing. The loop treats both alike, and `perror` is output only.
- **Byte-level file effects** (`fflush`, `fsync`, `rewind`, `fseek`) are left implicit. `fread` on the log is taken to return `min(remaining, 4096)` bytes, which is what a regular file gives.
- **A `sendall` that never returns** (line 42, `send` returning 0 forever, or blocking) is represented by the send script running out. That is a fuel bound: the model cannot tell an endless retry from one that would eventually succeed.
- Transmit.SendAllFrom: a `send` that reports more bytes than were offered is read as the remaining length. A stream socket never does this, and C would over-advance the offset.
- Transmit.SendChunks: requires non-empty chunks. `fread` returning 0 ends the loop instead of producing a chunk.
- Conservation.ConnectionDelivered: the exact log and reply contents are proved only when every send-back succeeds. With failures the model proves only the integrity properties (`Connection.ConnectionIntegrity`) and the duplicate after line 167 (`Connection.BreakRelogsLine`). It does not give a closed form of the log.
- **Every `fwrite` (lines 164, 174 and 180) is taken to append all of its bytes.** The return value is ignored in the code, so a short write there would silently lose log bytes. Log conservation (`Conservation.ConnectionDelivered`) rests on this assumption.
- **A failed `send_file_back` is followed by a plain append.** It returns at line 57 before the `fseek` of line 60, so the next `fwrite` follows an `fread` with no positioning call in between. C leaves that undefined. The model takes it as an append at the end of the file, which is what append mode ("a+") does.
- **`int`/`size_t` widths** are not modelled. `total_received` stays within 0..4096 and every length is below `len`, so no arithmetic in the core overflows.
- **`examples/threading/threading.c` and `finder-app/writer.c`** are not part of this model. The first is pthread code; the second is a command-line file writer.
