# Cloak multiplexer: sessions, streams and the ordered receive buffer

Cloak carries many logical streams over a few physical connections. It does
this with a `Session` in `internal/multiplex`. Every piece of stream data
travels as a `Frame`. A frame holds a stream id, a per-stream sequence number,
a closing flag (0 for data, 1 for a graceful close, 2 for a reset) and a
payload.

- **Sending.** A stream cuts each write into data frames. Each frame gets the
  stream's next sequence number. A close sends one more frame with the next
  number after that.
- **Receiving.** The session routes each inbound frame to the stream with its
  id. The first frame for an unseen id, of any kind, creates that stream and
  queues it for `Accept`; frames for a removed id are dropped. In ordered
  mode, the stream holds frames by sequence number. It releases payloads to
  `Read` only while they are contiguous, and stops at a gap or at the closing
  frame.
- **Reading.** `Read` returns buffered bytes even after the stream or the
  session has closed. Once a closed stream is drained, `Read` fails with
  `ErrBrokenStream`.

The project has four modules:

- `Frames` (`frames.dfy`) defines:
  - the frame and its closing flags;
  - how a write is cut into frames (`Chunks`, `DataFrames`, the loop in
    `Packetize`);
  - which bytes a run of frames carries (`DataBytes`).
- `Reorder` (`reorder.dfy`) is the ordered receive buffer, as values:
  - `Buffered` ties the held frames, the next expected number and the bytes
    released so far to the history of frames received;
  - `Settled` says nothing more can be released;
  - `Drain` is the release loop.

  The lemmas prove that arrival order does not matter and that data is
  released in sequence order. They also prove that a closing frame is reached
  only after every byte written before it.
- `Multiplex` (`multiplex.dfy`) holds the classes `Stream` and `Session`.
  Their methods update the stream table, the accept queue, the closed flags,
  the send counters and the receive buffers in place. The session invariant
  says the table holds exactly the open streams of the session, each under
  its own id, so no live stream is ever evicted and a session close reaches
  every open stream. Frames sent to the physical connections are appended to
  the session's `sent` log. Inbound frames are handed to `Session.Deliver`
  already decoded.
- `Scenarios` (`scenarios.dfy`) holds the stream tests as methods. Each one
  runs on fresh sessions, for every frame size. Its contract states what the
  test checks. For the write tests, one session's `sent` frames are delivered
  to a second session in order.

## Model

| member | source | states |
|---|---|---|
| Frames.ChunksSpec | internal/multiplex/stream_test.go:111-115 | The pieces a write is cut into are non-empty and at most the frame size, and together they are the written data; only empty data gives no frames |
| Frames.DataFramesShape | internal/multiplex/stream_test.go:124-125 | Data frame `i` of a write carries chunk `i` under sequence number `first + i` |
| Frames.DataBytesOfDataFrames | internal/multiplex/stream_test.go:139-145 | The data frames made from the chunks carry exactly the chunks' bytes |
| Frames.Packetize | internal/multiplex/stream_test.go:115 | The frames a write produces are the data frames of its chunks, numbered from the stream's next sequence number |
| Reorder.Drain | internal/multiplex/stream_test.go:51-101 | Releasing contiguous data frames leaves a settled buffer that is still consistent with the frames received; the output and the next number only grow |
| Reorder.SettledStateUnique | internal/multiplex/stream_test.go:51-101 | Two settled buffers over the same received frames are equal, so arrival order does not matter |
| Reorder.InOrderDelivery | internal/multiplex/stream_test.go:90-101 | Once data frames 0..n-1 have arrived in any order, the bytes released begin with their payloads in sequence order |
| Reorder.CompleteDelivery | internal/multiplex/stream_test.go:237-262 | When exactly the data frames 0..n-1 have arrived, all were released in order and nothing is held |
| Reorder.InOrderArrival | internal/multiplex/stream_test.go:51-101 | The data frame with the next expected number, arriving at an empty buffer, is released at once and adds its payload |
| Reorder.CloseAfterData | internal/multiplex/stream_test.go:124-149 | When a whole run of data frames plus a closing frame has arrived, all data was released and the buffer stops at the closing frame |
| Reorder.ClosingArrives | internal/multiplex/stream_test.go:140-145 | A closing frame that follows exactly the data frames below it ends the stream and releases nothing more |
| Reorder.SingleFrame | internal/multiplex/stream_test.go:177-182 | A single frame: data frame 0 is released, closing frame 0 ends the stream at once, and any later frame is held with nothing released |
| Multiplex.Stream.RecvFrame | internal/multiplex/stream_test.go:51-101 | An inbound frame: a reset empties and closes the buffer; a stale or duplicate frame changes nothing; any other frame joins the received frames, the buffer only gains bytes, and the stream is closed exactly when its closing frame is reached in order |
| Multiplex.Stream.Read | internal/multiplex/stream_test.go:248-261 | An empty buffer reads 0 bytes with no error; buffered bytes are copied up to the buffer length and removed, whether or not the stream is closed; a drained closed stream fails with ErrBrokenStream |
| Multiplex.Stream.Write | internal/multiplex/stream_test.go:115-121 | An open stream sends all the data as data frames numbered from its next sequence number and reports the full length; a closed stream or session fails with ErrBrokenStream and sends nothing |
| Multiplex.Stream.Close | internal/multiplex/stream_test.go:195-204 | Closing sends one closing frame numbered after every earlier frame, marks the stream closed and removes its id from the session's table; a second close does nothing |
| Multiplex.Session.constructor | internal/multiplex/stream_test.go:17-26 | A new session has no streams, an empty accept queue, is open and has sent nothing |
| Multiplex.Session.OpenStream | internal/multiplex/stream_test.go:114 | A new stream under the next id (wrapping at 2^32) enters the table; a closed session fails with ErrSessionClosed; an id still held by a live stream fails with ErrStreamIDInUse and the table is unchanged |
| Multiplex.Session.Accept | internal/multiplex/stream_test.go:190-194 | Returns the oldest queued remote stream and dequeues it; fails on a closed session; waits when none is queued |
| Multiplex.Session.Deliver | internal/multiplex/stream_test.go:237-247 | A frame for a tabled stream goes into its buffer, and an ending frame removes it from the table; the first frame of any kind for a new id creates and queues a stream holding that frame, tabled unless the frame ended it; frames for removed ids or a closed session are dropped; only the frame's own stream can change |
| Multiplex.Session.Close | internal/multiplex/stream_test.go:301-325 | Every stream of the session is marked closed with its buffer kept; the table and accept queue are emptied and the tabled ids retired |
| Multiplex.PeerReceivesAll | internal/multiplex/stream_test.go:124-149 | Once every frame a closed stream sent has reached the receiving stream, the receiver is closed and has returned or buffered exactly the bytes written |
| Multiplex.CloseFollowsWrites | internal/multiplex/stream_test.go:125 | A stream's closing frame has a higher sequence number than every data frame it sent |
| Scenarios.AcceptFromPeer | internal/multiplex/stream_test.go:237-247 | A data frame for an unseen id creates a stream that Accept returns, as the only stream of the session, with the payload ready to read |
| Scenarios.PlainRead | internal/multiplex/stream_test.go:237-262 | A read into a 10-byte buffer on the accepted stream returns exactly the 3 delivered bytes and no error |
| Scenarios.NilBufRead | internal/multiplex/stream_test.go:263-275 | A read with an empty buffer on an accepted stream holding data returns 0 and no error |
| Scenarios.CloseThenReadResidual | internal/multiplex/stream_test.go:171-214 | After Close the id is absent from the table, and a full read returns the residual 3 bytes |
| Scenarios.ReadAfterStreamClose | internal/multiplex/stream_test.go:276-300 | After stream close, the first read returns the 3 bytes and the second fails with ErrBrokenStream |
| Scenarios.ReadAfterSessionClose | internal/multiplex/stream_test.go:301-325 | After session close, the first read returns the 3 bytes and the second fails with ErrBrokenStream |
| Scenarios.CloseOvertakesData | internal/multiplex/stream_test.go:124-149 | A closing frame that overtakes the data frame before it opens the stream, which is accepted; once the data frame arrives the payload is read in full and the next read fails with ErrBrokenStream |
| Scenarios.OvertakenClose | internal/multiplex/stream_test.go:124-149 | A data frame 0 and the closing frame 1 that overtook it leave the buffer with the payload released and the closing frame reached |
| Scenarios.ReadTwice | internal/multiplex/stream_test.go:284-299 | From a closed stream holding 3 bytes, one read returns them and the next fails with ErrBrokenStream |
| Scenarios.ReadOrdered | internal/multiplex/stream_test.go:51-101 | With frames of stream 1 numbered 0, 1, 2, ... and each arriving before its read, every read of a payload-sized buffer returns the payload |
| Scenarios.ReadThenArrive | internal/multiplex/stream_test.go:92-101 | One round: the read returns the payload, and the next frame in sequence refills the buffer with it |
| Scenarios.WriteOnOpenStream | internal/multiplex/stream_test.go:105-122 | A write on a freshly opened stream succeeds and takes all the data |
| Scenarios.WriteSyncSingle | internal/multiplex/stream_test.go:136-149 | Write then close on one session, carried to another: the accepted stream's full read of the written length returns the written bytes without error, for any data including none |
| Scenarios.WriteSyncMultiple | internal/multiplex/stream_test.go:151-168 | The same for any number of streams in turn: no read fails and every read returns the written bytes |
| Scenarios.WriteAndClose | internal/multiplex/stream_test.go:138-140 | Open, write and close send a run of data frames numbered from 0 and one closing frame, which together carry exactly the data |
| Scenarios.WrittenRun | internal/multiplex/stream_test.go:139-140 | A write followed by a close forms a run whose closing frame comes last and which carries exactly the written data; an empty write gives the closing frame alone |
| Scenarios.AcceptAndReadFull | internal/multiplex/stream_test.go:143-148 | When a sender's whole run arrives in order, the accepted stream's full read returns the sender's first `len` written bytes without error |
| Scenarios.Transmit | internal/multiplex/stream_test.go:130-132 | Delivering a stream's run in order opens the stream, queues it for Accept, fills its buffer with every frame and, at the closing frame, removes it from the table |
| Scenarios.AcceptClosing | internal/multiplex/stream_test.go:143-144 | A closing frame 1 for a new id opens a stream that Accept returns; it is held, so the stream stays open and tabled with nothing to read |
| Scenarios.ReadFull | internal/multiplex/stream_test.go:145 | io.ReadFull: with at least `len` bytes buffered it returns the first `len`; otherwise it returns everything buffered, with the error of the read that found the stream empty |

## Left out

- Obfuscation (`MakeObfuscator`, `Obfs`) is not part of this model; frames are delivered already decoded.
- Physical connections (`AddConnection`, the TCP listener, pipes, TLS wrapping) are not modelled; sent frames are only recorded in `Session.sent`.
- Goroutines, `time.Sleep` and blocking are not modelled: a `Read` or `Accept` that would wait returns `Blocked`, and the scenarios run their steps in sequence.
- Random keys and random payloads are replaced by parameters or by the fixed payload `[42, 42, 42]`; benchmark timing is dropped.
- Unordered mode is not modelled; the unordered-read test builds an ordered session, so lines 329-436 are covered by the same scenarios as lines 216-327.
- Frame.Seq is an unbounded `nat`; the 64-bit wrap-around is never reached in these scenarios.
- Multiplex.Session.OpenStream: ids start at 1 and wrap at 2^32. When the next id still belongs to a live stream, the model fails with ErrStreamIDInUse (and moves on to the next id) rather than evicting that stream; what the implementation does there, and any other id-space policy, is in files that are not part of this model.
- Multiplex.Session.Deliver: a reset frame for a new id also creates the stream, already reset, and queues it; its reads fail with ErrBrokenStream. Whether the implementation ignores such a frame is in files that are not part of this model.
- Multiplex.Stream.Close: a failure to send the closing frame is not modelled, so Close has no error result.
- Multiplex.Stream.Write: all frames of a write are appended to the session's log in one step; a partial write after a connection failure is not modelled.
- Scenarios.WriteSyncMultiple: the 100 streams run one after another, not concurrently, so their frames are not interleaved on the connection.
- Scenarios.ReadFull: io.ReadFull's separate EOF and ErrUnexpectedEOF results are not modelled; a short read reports the status of the read that found the stream empty.
- Each read subtest runs on a fresh session with its own stream id. The tests instead share one session between subtests, and no subtest depends on another's state.
- The implementation files of `internal/multiplex` (session, stream, buffer and switchboard code) are not part of this model; its behaviour is the one the tests assert.
