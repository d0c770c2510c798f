/** The scenarios of the multiplexer's stream tests, each run on a freshly
    made session. Frames arrive already decoded through `Deliver`; the frame
    payload bound `max` of the session is left open, so every scenario holds
    for every frame size. */
module Scenarios {
  import opened Frames
  import opened Reorder
  import opened Multiplex

  /** The payload the read tests deliver. */
  const TestPayload: seq<byte> := [42, 42, 42]

  /** The peer opens stream `id` by sending it `payload` as frame 0, and the
      stream is accepted: the returned stream is the only one of the session,
      is in its table and has the payload ready to read. */
  method AcceptFromPeer(max: nat, id: uint32, payload: seq<byte>) returns (sesh: Session, stream: Stream)
    requires max > 0
    ensures fresh(sesh) && fresh(stream) && stream.session == sesh && stream.id == id
    ensures Streaming(sesh, stream, id, payload, 1)
  {
    sesh := new Session(max);
    var first := Frame(id, 0, ClosingNothing, payload);
    var d := sesh.Deliver(first);
    var s, st := sesh.Accept();
    stream := s;
    CompleteDelivery(stream.received, stream.pending, stream.nextRecvSeq, stream.consumed + stream.buf, [first]);
  }

  /** Stream `id` of `sesh` is its only stream, is open and in the table,
      holds nothing out of order, has exactly `ready` to read and expects
      frame `next`. */
  ghost predicate Streaming(sesh: Session, stream: Stream, id: uint32, ready: seq<byte>, next: nat)
    reads sesh, sesh.Repr
  {
    && sesh.Valid() && !sesh.closed && sesh.Repr == {stream} && id in sesh.streams && sesh.streams[id] == stream
    && !stream.reset && stream.pending == map[] && stream.buf == ready && stream.nextRecvSeq == next
  }

  /** A data frame for an id never seen creates a stream that Accept returns;
      a read into a 10-byte buffer then returns exactly the 3 delivered bytes. */
  method PlainRead(max: nat) returns (n: nat, data: seq<byte>, err: Status)
    requires max > 0
    ensures err == Done && n == 3 && data == TestPayload
  {
    var sesh, stream := AcceptFromPeer(max, 0, TestPayload);
    var buf := new byte[10];
    n, err := stream.Read(buf);
    data := buf[..n];
  }

  /** A read with an empty buffer on a freshly accepted stream that holds data
      returns 0 bytes and no error. */
  method NilBufRead(max: nat) returns (n: nat, err: Status)
    requires max > 0
    ensures n == 0 && err == Done
  {
    var sesh, stream := AcceptFromPeer(max, 1, TestPayload);
    var buf := new byte[0];
    n, err := stream.Read(buf);
  }

  /** Closing an accepted stream removes its id from the session's table; the
      data it had buffered can still be read in full and is the delivered
      payload. */
  method CloseThenReadResidual(max: nat) returns (present: bool, n: nat, data: seq<byte>, err: Status)
    requires max > 0
    ensures !present
    ensures err == Done && n == 3 && data == TestPayload
  {
    var sesh, stream := AcceptFromPeer(max, 1, TestPayload);
    stream.Close();
    present := stream.id in sesh.streams;
    var buf := new byte[|TestPayload|];
    n, err := stream.Read(buf);
    data := buf[..n];
  }

  /** Read after stream close: the residual 3 bytes come back on the first
      read, and the next read fails with ErrBrokenStream. */
  method ReadAfterStreamClose(max: nat) returns (n: nat, data: seq<byte>, err: Status, err2: Status)
    requires max > 0
    ensures err == Done && n == 3 && data == TestPayload
    ensures err2 == Failed(ErrBrokenStream)
  {
    var sesh, stream := AcceptFromPeer(max, 2, TestPayload);
    stream.Close();
    n, data, err, err2 := ReadTwice(stream);
  }

  /** Read after session close: an accepted stream still returns its residual
      3 bytes on the first read, and the next read fails with ErrBrokenStream. */
  method ReadAfterSessionClose(max: nat) returns (n: nat, data: seq<byte>, err: Status, err2: Status)
    requires max > 0
    ensures err == Done && n == 3 && data == TestPayload
    ensures err2 == Failed(ErrBrokenStream)
  {
    var sesh, stream := AcceptFromPeer(max, 3, TestPayload);
    sesh.Close();
    assert stream.Valid() && stream.closed && stream.buf == TestPayload;
    n, data, err, err2 := ReadTwice(stream);
  }

  /** Frames of one stream taking different connections can arrive out of
      order: the closing frame 1 arrives first and opens the stream, which is
      accepted; then data frame 0 arrives. The payload is read in full, and
      the next read fails with ErrBrokenStream. */
  method CloseOvertakesData(max: nat) returns (n: nat, data: seq<byte>, err: Status, err2: Status)
    requires max > 0
    ensures err == Done && n == 3 && data == TestPayload
    ensures err2 == Failed(ErrBrokenStream)
  {
    var sesh, stream := AcceptClosing(max);
    DataAfterClosing(sesh, stream);
    n, data, err, err2 := ReadTwice(stream);
  }

  /** The closing frame 1 of stream 7 opens the stream, which is accepted; it
      is held, so the stream stays open and in the table with nothing to read. */
  method AcceptClosing(max: nat) returns (sesh: Session, stream: Stream)
    requires max > 0
    ensures fresh(sesh) && fresh(stream) && stream.session == sesh && stream.id == 7
    ensures sesh.Valid() && !sesh.closed && 7 in sesh.streams && sesh.streams[7] == stream
    ensures !stream.reset && stream.buf == [] && stream.consumed == []
    ensures stream.received == map[1 := Frame(7, 1, ClosingStream, [])]
  {
    sesh := new Session(max);
    var d := sesh.Deliver(Frame(7, 1, ClosingStream, []));
    var s, st := sesh.Accept();
    stream := s;
  }

  /** Data frame 0 of the stream arrives after its closing frame 1: the stream
      releases the payload and ends. */
  method DataAfterClosing(sesh: Session, stream: Stream)
    requires sesh.Valid() && !sesh.closed && 7 in sesh.streams && sesh.streams[7] == stream
    requires !stream.reset && stream.buf == [] && stream.consumed == []
    requires stream.received == map[1 := Frame(7, 1, ClosingStream, [])]
    modifies sesh, stream
    ensures stream.Valid() && stream.closed && stream.buf == TestPayload
  {
    var first := Frame(7, 0, ClosingNothing, TestPayload);
    assert stream.nextRecvSeq == 0 && 0 !in stream.pending;
    var d := sesh.Deliver(first);
    OvertakenClose(stream.received, stream.pending, stream.nextRecvSeq, stream.consumed + stream.buf, first);
    assert stream.consumed + stream.buf == stream.buf;
  }

  /** Data frame 0 together with the closing frame 1 that overtook it: the
      buffer releases the payload and stops at the closing frame. */
  lemma OvertakenClose(received: map<nat, Frame>, pending: map<nat, Frame>, next: nat, delivered: seq<byte>,
                       first: Frame)
    requires first == Frame(7, 0, ClosingNothing, TestPayload)
    requires received == map[1 := Frame(7, 1, ClosingStream, [])][0 := first]
    requires Buffered(received, pending, next, delivered) && Settled(pending, next)
    ensures next in pending && delivered == TestPayload
  {
    var fin := Frame(7, 1, ClosingStream, []);
    CloseAfterData(received, pending, next, delivered, [first, fin]);
    assert DataBytes([first, fin]) == TestPayload + DataBytes([fin]);
    assert DataBytes([fin]) == [] + DataBytes([]);
  }

  /** Two reads into a 10-byte buffer from a closed stream holding the test
      payload: the first returns the payload, the second fails with
      ErrBrokenStream. */
  method ReadTwice(stream: Stream) returns (n: nat, data: seq<byte>, err: Status, err2: Status)
    requires stream.Valid() && stream.closed && stream.buf == TestPayload
    modifies stream`buf, stream`consumed
    ensures err == Done && n == 3 && data == TestPayload
    ensures err2 == Failed(ErrBrokenStream)
  {
    var buf := new byte[10];
    n, err := stream.Read(buf);
    data := buf[..n];
    var n2;
    n2, err2 := stream.Read(buf);
  }

  /** The ordered-read benchmark: the peer sends frames of stream 1 with
      sequence numbers 0, 1, 2, ...; every read of a payload-sized buffer
      returns a copy of the payload. Each frame arrives before the read that
      consumes it. */
  method ReadOrdered(max: nat, payload: seq<byte>, count: nat) returns (got: seq<seq<byte>>)
    requires max > 0 && |payload| > 0
    ensures |got| == count
    ensures forall j :: 0 <= j < count ==> got[j] == payload
  {
    var sesh, stream := AcceptFromPeer(max, 1, payload);
    var readBuf := new byte[|payload|];
    got := [];
    var j := 0;
    while j < count
      invariant j <= count && got == seq(j, _ => payload)
      invariant fresh(stream) && fresh(readBuf)
      invariant Streaming(sesh, stream, 1, payload, j + 1) && readBuf.Length == |payload|
    {
      var chunk := ReadThenArrive(sesh, stream, readBuf, payload, j + 1);
      Repeated(got, payload, j);
      got := got + [chunk];
      j := j + 1;
    }
  }

  /** One round of the benchmark: a read that takes the whole payload, then
      the arrival of the next frame in sequence. */
  method ReadThenArrive(sesh: Session, stream: Stream, readBuf: array<byte>, payload: seq<byte>, next: nat)
    returns (chunk: seq<byte>)
    requires Streaming(sesh, stream, 1, payload, next) && readBuf.Length == |payload| && |payload| > 0
    modifies sesh, stream, readBuf
    ensures chunk == payload
    ensures Streaming(sesh, stream, 1, payload, next + 1)
  {
    var n, err := stream.Read(readBuf);
    chunk := readBuf[..n];
    var f := Frame(1, next, ClosingNothing, payload);
    ghost var received, consumed := stream.received, stream.consumed;
    var d := sesh.Deliver(f);
    InOrderArrival(received, next, consumed + [], f, stream.pending, stream.nextRecvSeq, stream.consumed + stream.buf);
    assert stream.buf == (consumed + stream.buf)[|consumed|..];
  }

  /** One more copy of `x` after `j` copies is `j + 1` copies. */
  lemma Repeated(xs: seq<seq<byte>>, x: seq<byte>, j: nat)
    requires xs == seq(j, _ => x)
    ensures xs + [x] == seq(j + 1, _ => x)
  {
  }

  /** A write on a freshly opened stream succeeds and takes all the data. */
  method WriteOnOpenStream(max: nat, data: seq<byte>) returns (n: nat, err: Status)
    requires max > 0
    ensures err == Done && n == |data|
  {
    var sesh := new Session(max);
    var stream, st := sesh.OpenStream();
    n, err := stream.Write(data);
  }

  /** Write then close on one session, carried in order to another: the
      receiving side accepts the stream and a full read of the written length
      returns exactly the written bytes. */
  method WriteSyncSingle(max: nat, data: seq<byte>) returns (recv: seq<byte>, err: Status)
    requires max > 0
    ensures err == Done && recv == data
  {
    var client := new Session(max);
    var server := new Session(max);
    recv, err := WriteSyncOne(client, server, data);
  }

  /** Many streams, one after another (the test runs 100): each is written,
      closed and carried to the server, which accepts it and reads the
      written length in full without error, receiving the written bytes. */
  method WriteSyncMultiple(max: nat, data: seq<byte>, count: nat) returns (recvs: seq<seq<byte>>, failures: nat)
    requires max > 0 && count < Uint32Modulus - 1
    ensures failures == 0 && recvs == seq(count, _ => data)
  {
    var client := new Session(max);
    var server := new Session(max);
    recvs, failures := [], 0;
    var i := 0;
    while i < count
      invariant i <= count && failures == 0 && recvs == seq(i, _ => data)
      invariant client.Valid() && !client.closed && client.nextStreamID == i + 1 && client.streams == map[]
      invariant server.Valid() && !server.closed && server.streams == map[] && server.acceptQueue == []
      invariant forall k :: k in server.retired ==> k <= i
      invariant fresh(client) && fresh(server) && fresh(server.Repr)
    {
      var recv, err := WriteSyncOne(client, server, data);
      BelowModulus(i + 2);
      failures := failures + if err == Done then 0 else 1;
      Repeated(recvs, data, i);
      recvs := recvs + [recv];
      i := i + 1;
    }
  }

  /** One stream of the write tests, from the client's write to the
      server's full read. */
  method WriteSyncOne(client: Session, server: Session, data: seq<byte>) returns (recv: seq<byte>, err: Status)
    requires client.Valid() && !client.closed && client != server
    requires server.Valid() && !server.closed && server.streams == map[] && server.acceptQueue == []
    requires client.nextStreamID !in client.streams && client.nextStreamID !in server.retired
    modifies client`streams, client`nextStreamID, client`Repr, client`sent, client`retired
    modifies server`streams, server`acceptQueue, server`retired, server`Repr, server.Repr
    ensures client.Valid() && client.nextStreamID == (old(client.nextStreamID) + 1) % Uint32Modulus
    ensures client.streams == old(client.streams)
    ensures server.Valid() && server.streams == map[] && server.acceptQueue == []
    ensures server.retired == old(server.retired) + {old(client.nextStreamID)}
    ensures fresh(server.Repr - old(server.Repr))
    ensures err == Done && recv == data
  {
    var k := |client.sent|;
    var stream := WriteAndClose(client, data);
    assert client.sent[k..] == stream.sentFrames;
    recv, err := AcceptAndReadFull(server, stream, client.sent[k..], |data|);
    assert data[..|data|] == data;
  }

  /** The client side of the write tests: open a stream, write `data` to it and
      close it. The session has sent exactly the stream's frames since, a run
      of data frames and a closing frame that carries the data. */
  method WriteAndClose(client: Session, data: seq<byte>) returns (stream: Stream)
    requires client.Valid() && !client.closed && client.nextStreamID !in client.streams
    modifies client`streams, client`nextStreamID, client`Repr, client`sent, client`retired
    ensures client.Valid() && fresh(stream) && stream.session == client && stream.Valid()
    ensures stream.id == old(client.nextStreamID) && client.streams == old(client.streams)
    ensures client.nextStreamID == (old(client.nextStreamID) + 1) % Uint32Modulus
    ensures client.sent == old(client.sent) + stream.sentFrames
    ensures stream.finSent && StreamRun(stream.sentFrames, stream.id)
    ensures DataBytes(stream.sentFrames) == data
  {
    ghost var sent0 := client.sent;
    stream := OpenAndWrite(client, data);
    ghost var frames := stream.sentFrames;
    stream.Close();
    ghost var fin := Frame(stream.id, |frames|, ClosingStream, []);
    assert stream.sentFrames == frames + [fin];
    assert client.sent == sent0 + (frames + [fin]);
    WrittenRun(stream.id, data, client.maxFramePayload);
    AddThenRemove(old(client.streams), stream.id, stream);
  }

  /** Opens a stream and writes `data` to it: the stream has sent the data
      frames of the write, and so has the session. */
  method OpenAndWrite(client: Session, data: seq<byte>) returns (stream: Stream)
    requires client.Valid() && !client.closed && client.nextStreamID !in client.streams
    modifies client`streams, client`nextStreamID, client`Repr, client`sent
    ensures client.Valid() && fresh(stream) && stream.session == client && stream in client.Repr
    ensures client.streams == old(client.streams)[stream.id := stream]
    ensures stream.Valid() && !stream.closed
    ensures stream.id == old(client.nextStreamID)
    ensures client.nextStreamID == (old(client.nextStreamID) + 1) % Uint32Modulus
    ensures stream.sentFrames == DataFrames(stream.id, 0, Chunks(data, client.maxFramePayload))
    ensures client.sent == old(client.sent) + stream.sentFrames
  {
    var st;
    stream, st := client.OpenStream();
    var n, ws := stream.Write(data);
  }

  /** A write of `data` followed by a close sends a run of data frames (none
      for empty data) and one closing frame, and the run carries exactly `data`. */
  lemma WrittenRun(id: uint32, data: seq<byte>, max: nat)
    requires max > 0
    ensures var frames := DataFrames(id, 0, Chunks(data, max));
            var run := frames + [Frame(id, |frames|, ClosingStream, [])];
            StreamRun(run, id) && DataBytes(run) == data
  {
    var chunks := Chunks(data, max);
    var frames := DataFrames(id, 0, chunks);
    var fin := Frame(id, |frames|, ClosingStream, []);
    ChunksSpec(data, max);
    DataFramesShape(id, 0, chunks);
    DataBytesControlSnoc(frames, fin);
    DataBytesOfDataFrames(id, 0, chunks);
  }

  /** The server side of the write tests: `frames`, every frame the stream
      `sender` of another session sent, arrive in order; the stream they open
      is accepted, and reading `len` bytes in full returns the first `len`
      bytes the sender wrote. */
  method AcceptAndReadFull(server: Session, sender: Stream, frames: seq<Frame>, len: nat)
    returns (recv: seq<byte>, err: Status)
    requires server.Valid() && !server.closed && server.acceptQueue == []
    requires frames == sender.sentFrames && sender.session != server
    requires sender.id !in server.streams && sender.id !in server.retired
    requires sender.Valid() && sender.finSent && StreamRun(sender.sentFrames, sender.id)
    requires len <= |DataBytes(sender.sentFrames)|
    modifies server`streams, server`acceptQueue, server`retired, server`Repr, server.Repr
    ensures server.Valid() && server.streams == old(server.streams) && server.acceptQueue == []
    ensures server.retired == old(server.retired) + {sender.id} && fresh(server.Repr - old(server.Repr))
    ensures err == Done && recv == DataBytes(sender.sentFrames)[..len]
  {
    assert sender !in server.Repr;
    var rs := AcceptRun(server, frames, sender.id);
    PeerReceivesAll(sender, rs);
    assert rs.consumed + rs.buf == rs.buf;
    label Received:
    recv, err := ReadFull(rs, len);
    StreamUpdated@Received(rs);
  }

  /** The run of a stream new to `server` arrives in order and `Accept`
      returns the stream it opened. */
  method AcceptRun(server: Session, frames: seq<Frame>, id: uint32) returns (rs: Stream)
    requires server.Valid() && !server.closed && server.acceptQueue == []
    requires id !in server.streams && id !in server.retired && StreamRun(frames, id)
    modifies server`streams, server`acceptQueue, server`retired, server`Repr, server.Repr
    ensures server.Valid() && server.streams == old(server.streams) && server.acceptQueue == []
    ensures server.retired == old(server.retired) + {id} && server.Repr == old(server.Repr) + {rs}
    ensures fresh(rs) && rs.session == server && rs.id == id && rs.Valid() && !rs.reset && rs.consumed == []
    ensures forall i :: 0 <= i < |frames| ==> i in rs.received && rs.received[i] == frames[i]
  {
    rs := Transmit(server, frames, id);
    var accepted, st := server.Accept();
  }

  /** Go's io.ReadFull: reads until `len` bytes have been read. When the stream
      holds fewer, it returns what there was with the error of the read that
      found the stream empty. */
  method ReadFull(s: Stream, len: nat) returns (data: seq<byte>, status: Status)
    requires s.Valid()
    modifies s`buf, s`consumed
    ensures s.Valid() && s.consumed == old(s.consumed) + data
    ensures |old(s.buf)| >= len ==> status == Done && data == old(s.buf)[..len] && s.buf == old(s.buf)[len..]
    ensures |old(s.buf)| < len ==>
              && data == old(s.buf) && s.buf == []
              && status == (if s.closed then Failed(ErrBrokenStream) else Blocked)
  {
    data, status := [], Done;
    while |data| < len
      invariant |data| <= len
      invariant s.Valid() && data + s.buf == old(s.buf) && s.consumed == old(s.consumed) + data
      decreases len - |data|
    {
      var p := new byte[len - |data|];
      var n, st := s.Read(p);
      if st != Done {
        status := st;
        return;
      }
      data := data + p[..n];
    }
  }

  /** The frames one stream `id` sends over its whole life: data frames
      numbered from 0, possibly none, then one closing frame. */
  ghost predicate StreamRun(frames: seq<Frame>, id: uint32)
  {
    && |frames| >= 1
    && (forall i :: 0 <= i < |frames| ==> frames[i].StreamID == id && frames[i].Seq == i)
    && (forall i :: 0 <= i < |frames| - 1 ==> frames[i].Closing == ClosingNothing)
    && frames[|frames| - 1].Closing == ClosingStream
  }

  /** The connection between two sessions: every frame of `frames`, the run of
      a stream the server has never seen, is delivered to `server` in order.
      The first opens the stream `rs`, which is queued for Accept; the closing
      frame ends it, so it has left the table again (or never entered it, when
      the closing frame is the first). */
  method Transmit(server: Session, frames: seq<Frame>, id: uint32) returns (rs: Stream)
    requires server.Valid() && !server.closed && id !in server.streams && id !in server.retired
    requires StreamRun(frames, id)
    modifies server`streams, server`acceptQueue, server`retired, server`Repr, server.Repr
    ensures server.Valid()
    ensures fresh(rs) && rs.session == server && rs.id == id && rs.Valid() && !rs.reset && rs.consumed == []
    ensures forall i :: 0 <= i < |frames| ==> i in rs.received && rs.received[i] == frames[i]
    ensures server.streams == old(server.streams) && server.retired == old(server.retired) + {id}
    ensures server.acceptQueue == old(server.acceptQueue) + [rs] && server.Repr == old(server.Repr) + {rs}
  {
    rs := Arrive(server, frames, id);
    if |frames| > 1 {
      ArriveRest(server, rs, frames);
      AddThenRemove(old(server.streams), id, rs);
    }
    ArrivedAll(frames, rs.received);
  }

  /** The first frame of a run opens the stream and queues it for Accept; it
      is tabled unless the run is its closing frame alone. */
  method Arrive(server: Session, frames: seq<Frame>, id: uint32) returns (rs: Stream)
    requires server.Valid() && !server.closed && id !in server.streams && id !in server.retired
    requires StreamRun(frames, id)
    modifies server`streams, server`acceptQueue, server`retired, server`Repr
    ensures server.Valid()
    ensures fresh(rs) && rs.session == server && rs.id == id && rs.Valid() && !rs.reset && rs.consumed == []
    ensures rs.received == Arrived(frames, 1)
    ensures server.streams == if |frames| == 1 then old(server.streams) else old(server.streams)[id := rs]
    ensures server.retired == if |frames| == 1 then old(server.retired) + {id} else old(server.retired)
    ensures server.acceptQueue == old(server.acceptQueue) + [rs] && server.Repr == old(server.Repr) + {rs}
  {
    var d := server.Deliver(frames[0]);
    rs := server.acceptQueue[|server.acceptQueue| - 1];
    assert rs.received == Arrived(frames, 1);
  }

  /** The frames of a run after its first arrive at the stream `rs` the first
      opened: its data frames, then the closing frame, which ends it. */
  method ArriveRest(server: Session, rs: Stream, frames: seq<Frame>)
    requires server.Valid() && rs.id in server.streams && server.streams[rs.id] == rs && !rs.reset
    requires StreamRun(frames, rs.id) && |frames| > 1 && rs.received == Arrived(frames, 1)
    modifies server`streams, server`acceptQueue, server`retired, server`Repr, server.Repr
    ensures server.Valid() && server.streams == old(server.streams) - {rs.id}
    ensures server.retired == old(server.retired) + {rs.id}
    ensures server.acceptQueue == old(server.acceptQueue) && server.Repr == old(server.Repr)
    ensures !rs.reset && rs.consumed == old(rs.consumed) && rs.received == Arrived(frames, |frames|)
  {
    ForwardData(server, rs, frames);
    ArrivedBeforeClose(frames, rs.id);
    var last := |frames| - 1;
    assert frames[last].Seq == last;
    ghost var before := rs.received;
    Finish(server, rs, frames[last]);
    assert rs.received == before[last := frames[last]];
    ArrivedNext(frames, last);
  }

  /** Once the whole run has arrived, every frame of it has. */
  lemma ArrivedAll(frames: seq<Frame>, received: map<nat, Frame>)
    requires received == Arrived(frames, |frames|)
    ensures forall i :: 0 <= i < |frames| ==> i in received && received[i] == frames[i]
  {
  }

  /** The data frames of a run after its first arrive in order at `rs`, the
      stream the first one opened. */
  method ForwardData(server: Session, rs: Stream, frames: seq<Frame>)
    requires server.Valid() && rs.id in server.streams && server.streams[rs.id] == rs && !rs.reset
    requires StreamRun(frames, rs.id) && rs.received == Arrived(frames, 1)
    modifies server`streams, server`acceptQueue, server`retired, server`Repr, server.Repr
    ensures server.Valid() && server.streams == old(server.streams) && server.retired == old(server.retired)
    ensures server.acceptQueue == old(server.acceptQueue) && server.Repr == old(server.Repr)
    ensures !rs.reset && rs.consumed == old(rs.consumed) && rs.received == Arrived(frames, |frames| - 1)
  {
    var i := 1;
    while i < |frames| - 1
      invariant 1 <= i <= |frames| - 1
      invariant server.Valid() && server.streams == old(server.streams) && server.retired == old(server.retired)
      invariant server.acceptQueue == old(server.acceptQueue) && server.Repr == old(server.Repr)
      invariant !rs.reset && rs.consumed == old(rs.consumed) && rs.received == Arrived(frames, i)
    {
      Forward(server, rs, frames[i]);
      ArrivedNext(frames, i);
      i := i + 1;
    }
  }

  /** Everything but the closing frame of a run has arrived: frames below
      the closing frame's number, all of them data. */
  lemma ArrivedBeforeClose(frames: seq<Frame>, id: uint32)
    requires StreamRun(frames, id)
    ensures var a, n := Arrived(frames, |frames| - 1), frames[|frames| - 1].Seq;
            && (forall k :: k in a ==> k < n)
            && (forall k: nat :: k < n ==> k in a)
            && (forall k :: k in a ==> a[k].Closing == ClosingNothing)
  {
  }

  /** Adding a fresh key to a table and removing it again gives the table back. */
  lemma AddThenRemove(m: map<uint32, Stream>, k: uint32, v: Stream)
    requires k !in m
    ensures m[k := v] - {k} == m
  {
  }

  /** The first `n` frames of a run, by sequence number. */
  ghost function Arrived(frames: seq<Frame>, n: nat): map<nat, Frame>
    requires n <= |frames|
  {
    map k | 0 <= k < n :: frames[k]
  }

  /** One more frame of the run arrives. */
  lemma ArrivedNext(frames: seq<Frame>, n: nat)
    requires n < |frames|
    ensures Arrived(frames, n)[n := frames[n]] == Arrived(frames, n + 1)
  {
  }

  /** A data frame for open stream `rs` that has not arrived before, while
      only data frames have arrived: it is taken into the receive buffer and
      the stream stays open. */
  method Forward(server: Session, rs: Stream, f: Frame)
    requires server.Valid() && f.StreamID in server.streams && server.streams[f.StreamID] == rs
    requires !rs.reset && f.Closing == ClosingNothing && f.Seq !in rs.received
    requires forall k :: k in rs.received ==> rs.received[k].Closing == ClosingNothing
    modifies server`streams, server`acceptQueue, server`retired, server`Repr, server.Repr
    ensures server.Valid() && server.streams == old(server.streams) && server.retired == old(server.retired)
    ensures server.acceptQueue == old(server.acceptQueue) && server.Repr == old(server.Repr)
    ensures !rs.reset && rs.consumed == old(rs.consumed) && rs.received == old(rs.received)[f.Seq := f]
  {
    ghost var next := rs.nextRecvSeq;
    assert next <= f.Seq && f.Seq !in rs.pending;
    var d := server.Deliver(f);
    assert forall k :: k in rs.received ==> rs.received[k].Closing == ClosingNothing;
  }

  /** The closing frame of open stream `rs`, arriving after its data frames
      0 .. f.Seq - 1: the stream is closed and leaves the table. */
  method Finish(server: Session, rs: Stream, f: Frame)
    requires server.Valid() && f.StreamID in server.streams && server.streams[f.StreamID] == rs
    requires !rs.reset && f.Closing == ClosingStream
    requires forall k :: k in rs.received ==> k < f.Seq
    requires forall k: nat :: k < f.Seq ==> k in rs.received
    requires forall k :: k in rs.received ==> rs.received[k].Closing == ClosingNothing
    modifies server`streams, server`acceptQueue, server`retired, server`Repr, server.Repr
    ensures server.Valid() && server.streams == old(server.streams) - {f.StreamID}
    ensures server.retired == old(server.retired) + {f.StreamID}
    ensures server.acceptQueue == old(server.acceptQueue) && server.Repr == old(server.Repr)
    ensures !rs.reset && rs.consumed == old(rs.consumed) && rs.received == old(rs.received)[f.Seq := f]
  {
    ghost var received, pending, next, delivered := rs.received, rs.pending, rs.nextRecvSeq, rs.consumed + rs.buf;
    assert next <= f.Seq && f.Seq !in pending;
    var d := server.Deliver(f);
    ClosingArrives(received, pending, next, delivered, f, rs.pending, rs.nextRecvSeq, rs.consumed + rs.buf);
  }

  /** Stream ids below 2^32 do not wrap. */
  lemma BelowModulus(x: int)
    requires 0 <= x < Uint32Modulus
    ensures x % Uint32Modulus == x
  {
  }
}
