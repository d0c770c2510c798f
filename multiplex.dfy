/** The session and its streams. A session owns a table of live streams keyed
    by stream id, a queue of remotely opened streams waiting for `Accept`, and
    a closed flag. A stream owns its send sequence counter and its ordered
    receive buffer. Frames handed to the physical connections are recorded in
    the session's `sent` log; inbound frames arrive through `Deliver`. */
module Multiplex {
  import opened Frames
  import opened Reorder

  datatype Error = ErrBrokenStream | ErrSessionClosed | ErrStreamIDInUse

  /** Outcome of an operation: it completed, it failed, or (for `Read` and
      `Accept`) it would have to wait for something to arrive. */
  datatype Status = Done | Failed(err: Error) | Blocked

  /** What `Deliver` did with a frame. */
  datatype Delivery = Routed | Opened | Dropped

  function Min(a: nat, b: nat): nat
  {
    if a < b then a else b
  }

  class Stream {
    const id: uint32
    const session: Session

    // send side
    var nextSendSeq: nat
    ghost var sentFrames: seq<Frame>   // every frame this stream has sent, in order
    ghost var finSent: bool            // the closing frame has been sent

    // receive side: ordered reassembly
    var buf: seq<byte>                 // released bytes not yet read
    var pending: map<nat, Frame>       // frames held by sequence number
    var nextRecvSeq: nat
    ghost var received: map<nat, Frame>
    ghost var consumed: seq<byte>      // bytes already returned by Read

    var closed: bool                   // locally, remotely or by the session
    ghost var reset: bool              // closed by an abrupt reset

    ghost predicate Valid()
      reads this
    {
      RecvValid() && SendValid()
    }

    /** The receive buffer is consistent and settled, and a stream whose
        closing frame has been reached is closed. */
    ghost predicate RecvValid()
      reads this`buf, this`pending, this`nextRecvSeq, this`received, this`consumed, this`closed, this`reset
    {
      && (!reset ==> Buffered(received, pending, nextRecvSeq, consumed + buf) && Settled(pending, nextRecvSeq))
      && (reset ==> closed && buf == [] && pending == map[])
      && (nextRecvSeq in pending ==> closed)
    }

    /** Frames are sent numbered 0, 1, 2, ...; only the last one, sent by a
        local close, is a control frame. */
    ghost predicate SendValid()
      reads this`nextSendSeq, this`sentFrames, this`finSent, this`closed
    {
      && nextSendSeq == |sentFrames|
      && (forall i :: 0 <= i < |sentFrames| ==> sentFrames[i].StreamID == id && sentFrames[i].Seq == i)
      && (forall i :: 0 <= i < |sentFrames| ==>
            (sentFrames[i].Closing != ClosingNothing <==> finSent && i == |sentFrames| - 1))
      && (finSent ==> closed && |sentFrames| > 0)
    }

    /** The send side did not change. */
    twostate predicate SendUnchanged()
      reads this
    {
      nextSendSeq == old(nextSendSeq) && sentFrames == old(sentFrames) && finSent == old(finSent)
    }

    /** The effect of one inbound frame on the receive buffer: a reset empties and
        closes it; a frame below `nextRecvSeq` or already held is ignored; any
        other frame joins the received frames, and the buffer (consistent and
        settled by Valid, hence determined by the received frames) only gains
        bytes; the stream ends when the closing frame is reached in order. */
    twostate predicate Absorbed(f: Frame)
      reads this
    {
      && consumed == old(consumed)
      && if f.Closing == ClosingReset then
           && reset && closed && buf == [] && pending == map[]
           && received == old(received) && nextRecvSeq == old(nextRecvSeq)
         else if f.Seq < old(nextRecvSeq) || f.Seq in old(pending) then
           && buf == old(buf) && pending == old(pending) && nextRecvSeq == old(nextRecvSeq)
           && received == old(received) && closed == old(closed) && reset == old(reset)
         else
           && received == old(received)[f.Seq := f] && reset == old(reset)
           && old(buf) <= buf && old(nextRecvSeq) <= nextRecvSeq
           && closed == (nextRecvSeq in pending)
    }

    /** The state of a new stream right after it took in its first frame `f`:
        a reset leaves it reset and empty; otherwise `f` is its only frame,
        whose payload is ready when it is data frame 0, and the stream has
        ended when `f` is a closing frame 0. Nothing was sent or read. */
    ghost predicate OpenedBy(f: Frame)
      reads this
    {
      && sentFrames == [] && consumed == []
      && reset == (f.Closing == ClosingReset)
      && received == (if f.Closing == ClosingReset then map[] else map[f.Seq := f])
      && buf == (if f.Closing == ClosingNothing && f.Seq == 0 then f.Payload else [])
      && closed == (f.Closing == ClosingReset || (f.Closing != ClosingNothing && f.Seq == 0))
    }

    constructor (session: Session, id: uint32)
      ensures Valid() && this.session == session && this.id == id
      ensures nextSendSeq == 0 && sentFrames == [] && !finSent
      ensures buf == [] && pending == map[] && nextRecvSeq == 0 && received == map[] && consumed == []
      ensures !closed && !reset
    {
      this.id := id;
      this.session := session;
      nextSendSeq, sentFrames, finSent := 0, [], false;
      buf, pending, nextRecvSeq, received, consumed := [], map[], 0, map[], [];
      closed, reset := false, false;
      EmptyBuffered();
    }

    /** Puts one inbound frame of this stream into the receive buffer and reports
        whether the stream has ended (a reset, or the closing frame reached in order). */
    method RecvFrame(f: Frame) returns (toBeClosed: bool)
      requires Valid() && !closed
      modifies this`buf, this`pending, this`nextRecvSeq, this`received, this`closed, this`reset
      ensures Valid()
      ensures Absorbed(f)
      ensures toBeClosed == closed
    {
      if f.Closing == ClosingReset {
        buf, pending, reset, closed := [], map[], true, true;
        return true;
      }
      if f.Seq < nextRecvSeq || f.Seq in pending {
        return false;
      }
      toBeClosed := Take(f);
    }

    /** A frame not seen before, at or past the next sequence number, joins
        the held frames; then the contiguous data frames are released. */
    method Take(f: Frame) returns (toBeClosed: bool)
      requires Valid() && !closed && f.Closing != ClosingReset
      requires nextRecvSeq <= f.Seq && f.Seq !in pending
      modifies this`buf, this`pending, this`nextRecvSeq, this`received, this`closed
      ensures Valid()
      ensures received == old(received)[f.Seq := f]
      ensures old(buf) <= buf && old(nextRecvSeq) <= nextRecvSeq
      ensures toBeClosed == closed == (nextRecvSeq in pending)
    {
      InsertKeepsBuffered(received, pending, nextRecvSeq, consumed + buf, f);
      received := received[f.Seq := f];
      var held, next, out := Drain(received, pending[f.Seq := f], nextRecvSeq, consumed, buf);
      toBeClosed := next in held;
      pending, nextRecvSeq, buf, closed := held, next, out, toBeClosed;
    }

    /** Reads into `p`. An empty `p` reads nothing and succeeds. Otherwise
        buffered bytes are returned while any remain, whether or not the stream
        is closed; once it is closed and drained the read fails with
        ErrBrokenStream; an open, drained stream would wait. */
    method Read(p: array<byte>) returns (n: nat, status: Status)
      requires Valid()
      modifies this`buf, this`consumed, p
      ensures Valid()
      ensures n <= p.Length
      ensures forall k :: n <= k < p.Length ==> p[k] == old(p[k])
      ensures p.Length == 0 ==> n == 0 && status == Done && buf == old(buf) && consumed == old(consumed)
      ensures p.Length > 0 && old(buf) != [] ==>
                && status == Done && n == Min(p.Length, |old(buf)|)
                && p[..n] == old(buf)[..n] && buf == old(buf)[n..]
                && consumed == old(consumed) + old(buf)[..n]
      ensures p.Length > 0 && old(buf) == [] ==>
                && n == 0 && buf == [] && consumed == old(consumed)
                && status == (if closed then Failed(ErrBrokenStream) else Blocked)
    {
      if p.Length == 0 {
        return 0, Done;
      }
      if buf == [] {
        n := 0;
        status := if closed then Failed(ErrBrokenStream) else Blocked;
        return;
      }
      var data := buf;
      n := Min(p.Length, |data|);
      var i := 0;
      while i < n
        invariant 0 <= i <= n
        invariant forall k :: 0 <= k < i ==> p[k] == data[k]
        invariant forall k :: i <= k < p.Length ==> p[k] == old(p[k])
        invariant buf == data && consumed == old(consumed)
      {
        p[i] := data[i];
        i := i + 1;
      }
      assert p[..n] == data[..n];
      assert consumed + data[..n] + data[n..] == consumed + data;
      consumed := consumed + data[..n];
      buf := data[n..];
      status := Done;
    }

    /** Sends `data` as data frames of at most the session's frame size, each
        with the next sequence number. Fails with ErrBrokenStream on a closed
        stream or session. */
    method Write(data: seq<byte>) returns (n: nat, status: Status)
      requires Valid() && session.Valid() && this in session.Repr
      modifies this`nextSendSeq, this`sentFrames, session`sent
      ensures Valid() && session.Valid()
      ensures old(closed) || session.closed ==>
                && n == 0 && status == Failed(ErrBrokenStream)
                && sentFrames == old(sentFrames) && session.sent == old(session.sent)
      ensures !(old(closed) || session.closed) ==>
                var frames := DataFrames(id, old(nextSendSeq), Chunks(data, session.maxFramePayload));
                && n == |data| && status == Done
                && sentFrames == old(sentFrames) + frames
                && session.sent == old(session.sent) + frames
      ensures DataBytes(sentFrames) == DataBytes(old(sentFrames)) + (if status == Done then data else [])
    {
      if closed || session.closed {
        return 0, Failed(ErrBrokenStream);
      }
      ghost var sent0 := sentFrames;
      var frames := Packetize(id, nextSendSeq, data, session.maxFramePayload);
      DataFramesShape(id, nextSendSeq, Chunks(data, session.maxFramePayload));
      Append(frames);
      StreamUpdated(this);
      DataBytesConcat(sent0, frames);
      DataBytesOfDataFrames(id, old(nextSendSeq), Chunks(data, session.maxFramePayload));
      ChunksSpec(data, session.maxFramePayload);
      assert DataBytes(sentFrames) == DataBytes(sent0) + data;
      n, status := |data|, Done;
    }

    /** Sends `frames`, data frames of this stream numbered on from the
        frames sent so far. */
    method Append(frames: seq<Frame>)
      requires Valid() && !closed
      requires forall i :: 0 <= i < |frames| ==>
                 frames[i] == Frame(id, nextSendSeq + i, ClosingNothing, frames[i].Payload)
      modifies this`nextSendSeq, this`sentFrames, session`sent
      ensures Valid()
      ensures nextSendSeq == old(nextSendSeq) + |frames|
      ensures sentFrames == old(sentFrames) + frames && session.sent == old(session.sent) + frames
    {
      session.sent := session.sent + frames;
      sentFrames, nextSendSeq := sentFrames + frames, nextSendSeq + |frames|;
    }

    /** Closes the stream: sends one closing frame with the next sequence number,
        so that it follows every frame written before, marks the stream closed
        and removes it from the session's table at once. Closing a closed stream
        does nothing. The receive buffer is left as it is, so residual data can
        still be read. */
    method Close()
      requires Valid() && session.Valid() && this in session.Repr
      modifies this`nextSendSeq, this`sentFrames, this`finSent, this`closed
      modifies session`sent, session`streams, session`retired
      ensures Valid() && session.Valid()
      ensures old(closed) ==>
                && closed && nextSendSeq == old(nextSendSeq) && sentFrames == old(sentFrames)
                && finSent == old(finSent) && session.sent == old(session.sent)
                && session.streams == old(session.streams) && session.retired == old(session.retired)
      ensures !old(closed) ==>
                var fin := Frame(id, old(nextSendSeq), ClosingStream, []);
                && closed && finSent
                && nextSendSeq == old(nextSendSeq) + 1
                && sentFrames == old(sentFrames) + [fin]
                && session.sent == old(session.sent) + [fin]
                && session.streams == old(session.streams) - {id}
                && id !in session.streams
                && session.retired == old(session.retired) + {id}
    {
      if closed {
        return;
      }
      SendFin();
      session.Detach(id);
      StreamUpdated(this);
    }

    /** Sends the closing frame, with the next sequence number, and marks the
        stream closed. */
    method SendFin()
      requires Valid() && !closed
      modifies this`nextSendSeq, this`sentFrames, this`finSent, this`closed, session`sent
      ensures Valid()
      ensures var fin := Frame(id, old(nextSendSeq), ClosingStream, []);
                && closed && finSent
                && nextSendSeq == old(nextSendSeq) + 1
                && sentFrames == old(sentFrames) + [fin]
                && session.sent == old(session.sent) + [fin]
    {
      var fin := Frame(id, nextSendSeq, ClosingStream, []);
      session.sent := session.sent + [fin];
      sentFrames, nextSendSeq, finSent, closed := sentFrames + [fin], nextSendSeq + 1, true, true;
    }

    /** Marks the stream closed without sending anything (used when the whole
        session closes). */
    method Shut()
      modifies this`closed
      ensures closed && (old(Valid()) ==> Valid())
    {
      closed := true;
    }
  }

  class Session {
    const maxFramePayload: nat
    var streams: map<uint32, Stream>
    var acceptQueue: seq<Stream>
    var closed: bool
    var nextStreamID: uint32
    var retired: set<uint32>     // ids of streams that were removed from the table
    var sent: seq<Frame>         // frames handed to the physical connections, in order
    ghost var Repr: set<Stream>  // every stream this session has created

    /** The table holds exactly the open streams of the session, each under its
        own id; queued streams belong to the session, every stream of the
        session is valid, and a closed session holds no streams. */
    ghost predicate Valid()
      reads this, Repr
    {
      && maxFramePayload > 0
      && (forall k :: k in streams ==> streams[k] in Repr && streams[k].id == k && !streams[k].closed)
      && (forall s :: s in Repr && !s.closed ==> s.id in streams && streams[s.id] == s)
      && (forall i :: 0 <= i < |acceptQueue| ==> acceptQueue[i] in Repr)
      && (forall s :: s in Repr ==> s.session == this && s.Valid())
      && (closed ==> streams == map[] && acceptQueue == [])
    }

    constructor (maxFramePayload: nat)
      requires maxFramePayload > 0
      ensures Valid() && this.maxFramePayload == maxFramePayload
      ensures streams == map[] && acceptQueue == [] && !closed
      ensures nextStreamID == 1 && retired == {} && sent == [] && Repr == {}
    {
      this.maxFramePayload := maxFramePayload;
      streams, acceptQueue, closed := map[], [], false;
      nextStreamID, retired, sent := 1, {}, [];
      Repr := {};
    }

    /** Removes stream `id` from the table and remembers the id as retired, so
        that late frames for it are dropped. */
    method Detach(id: uint32)
      modifies this`streams, this`retired
      ensures streams == old(streams) - {id} && id !in streams
      ensures retired == old(retired) + {id}
    {
      streams := streams - {id};
      retired := retired + {id};
    }

    /** Opens a local stream under the next stream id (the counter wraps at
        2^32) and registers it in the table. Fails on a closed session, and
        when the id still belongs to a live stream, which is never evicted. */
    method OpenStream() returns (s: Stream?, status: Status)
      requires Valid()
      modifies this`streams, this`nextStreamID, this`Repr
      ensures Valid()
      ensures old(closed) ==>
                && s == null && status == Failed(ErrSessionClosed)
                && streams == old(streams) && nextStreamID == old(nextStreamID) && Repr == old(Repr)
      ensures !old(closed) && old(nextStreamID) in old(streams) ==>
                && s == null && status == Failed(ErrStreamIDInUse)
                && streams == old(streams) && Repr == old(Repr)
                && nextStreamID == (old(nextStreamID) + 1) % Uint32Modulus
      ensures !old(closed) && old(nextStreamID) !in old(streams) ==>
                && s != null && fresh(s) && status == Done
                && s.id == old(nextStreamID) && s.session == this
                && streams == old(streams)[s.id := s] && Repr == old(Repr) + {s}
                && nextStreamID == (old(nextStreamID) + 1) % Uint32Modulus
                && s.Valid() && !s.closed && s.nextSendSeq == 0 && s.sentFrames == []
                && s.buf == [] && s.consumed == [] && s.received == map[]
    {
      if closed {
        return null, Failed(ErrSessionClosed);
      }
      var id := nextStreamID;
      nextStreamID := (nextStreamID + 1) % Uint32Modulus;
      if id in streams {
        return null, Failed(ErrStreamIDInUse);
      }
      s := new Stream(this, id);
      streams := streams[id := s];
      Repr := Repr + {s};
      status := Done;
    }

    /** Returns the oldest remotely opened stream not yet accepted; fails once
        the session is closed; would wait while none is queued. */
    method Accept() returns (s: Stream?, status: Status)
      requires Valid()
      modifies this`acceptQueue
      ensures Valid()
      ensures old(closed) ==> s == null && status == Failed(ErrSessionClosed) && acceptQueue == old(acceptQueue)
      ensures !old(closed) && old(acceptQueue) == [] ==> s == null && status == Blocked && acceptQueue == []
      ensures !old(closed) && old(acceptQueue) != [] ==>
                && s == old(acceptQueue)[0] && status == Done
                && acceptQueue == old(acceptQueue)[1..]
                && s in Repr && s.Valid() && s.session == this
    {
      if closed {
        return null, Failed(ErrSessionClosed);
      }
      if acceptQueue == [] {
        return null, Blocked;
      }
      s := acceptQueue[0];
      acceptQueue := acceptQueue[1..];
      status := Done;
    }

    /** Routes one inbound frame. A frame for a stream in the table goes into
        that stream's receive buffer, and the stream leaves the table if the
        frame ends it. The first frame for an id never seen before, of any
        kind, creates the stream, puts the frame into its buffer and queues it
        for `Accept`; the new stream is tabled unless that frame already ended
        it. A frame for a removed id and any frame after the session closed
        are dropped. Only the stream the frame is for can change. */
    method Deliver(f: Frame) returns (d: Delivery)
      requires Valid()
      modifies this`streams, this`acceptQueue, this`retired, this`Repr
      modifies if f.StreamID in streams then {streams[f.StreamID]} else {}
      ensures Valid()
      ensures old(closed) || (f.StreamID !in old(streams) && f.StreamID in old(retired)) ==>
                && d == Dropped && Repr == old(Repr)
                && streams == old(streams) && acceptQueue == old(acceptQueue) && retired == old(retired)
      ensures !old(closed) && f.StreamID in old(streams) ==>
                var s := old(streams)[f.StreamID];
                && d == Routed && s.Absorbed(f) && s.SendUnchanged() && s.Valid() && Repr == old(Repr)
                && streams == (if s.closed then old(streams) - {f.StreamID} else old(streams))
                && retired == (if s.closed then old(retired) + {f.StreamID} else old(retired))
                && acceptQueue == old(acceptQueue)
      ensures !old(closed) && f.StreamID !in old(streams) && f.StreamID !in old(retired) ==>
                && d == Opened && |acceptQueue| == |old(acceptQueue)| + 1
                && var s := acceptQueue[|acceptQueue| - 1];
                && fresh(s) && s.id == f.StreamID && s.session == this && s.Valid() && s.OpenedBy(f)
                && acceptQueue == old(acceptQueue) + [s] && Repr == old(Repr) + {s}
                && streams == (if s.closed then old(streams) else old(streams)[f.StreamID := s])
                && retired == (if s.closed then old(retired) + {f.StreamID} else old(retired))
    {
      if closed {
        return Dropped;
      }
      if f.StreamID in streams {
        Route(streams[f.StreamID], f);
        return Routed;
      }
      if f.StreamID in retired {
        return Dropped;
      }
      var s := Admit(f);
      d := Opened;
    }

    /** A frame for stream `s` of the table goes into its receive buffer; the
        stream leaves the table once the frame ends it. */
    method Route(s: Stream, f: Frame)
      requires Valid() && f.StreamID in streams && streams[f.StreamID] == s
      modifies this`streams, this`retired, s`buf, s`pending, s`nextRecvSeq, s`received, s`closed, s`reset
      ensures Valid() && s.Valid() && Repr == old(Repr)
      ensures s.Absorbed(f)
      ensures streams == (if s.closed then old(streams) - {f.StreamID} else old(streams))
      ensures retired == (if s.closed then old(retired) + {f.StreamID} else old(retired))
    {
      var toBeClosed := s.RecvFrame(f);
      if toBeClosed {
        streams := streams - {f.StreamID};
        retired := retired + {f.StreamID};
      }
      StreamUpdated(s);
    }

    /** The first frame for an id never seen before creates the stream, puts the
        frame into its receive buffer and queues it for Accept; the stream is
        tabled while it is open and its id retired if the frame ended it. */
    method Admit(f: Frame) returns (s: Stream)
      requires Valid() && !closed && f.StreamID !in streams
      modifies this`streams, this`acceptQueue, this`retired, this`Repr
      ensures Valid()
      ensures fresh(s) && s.id == f.StreamID && s.session == this && s.Valid() && s.OpenedBy(f)
      ensures acceptQueue == old(acceptQueue) + [s] && Repr == old(Repr) + {s}
      ensures streams == (if s.closed then old(streams) else old(streams)[f.StreamID := s])
      ensures retired == (if s.closed then old(retired) + {f.StreamID} else old(retired))
    {
      s := Spawn(f);
      Enlist(s);
    }

    /** Takes a new stream into the session: it is queued for Accept, tabled
        while it is open, and its id retired if it has already ended. */
    method Enlist(s: Stream)
      requires Valid() && !closed && s !in Repr && s.session == this && s.Valid() && s.id !in streams
      modifies this`streams, this`acceptQueue, this`retired, this`Repr
      ensures Valid()
      ensures acceptQueue == old(acceptQueue) + [s] && Repr == old(Repr) + {s}
      ensures streams == (if s.closed then old(streams) else old(streams)[s.id := s])
      ensures retired == (if s.closed then old(retired) + {s.id} else old(retired))
    {
      if s.closed {
        retired := retired + {s.id};
      } else {
        streams := streams[s.id := s];
      }
      acceptQueue := acceptQueue + [s];
      Repr := Repr + {s};
    }

    /** A new stream of this session that has taken in its first frame. */
    method Spawn(f: Frame) returns (s: Stream)
      ensures fresh(s) && s.id == f.StreamID && s.session == this
      ensures s.Valid() && s.OpenedBy(f)
    {
      s := new Stream(this, f.StreamID);
      var toBeClosed := s.RecvFrame(f);
      if f.Closing != ClosingReset {
        assert map[][f.Seq := f] == map[f.Seq := f];
        SingleFrame(f, s.pending, s.nextRecvSeq, s.consumed + s.buf);
      }
    }

    /** Closes the session: every stream of the session is marked closed (its
        buffered data stays readable), the table and the accept queue are
        emptied, and later `OpenStream`/`Accept` calls fail. Idempotent. */
    method Close()
      requires Valid()
      modifies this`closed, this`streams, this`acceptQueue, this`retired, Repr`closed
      ensures Valid() && closed && streams == map[] && acceptQueue == []
      ensures retired == old(retired) + old(streams).Keys
      ensures forall s :: s in Repr ==> s.closed
    {
      if closed {
        return;
      }
      ShutAll();
      Clear();
    }

    /** Marks the session closed and forgets its table and accept queue; the
        ids of the tabled streams are retired. */
    method Clear()
      requires maxFramePayload > 0 && forall s :: s in Repr ==> s.session == this && s.Valid() && s.closed
      modifies this`closed, this`streams, this`acceptQueue, this`retired
      ensures Valid() && closed && streams == map[] && acceptQueue == []
      ensures retired == old(retired) + old(streams).Keys
    {
      retired := retired + streams.Keys;
      closed, streams, acceptQueue := true, map[], [];
    }

    /** Marks every stream in the table closed; as every open stream is in
        the table, afterwards every stream of the session is closed. */
    method ShutAll()
      requires forall k :: k in streams ==> streams[k] in Repr
      requires forall s :: s in Repr ==> s.Valid()
      requires forall s :: s in Repr && !s.closed ==> s.id in streams && streams[s.id] == s
      modifies Repr`closed
      ensures forall s :: s in Repr ==> s.Valid() && s.closed
    {
      var ids := streams.Keys;
      while ids != {}
        invariant ids <= streams.Keys
        invariant forall s :: s in Repr ==> s.Valid()
        invariant forall s :: s in Repr && !s.closed ==> s.id in ids && streams[s.id] == s
        decreases ids
      {
        var k :| k in ids;
        ShutOne(streams[k]);
        ids := ids - {k};
      }
    }

    /** Marks one stream of the session closed; every stream stays valid. */
    method ShutOne(s: Stream)
      requires s in Repr && forall t :: t in Repr ==> t.Valid()
      modifies s`closed
      ensures s.closed && forall t :: t in Repr ==> t.Valid()
    {
      s.Shut();
    }
  }

  /** The session stays valid when one of its streams changes in a way that
      keeps that stream valid, the other streams are untouched, and the table
      changes only by losing the stream's own entry when the stream closes. */
  twostate lemma StreamUpdated(st: Stream)
    requires old(st.session.Valid()) && st in old(st.session.Repr)
    requires st.session.Repr == old(st.session.Repr) && st.session.acceptQueue == old(st.session.acceptQueue)
    requires st.session.closed == old(st.session.closed)
    requires forall s :: s in st.session.Repr && s != st ==> unchanged(s)
    requires st.Valid() && (old(st.closed) ==> st.closed)
    requires st.session.streams ==
               if st.closed && !old(st.closed) then old(st.session.streams) - {st.id} else old(st.session.streams)
    ensures st.session.Valid()
  {
  }

  /** The peer reads everything a stream wrote before its close: once every
      frame the sender sent, including its closing frame, has reached the
      receiving stream (in whatever order), the receiver is closed and the
      bytes it has returned and still holds are exactly the bytes written. */
  lemma PeerReceivesAll(sender: Stream, receiver: Stream)
    requires sender.Valid() && receiver.Valid() && !receiver.reset
    requires sender.finSent
    requires forall i :: 0 <= i < |sender.sentFrames| ==>
               i in receiver.received && receiver.received[i] == sender.sentFrames[i]
    ensures receiver.closed
    ensures receiver.consumed + receiver.buf == DataBytes(sender.sentFrames)
  {
    CloseAfterData(receiver.received, receiver.pending, receiver.nextRecvSeq,
                   receiver.consumed + receiver.buf, sender.sentFrames);
  }

  /** A stream's closing frame carries a higher sequence number than every frame
      it sent before. */
  lemma CloseFollowsWrites(s: Stream)
    requires s.Valid() && s.finSent
    ensures forall i :: 0 <= i < |s.sentFrames| - 1 ==>
              s.sentFrames[i].Closing == ClosingNothing
              && s.sentFrames[i].Seq < s.sentFrames[|s.sentFrames| - 1].Seq
  {
  }
}
