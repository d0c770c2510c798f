/** The ordered receive buffer of a stream, as values. Frames are held by
    sequence number in `pending`; `next` is the lowest sequence number not yet
    released. Data frames are released while they are contiguous from `next`;
    a closing frame reached in order stays at `next` and ends the stream.

    `received` is the history of every frame accepted into the buffer, keyed by
    sequence number, and `delivered` the bytes released so far. `Buffered` ties
    them together; `Settled` says nothing more can be released. A settled
    buffer is determined by `received` alone (SettledStateUnique), which is why
    the order in which frames arrive does not matter. */
module Reorder {
  import opened Frames

  /** Every sequence number below `n` has arrived. */
  ghost predicate HasPrefix(received: map<nat, Frame>, n: nat)
  {
    forall s: nat :: s < n ==> s in received
  }

  /** The payloads of frames 0 .. n-1, in sequence order. */
  ghost function Assemble(received: map<nat, Frame>, n: nat): seq<byte>
    requires HasPrefix(received, n)
  {
    if n == 0 then [] else Assemble(received, n - 1) + received[n - 1].Payload
  }

  ghost predicate Buffered(received: map<nat, Frame>, pending: map<nat, Frame>, next: nat, delivered: seq<byte>)
  {
    && (forall s :: s in received ==> received[s].Seq == s)
    && (forall s: nat :: s < next ==> s in received && received[s].Closing == ClosingNothing)
    && (forall s :: s in pending ==> next <= s && s in received && pending[s] == received[s])
    && (forall s :: s in received ==> s < next || s in pending)
    && delivered == Assemble(received, next)
  }

  /** Releases, in sequence order, the data frames held contiguously from
      `next`, appending their payloads to `out`; stops at a gap or at the
      closing frame. The result is settled and still consistent with the
      frames received. */
  method Drain(ghost received: map<nat, Frame>, held: map<nat, Frame>, next: nat,
               ghost consumed: seq<byte>, out: seq<byte>)
    returns (held': map<nat, Frame>, next': nat, out': seq<byte>)
    requires Buffered(received, held, next, consumed + out)
    ensures Buffered(received, held', next', consumed + out') && Settled(held', next')
    ensures out <= out' && next <= next'
  {
    held', next', out' := held, next, out;
    ghost var delivered := consumed + out;
    while next' in held' && held'[next'].Closing == ClosingNothing
      invariant Buffered(received, held', next', delivered)
      invariant delivered == consumed + out'
      invariant out <= out' && next <= next'
      decreases |held'|
    {
      var g := held'[next'];
      ReleaseOne(received, held', next', delivered);
      held', next', out', delivered := held' - {next'}, next' + 1, out' + g.Payload, delivered + g.Payload;
    }
  }

  /** No data frame waits at `next`: either nothing is there or the closing frame is. */
  predicate Settled(pending: map<nat, Frame>, next: nat)
  {
    next in pending ==> pending[next].Closing != ClosingNothing
  }

  /** Frames at or beyond `n` do not affect the bytes of frames below `n`. */
  lemma {:induction false} AssembleUpdateAbove(received: map<nat, Frame>, k: nat, f: Frame, n: nat)
    requires HasPrefix(received, n) && n <= k
    ensures HasPrefix(received[k := f], n)
    ensures Assemble(received[k := f], n) == Assemble(received, n)
  {
    if n > 0 {
      AssembleUpdateAbove(received, k, f, n - 1);
      assert received[k := f][n - 1] == received[n - 1];
    }
  }

  /** The bytes of a shorter prefix of frames are a prefix of the bytes of a longer one. */
  lemma {:induction false} AssemblePrefix(received: map<nat, Frame>, m: nat, n: nat)
    requires m <= n && HasPrefix(received, n)
    ensures Assemble(received, m) <= Assemble(received, n)
  {
    if m < n {
      AssemblePrefix(received, m, n - 1);
      var a, b := Assemble(received, m), Assemble(received, n - 1);
      assert Assemble(received, n) == b + received[n - 1].Payload;
      assert (b + received[n - 1].Payload)[..|a|] == b[..|a|];
    }
  }

  /** If frames 0 .. n-1 are the data frames `frames[..n]`, their bytes are the
      data bytes of those frames. */
  lemma {:induction false} AssembleOf(received: map<nat, Frame>, frames: seq<Frame>, n: nat)
    requires n <= |frames|
    requires forall i :: 0 <= i < n ==> i in received && received[i] == frames[i]
    requires forall i :: 0 <= i < n ==> frames[i].Closing == ClosingNothing
    ensures HasPrefix(received, n)
    ensures Assemble(received, n) == DataBytes(frames[..n])
  {
    if n > 0 {
      AssembleOf(received, frames, n - 1);
      assert frames[..n] == frames[..n - 1] + [frames[n - 1]];
      DataBytesConcat(frames[..n - 1], [frames[n - 1]]);
      assert [frames[n - 1]][1..] == [];
    }
  }

  /** A buffer starts empty. */
  lemma EmptyBuffered()
    ensures Buffered(map[], map[], 0, []) && Settled(map[], 0)
  {
  }

  /** Accepting a new frame at or beyond `next` keeps the buffer consistent
      (before it is drained again). */
  lemma InsertKeepsBuffered(received: map<nat, Frame>, pending: map<nat, Frame>, next: nat,
                            delivered: seq<byte>, f: Frame)
    requires Buffered(received, pending, next, delivered)
    requires next <= f.Seq && f.Seq !in pending
    ensures Buffered(received[f.Seq := f], pending[f.Seq := f], next, delivered)
  {
    AssembleUpdateAbove(received, f.Seq, f, next);
  }

  /** Releasing the data frame at `next` moves it from the buffer to the output;
      this keeps the buffer consistent. */
  lemma ReleaseOne(received: map<nat, Frame>, pending: map<nat, Frame>, next: nat, delivered: seq<byte>)
    requires Buffered(received, pending, next, delivered)
    requires next in pending && pending[next].Closing == ClosingNothing
    ensures Buffered(received, pending - {next}, next + 1, delivered + pending[next].Payload)
  {
    var smaller := pending - {next};
    assert forall s: nat :: s < next + 1 ==> s in received && received[s].Closing == ClosingNothing by {
      forall s: nat | s < next + 1 ensures s in received && received[s].Closing == ClosingNothing {
        if s == next {
          assert pending[next] == received[next];
        }
      }
    }
    assert forall s :: s in smaller ==> next + 1 <= s && s in received && smaller[s] == received[s];
    assert forall s :: s in received ==> s < next + 1 || s in smaller;
    assert Assemble(received, next + 1) == delivered + received[next].Payload;
  }

  /** In a settled buffer the frame at `next`, if it has arrived, is the closing frame. */
  lemma NothingToRelease(received: map<nat, Frame>, pending: map<nat, Frame>, next: nat, delivered: seq<byte>)
    requires Buffered(received, pending, next, delivered) && Settled(pending, next)
    ensures next in received ==> next in pending && received[next].Closing != ClosingNothing
  {
  }

  /** Arrival order does not matter: the frames received determine the settled
      state of the buffer completely. */
  lemma SettledStateUnique(received: map<nat, Frame>,
                           p1: map<nat, Frame>, n1: nat, d1: seq<byte>,
                           p2: map<nat, Frame>, n2: nat, d2: seq<byte>)
    requires Buffered(received, p1, n1, d1) && Settled(p1, n1)
    requires Buffered(received, p2, n2, d2) && Settled(p2, n2)
    ensures n1 == n2 && p1 == p2 && d1 == d2
  {
    NothingToRelease(received, p1, n1, d1);
    NothingToRelease(received, p2, n2, d2);
    assert p1.Keys == p2.Keys;
  }

  /** In-order delivery: once data frames 0 .. |frames|-1 have all arrived, in
      whatever order, the buffer has released past them and its output begins
      with their payloads in sequence order. */
  lemma InOrderDelivery(received: map<nat, Frame>, pending: map<nat, Frame>, next: nat,
                        delivered: seq<byte>, frames: seq<Frame>)
    requires Buffered(received, pending, next, delivered) && Settled(pending, next)
    requires forall i :: 0 <= i < |frames| ==> i in received && received[i] == frames[i]
    requires forall i :: 0 <= i < |frames| ==> frames[i].Closing == ClosingNothing
    ensures |frames| <= next
    ensures DataBytes(frames) <= delivered
  {
    NothingToRelease(received, pending, next, delivered);
    AssembleOf(received, frames, |frames|);
    assert frames[..|frames|] == frames;
    AssemblePrefix(received, |frames|, next);
  }

  /** Close after data: when every frame a stream sent has arrived, data frames
      followed by one closing frame, the buffer has released all the data and
      then reached the closing frame, so the reader sees every written byte
      before the end of the stream. */
  lemma CloseAfterData(received: map<nat, Frame>, pending: map<nat, Frame>, next: nat,
                       delivered: seq<byte>, frames: seq<Frame>)
    requires Buffered(received, pending, next, delivered) && Settled(pending, next)
    requires |frames| > 0
    requires forall i :: 0 <= i < |frames| ==> i in received && received[i] == frames[i]
    requires forall i :: 0 <= i < |frames| - 1 ==> frames[i].Closing == ClosingNothing
    requires frames[|frames| - 1].Closing != ClosingNothing
    ensures next == |frames| - 1
    ensures next in pending && pending[next].Closing != ClosingNothing
    ensures delivered == DataBytes(frames)
  {
    var n := |frames| - 1;
    PrefixArrived(received, frames, n);
    InOrderDelivery(received, pending, next, delivered, frames[..n]);
    NothingToRelease(received, pending, next, delivered);
    AssembleOf(received, frames, n);
    DataBytesDropControl(frames);
  }

  /** The first `n` frames of a run that has fully arrived have arrived. */
  lemma PrefixArrived(received: map<nat, Frame>, frames: seq<Frame>, n: nat)
    requires n <= |frames|
    requires forall i :: 0 <= i < |frames| ==> i in received && received[i] == frames[i]
    ensures forall i :: 0 <= i < |frames[..n]| ==> i in received && received[i] == frames[..n][i]
  {
  }

  /** Everything sent has arrived: when exactly the data frames 0 .. |frames|-1
      have been received, all of them have been released, in sequence order,
      and nothing is held back. */
  lemma CompleteDelivery(received: map<nat, Frame>, pending: map<nat, Frame>, next: nat,
                         delivered: seq<byte>, frames: seq<Frame>)
    requires Buffered(received, pending, next, delivered) && Settled(pending, next)
    requires forall i :: 0 <= i < |frames| ==> i in received && received[i] == frames[i]
    requires forall i :: 0 <= i < |frames| ==> frames[i].Closing == ClosingNothing
    requires forall s :: s in received ==> s < |frames|
    ensures next == |frames| && pending == map[]
    ensures delivered == DataBytes(frames)
  {
    InOrderDelivery(received, pending, next, delivered, frames);
    assert next <= |frames| by {
      assert next > 0 ==> next - 1 in received;
    }
    AssembleOf(received, frames, |frames|);
    assert frames[..|frames|] == frames;
  }

  /** A data frame arriving at `next` into an emptied buffer is released at
      once: afterwards nothing is held, `next` has moved past it and its
      payload follows what was released before. */
  lemma InOrderArrival(received: map<nat, Frame>, next: nat, delivered: seq<byte>, f: Frame,
                       pending': map<nat, Frame>, next': nat, delivered': seq<byte>)
    requires Buffered(received, map[], next, delivered)
    requires f.Closing == ClosingNothing && f.Seq == next
    requires Buffered(received[next := f], pending', next', delivered') && Settled(pending', next')
    ensures pending' == map[] && next' == next + 1 && delivered' == delivered + f.Payload
  {
    InsertKeepsBuffered(received, map[], next, delivered, f);
    assert map[][next := f] == map[next := f];
    ReleaseOne(received[next := f], map[next := f], next, delivered);
    assert map[next := f] - {next} == map[];
    SettledStateUnique(received[next := f], pending', next', delivered', map[], next + 1, delivered + f.Payload);
  }

  /** The closing frame arriving after exactly the data frames below it: the
      buffer stops at it, so the stream ends, and nothing more is released. */
  lemma ClosingArrives(received: map<nat, Frame>, pending: map<nat, Frame>, next: nat, delivered: seq<byte>,
                       f: Frame, pending': map<nat, Frame>, next': nat, delivered': seq<byte>)
    requires Buffered(received, pending, next, delivered) && Settled(pending, next)
    requires forall k :: k in received ==> k < f.Seq
    requires forall k: nat :: k < f.Seq ==> k in received
    requires forall k :: k in received ==> received[k].Closing == ClosingNothing
    requires f.Closing != ClosingNothing
    requires Buffered(received[f.Seq := f], pending', next', delivered') && Settled(pending', next')
    ensures next' == f.Seq && next' in pending' && delivered' == delivered
  {
    NothingToRelease(received, pending, next, delivered);
    assert next <= f.Seq;
    assert f.Seq !in received;
    AssembleUpdateAbove(received, f.Seq, f, next);
  }

  /** A single frame: a data frame 0 has its payload released; a closing
      frame 0 is reached at once and ends the stream; any later frame is held
      and nothing is released. */
  lemma SingleFrame(f: Frame, pending: map<nat, Frame>, next: nat, delivered: seq<byte>)
    requires Buffered(map[f.Seq := f], pending, next, delivered) && Settled(pending, next)
    ensures delivered == if f.Closing == ClosingNothing && f.Seq == 0 then f.Payload else []
    ensures next in pending <==> f.Closing != ClosingNothing && f.Seq == 0
  {
    var received := map[f.Seq := f];
    NothingToRelease(received, pending, next, delivered);
    if f.Seq == 0 && f.Closing == ClosingNothing {
      CompleteDelivery(received, pending, next, delivered, [f]);
      assert DataBytes([f]) == f.Payload + DataBytes([]);
    } else if f.Seq == 0 {
      assert received[0].Closing != ClosingNothing;
    } else {
      assert 0 !in received;
    }
  }
}
