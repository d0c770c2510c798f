/** The wire unit of the multiplexer: a frame carries a stream id, a per-stream
    sequence number, a closing flag and a payload. This module also describes
    how a write is cut into frames and which bytes a run of frames carries. */
module Frames {

  type byte = x: int | 0 <= x < 0x100
  type uint8 = x: int | 0 <= x < 0x100
  type uint32 = x: int | 0 <= x < 0x1_0000_0000

  const Uint32Modulus: int := 0x1_0000_0000

  /** Values of the closing flag. */
  const ClosingNothing: uint8 := 0  // a data frame
  const ClosingStream: uint8 := 1   // graceful close: no more data follows
  const ClosingReset: uint8 := 2    // abrupt reset: buffered data is discarded

  /** Field order as in the positional literal `&Frame{1, 0, 0, payload}`.
      `Seq` is an unbounded counter here; the 64-bit limit is never reached. */
  datatype Frame = Frame(StreamID: uint32, Seq: nat, Closing: uint8, Payload: seq<byte>)

  /** Concatenation of a sequence of byte strings. */
  function Flatten(chunks: seq<seq<byte>>): seq<byte>
  {
    if chunks == [] then [] else chunks[0] + Flatten(chunks[1..])
  }

  /** The payloads a write of `data` is cut into when a frame holds at most
      `max` payload bytes: full pieces of `max` bytes and a last, shorter one. */
  function Chunks(data: seq<byte>, max: nat): seq<seq<byte>>
    requires max > 0
    decreases |data|
  {
    if data == [] then []
    else if |data| <= max then [data]
    else [data[..max]] + Chunks(data[max..], max)
  }

  /** Every piece is non-empty and within the bound, the pieces put back
      together are `data`, and only empty data is sent as no frames at all. */
  lemma {:induction false} ChunksSpec(data: seq<byte>, max: nat)
    requires max > 0
    ensures var r := Chunks(data, max);
            && (forall i :: 0 <= i < |r| ==> 0 < |r[i]| <= max)
            && Flatten(r) == data
            && (data == [] <==> r == [])
    decreases |data|
  {
    if |data| > max {
      ChunksSpec(data[max..], max);
      var r := Chunks(data, max);
      var tail := Chunks(data[max..], max);
      assert r == [data[..max]] + tail;
      assert r[1..] == tail;
      assert data[..max] + data[max..] == data;
    } else if data != [] {
      assert Flatten([data]) == data + Flatten([]);
    }
  }

  /** Cuts `data` into frames of stream `id` holding at most `max` payload
      bytes each, numbered from `first`. */
  method Packetize(id: uint32, first: nat, data: seq<byte>, max: nat) returns (frames: seq<Frame>)
    requires max > 0
    ensures frames == DataFrames(id, first, Chunks(data, max))
  {
    frames := [];
    var n, next := 0, first;
    while n < |data|
      invariant n <= |data|
      invariant frames + DataFrames(id, next, Chunks(data[n..], max)) == DataFrames(id, first, Chunks(data, max))
      decreases |data| - n
    {
      var chunk := if |data| - n <= max then data[n..] else data[n..n + max];
      PacketizeStep(id, first, data, max, n, frames, next);
      frames := frames + [Frame(id, next, ClosingNothing, chunk)];
      n, next := n + |chunk|, next + 1;
    }
    assert data[n..] == [];
  }

  /** One iteration of Packetize: sending the first piece of the rest as the
      frame numbered `next` leaves the frames still to send for the remainder. */
  lemma PacketizeStep(id: uint32, first: nat, data: seq<byte>, max: nat, n: nat, frames: seq<Frame>, next: nat)
    requires max > 0 && n < |data|
    requires frames + DataFrames(id, next, Chunks(data[n..], max)) == DataFrames(id, first, Chunks(data, max))
    ensures var chunk := if |data| - n <= max then data[n..] else data[n..n + max];
            (frames + [Frame(id, next, ClosingNothing, chunk)])
            + DataFrames(id, next + 1, Chunks(data[n + |chunk|..], max))
            == DataFrames(id, first, Chunks(data, max))
  {
    var chunk := if |data| - n <= max then data[n..] else data[n..n + max];
    var rest := Chunks(data[n + |chunk|..], max);
    ChunksStep(data, n, max);
    DataFramesCons(id, next, chunk, rest);
  }

  /** One step of the cutting: the first piece of `data[n..]` is at most
      `max` bytes long and the rest is cut the same way. */
  lemma ChunksStep(data: seq<byte>, n: nat, max: nat)
    requires max > 0 && n < |data|
    ensures var chunk := if |data| - n <= max then data[n..] else data[n..n + max];
            Chunks(data[n..], max) == [chunk] + Chunks(data[n + |chunk|..], max)
  {
    var d := data[n..];
    if |d| > max {
      assert d[..max] == data[n..n + max];
      assert d[max..] == data[n + max..];
      assert Chunks(d, max) == [d[..max]] + Chunks(d[max..], max);
    } else {
      assert data[|data|..] == [];
      assert Chunks(d, max) == [d];
    }
  }

  /** The frames for a first chunk followed by more chunks. */
  lemma DataFramesCons(id: uint32, first: nat, c: seq<byte>, rest: seq<seq<byte>>)
    ensures DataFrames(id, first, [c] + rest) == [Frame(id, first, ClosingNothing, c)] + DataFrames(id, first + 1, rest)
  {
    assert ([c] + rest)[1..] == rest;
  }

  /** The data frames stream `id` sends for `chunks`, numbered from `first`. */
  function DataFrames(id: uint32, first: nat, chunks: seq<seq<byte>>): (r: seq<Frame>)
    ensures |r| == |chunks|
    decreases |chunks|
  {
    if chunks == [] then []
    else [Frame(id, first, ClosingNothing, chunks[0])] + DataFrames(id, first + 1, chunks[1..])
  }

  /** Frame `i` of the run carries chunk `i` under sequence number `first + i`. */
  lemma {:induction false} DataFramesShape(id: uint32, first: nat, chunks: seq<seq<byte>>)
    ensures forall i :: 0 <= i < |chunks| ==>
              DataFrames(id, first, chunks)[i] == Frame(id, first + i, ClosingNothing, chunks[i])
    decreases |chunks|
  {
    if chunks != [] {
      DataFramesShape(id, first + 1, chunks[1..]);
    }
  }

  /** The bytes a run of frames carries as data: the payloads of its data
      frames, in order; control frames carry no data. */
  function DataBytes(frames: seq<Frame>): seq<byte>
  {
    if frames == [] then []
    else (if frames[0].Closing == ClosingNothing then frames[0].Payload else [])
         + DataBytes(frames[1..])
  }

  lemma {:induction false} DataBytesConcat(a: seq<Frame>, b: seq<Frame>)
    ensures DataBytes(a + b) == DataBytes(a) + DataBytes(b)
  {
    if a == [] {
      assert a + b == b;
    } else {
      assert (a + b)[1..] == a[1..] + b;
      DataBytesConcat(a[1..], b);
    }
  }

  /** The data frames made from `chunks` carry exactly the chunks' bytes. */
  lemma {:induction false} DataBytesOfDataFrames(id: uint32, first: nat, chunks: seq<seq<byte>>)
    ensures DataBytes(DataFrames(id, first, chunks)) == Flatten(chunks)
    decreases |chunks|
  {
    if chunks != [] {
      var r := DataFrames(id, first, chunks);
      assert r[1..] == DataFrames(id, first + 1, chunks[1..]);
      DataBytesOfDataFrames(id, first + 1, chunks[1..]);
    }
  }

  /** A closing frame at the end of a run adds no data bytes. */
  lemma DataBytesDropControl(frames: seq<Frame>)
    requires |frames| > 0 && frames[|frames| - 1].Closing != ClosingNothing
    ensures DataBytes(frames) == DataBytes(frames[..|frames| - 1])
  {
    var n := |frames| - 1;
    assert frames == frames[..n] + [frames[n]];
    DataBytesControlSnoc(frames[..n], frames[n]);
  }

  /** A control frame adds no data bytes. */
  lemma DataBytesControlSnoc(frames: seq<Frame>, f: Frame)
    requires f.Closing != ClosingNothing
    ensures DataBytes(frames + [f]) == DataBytes(frames)
  {
    DataBytesConcat(frames, [f]);
    assert [f][1..] == [];
  }
}
