/**
 * Frame layout of `src/packets.rs`: the bytes `PacketEncoder::finalize`
 * produces, the header `PacketDecoder::new` reads, and the way
 * `PacketDecoder::new_batch` cuts one received buffer into frames.
 */
module Frames {
  import opened Wire
  import opened VarNum

  /** What a decoder reads from the front of a frame: the two VarInts and the cursor after each. */
  datatype Header = Header(length: I32, packetId: I32, lengthSize: nat, cursor: nat)

  /** A `PacketDecoder` as a value: its buffer, the header fields and the cursor `i`. */
  datatype Frame = Frame(buffer: seq<Byte>, packetId: I32, length: I32, cursor: nat)

  function HeaderAt(buf: seq<Byte>): (r: Result<Header>)
    ensures r.Ok? ==> 1 <= r.value.lengthSize < r.value.cursor <= |buf|
  {
    var len :- VarIntAt(buf, 0);
    var id :- VarIntAt(buf, len.next);
    Ok(Header(len.value, id.value, len.next, id.next))
  }

  /** The value of the length prefix: the packet id's VarInt plus the payload. */
  function FrameLength(packetId: nat, payload: seq<Byte>): nat
  {
    |VarIntBytes(packetId)| + |payload|
  }

  /** An uncompressed frame: `VarInt(length) ++ VarInt(packet id) ++ payload`. */
  function FrameBytes(packetId: nat, payload: seq<Byte>): seq<Byte>
  {
    VarIntBytes(FrameLength(packetId, payload)) + VarIntBytes(packetId) + payload
  }

  /** The decoder reads back the length and the id `finalize` wrote, and its cursor then stands at the payload. */
  lemma FrameRoundTrip(packetId: nat, payload: seq<Byte>, rest: seq<Byte>)
    requires packetId < TWO_31 && FrameLength(packetId, payload) < TWO_31
    ensures var n := FrameLength(packetId, payload);
            var lengthSize := |VarIntBytes(n)|;
            var cursor := lengthSize + |VarIntBytes(packetId)|;
            && HeaderAt(FrameBytes(packetId, payload) + rest) == Ok(Header(n, packetId, lengthSize, cursor))
            && FrameBytes(packetId, payload)[cursor..] == payload
            && |FrameBytes(packetId, payload)| == lengthSize + n
  {
    var n := FrameLength(packetId, payload);
    var lenBytes, idBytes := VarIntBytes(n), VarIntBytes(packetId);
    var frame := FrameBytes(packetId, payload);
    var buf := frame + rest;
    assert buf[..|lenBytes|] == lenBytes;
    VarIntDecodes(buf, 0, n, |lenBytes|);
    assert buf[|lenBytes|..|lenBytes| + |idBytes|] == idBytes;
    VarIntDecodes(buf, |lenBytes|, packetId, |lenBytes| + |idBytes|);
    assert frame[|lenBytes| + |idBytes|..] == payload;
  }

  /**
   * `new_batch` on a buffer: read the header; when more bytes remain than the
   * length prefix announces, cut the frame at `length_of_length + length` and
   * go on with the rest; otherwise the whole remainder is the last frame. A
   * negative length turns into a huge `usize` and so always ends the batch.
   */
  function SplitBatch(buf: seq<Byte>): Result<seq<Frame>>
    decreases |buf|
  {
    var h :- HeaderAt(buf);
    if 0 <= h.length && |buf| - h.lengthSize > h.length then
      var cut := h.lengthSize + h.length;
      Prefixed([Frame(buf[..cut], h.packetId, h.length, h.cursor)], SplitBatch(buf[cut..]))
    else
      Ok([Frame(buf, h.packetId, h.length, h.cursor)])
  }

  /** The frames found so far in front of the outcome of splitting the rest. */
  function Prefixed(fs: seq<Frame>, r: Result<seq<Frame>>): Result<seq<Frame>>
  {
    match r
    case Ok(gs) => Ok(fs + gs)
    case Err(e) => Err(e)
  }

  lemma PrefixedEmpty(r: Result<seq<Frame>>)
    ensures Prefixed([], r) == r
  {
    if r.Ok? {
      assert [] + r.value == r.value;
    }
  }

  function Concat(fs: seq<Frame>): seq<Byte>
  {
    if fs == [] then [] else fs[0].buffer + Concat(fs[1..])
  }

  /** The number of bytes of the length VarInt at the front of a buffer (zero when there is none). */
  function LengthPrefixSize(buf: seq<Byte>): nat
  {
    match VarNumAt(buf, 0, VARINT_MAX_BYTES)
    case Ok(n) => n.size
    case Err(_) => 0
  }

  /**
   * Splitting loses and reorders nothing: the frame buffers, in order, make up
   * the input, and every frame but the last is exactly its length prefix plus
   * the length it announces.
   */
  lemma {:induction false} SplitBatchPartition(buf: seq<Byte>)
    requires SplitBatch(buf).Ok?
    ensures var fs := SplitBatch(buf).value;
            && |fs| >= 1
            && Concat(fs) == buf
            && forall k :: 0 <= k < |fs| - 1 ==>
                 0 <= fs[k].length && |fs[k].buffer| == LengthPrefixSize(fs[k].buffer) + fs[k].length
    decreases |buf|
  {
    var h := HeaderAt(buf).value;
    if 0 <= h.length && |buf| - h.lengthSize > h.length {
      var cut := h.lengthSize + h.length;
      var first := Frame(buf[..cut], h.packetId, h.length, h.cursor);
      assert buf[..cut] + buf[cut..] == buf;
      SplitBatchCut(buf[..cut], buf[cut..], h);
      SplitBatchPartition(buf[cut..]);
      var rest := SplitBatch(buf[cut..]).value;
      var fs := [first] + rest;
      assert SplitBatch(buf).value == fs;
      ConcatCons(first, rest);
      FirstFramePrefix(buf, h, cut);
      forall k | 0 <= k < |fs| - 1
        ensures 0 <= fs[k].length && |fs[k].buffer| == LengthPrefixSize(fs[k].buffer) + fs[k].length
      {
        if k > 0 {
          assert fs[k] == rest[k - 1];
        }
      }
    } else {
      assert Concat([Frame(buf, h.packetId, h.length, h.cursor)]) == buf + [];
    }
  }

  lemma ConcatCons(f: Frame, fs: seq<Frame>)
    ensures Concat([f] + fs) == f.buffer + Concat(fs)
  {
    assert ([f] + fs)[1..] == fs;
  }

  /** A frame cut off at its announced end still starts with the length prefix of the whole buffer. */
  lemma FirstFramePrefix(buf: seq<Byte>, h: Header, cut: nat)
    requires HeaderAt(buf) == Ok(h) && cut == h.lengthSize + h.length && h.lengthSize <= cut <= |buf|
    ensures |buf[..cut]| == LengthPrefixSize(buf[..cut]) + h.length
  {
    VarNumOnPrefix(buf, cut, 0, VARINT_MAX_BYTES);
  }

  /** An outgoing packet: the id its encoder was created with and the payload written into it. */
  datatype RawPacket = RawPacket(packetId: nat, payload: seq<Byte>)

  predicate Sendable(p: RawPacket)
  {
    p.packetId < TWO_31 && FrameLength(p.packetId, p.payload) < TWO_31
  }

  /** Finalized frames sent back to back, as the peer's socket may deliver them in one read. */
  function Batch(ps: seq<RawPacket>): seq<Byte>
  {
    if ps == [] then [] else FrameBytes(ps[0].packetId, ps[0].payload) + Batch(ps[1..])
  }

  /** The frame a finalized packet becomes once the decoder has read its header. */
  function SentFrame(p: RawPacket): Frame
    requires Sendable(p)
  {
    var n := FrameLength(p.packetId, p.payload);
    Frame(FrameBytes(p.packetId, p.payload), p.packetId, n, |VarIntBytes(n)| + |VarIntBytes(p.packetId)|)
  }

  /** The header of a finalized frame leaves the decoder's cursor at the start of the payload. */
  lemma SentFrameCursor(p: RawPacket)
    requires Sendable(p)
    ensures SentFrame(p).cursor <= |SentFrame(p).buffer|
    ensures SentFrame(p).buffer[SentFrame(p).cursor..] == p.payload
  {
    FrameRoundTrip(p.packetId, p.payload, []);
  }

  /** A header announcing fewer bytes than follow it cuts the frame off and splitting goes on with the rest. */
  lemma SplitBatchCut(front: seq<Byte>, tail: seq<Byte>, h: Header)
    requires HeaderAt(front + tail) == Ok(h) && 0 <= h.length && h.lengthSize + h.length == |front| && tail != []
    ensures SplitBatch(front + tail) == Prefixed([Frame(front, h.packetId, h.length, h.cursor)], SplitBatch(tail))
  {
    assert (front + tail)[..|front|] == front && (front + tail)[|front|..] == tail;
  }

  /**
   * A header announcing at least the bytes that follow it, or a negative
   * length, makes the whole buffer the last frame, even a partial one.
   */
  lemma SplitBatchWhole(buf: seq<Byte>, h: Header)
    requires HeaderAt(buf) == Ok(h) && (h.length < 0 || h.lengthSize + h.length >= |buf|)
    ensures SplitBatch(buf) == Ok([Frame(buf, h.packetId, h.length, h.cursor)])
  {
  }

  /** The header of a finalized frame, whatever follows it. */
  lemma SentHeader(p: RawPacket, tail: seq<Byte>) returns (h: Header)
    requires Sendable(p)
    ensures HeaderAt(FrameBytes(p.packetId, p.payload) + tail) == Ok(h)
    ensures 0 <= h.length && h.lengthSize + h.length == |FrameBytes(p.packetId, p.payload)|
    ensures Frame(FrameBytes(p.packetId, p.payload), h.packetId, h.length, h.cursor) == SentFrame(p)
  {
    FrameRoundTrip(p.packetId, p.payload, tail);
    var n := FrameLength(p.packetId, p.payload);
    h := Header(n, p.packetId, |VarIntBytes(n)|, |VarIntBytes(n)| + |VarIntBytes(p.packetId)|);
  }

  /** A finalized frame alone in the buffer is the only frame. */
  lemma SplitLastFrame(p: RawPacket)
    requires Sendable(p)
    ensures SplitBatch(FrameBytes(p.packetId, p.payload)) == Ok([SentFrame(p)])
  {
    var frame := FrameBytes(p.packetId, p.payload);
    var h := SentHeader(p, []);
    assert frame + [] == frame;
    SplitBatchWhole(frame, h);
  }

  /** One step of splitting: a finalized frame at the front is cut off exactly, whatever follows it. */
  lemma SplitFirstFrame(p: RawPacket, tail: seq<Byte>)
    requires Sendable(p) && tail != []
    ensures SplitBatch(FrameBytes(p.packetId, p.payload) + tail) == Prefixed([SentFrame(p)], SplitBatch(tail))
  {
    var h := SentHeader(p, tail);
    SplitBatchCut(FrameBytes(p.packetId, p.payload), tail, h);
  }

  /** The frames the decoder should find for finalized packets sent back to back. */
  function SentFrames(ps: seq<RawPacket>): (fs: seq<Frame>)
    requires forall k :: 0 <= k < |ps| ==> Sendable(ps[k])
    ensures |fs| == |ps| && forall k :: 0 <= k < |ps| ==> fs[k] == SentFrame(ps[k])
  {
    if ps == [] then [] else [SentFrame(ps[0])] + SentFrames(ps[1..])
  }

  lemma {:induction false} SplitBackToBackFrames(ps: seq<RawPacket>)
    requires |ps| >= 1 && forall k :: 0 <= k < |ps| ==> Sendable(ps[k])
    ensures SplitBatch(Batch(ps)) == Ok(SentFrames(ps))
    decreases |ps|
  {
    var tail := Batch(ps[1..]);
    assert Batch(ps) == FrameBytes(ps[0].packetId, ps[0].payload) + tail;
    assert SentFrames(ps) == [SentFrame(ps[0])] + SentFrames(ps[1..]);
    if |ps| > 1 {
      assert Batch(ps[1..]) == FrameBytes(ps[1].packetId, ps[1].payload) + Batch(ps[2..]);
      SplitFirstFrame(ps[0], tail);
      SplitBackToBackFrames(ps[1..]);
    } else {
      assert ps[1..] == [];
      assert Batch(ps) == FrameBytes(ps[0].packetId, ps[0].payload) && SentFrames(ps) == [SentFrame(ps[0])];
      SplitLastFrame(ps[0]);
    }
  }

  /**
   * A buffer of finalized frames sent back to back splits into exactly those
   * frames, in order: each with its id, its own bytes, and its cursor at the
   * start of its payload.
   */
  lemma SplitBackToBack(ps: seq<RawPacket>)
    requires |ps| >= 1 && forall k :: 0 <= k < |ps| ==> Sendable(ps[k])
    ensures SplitBatch(Batch(ps)).Ok?
    ensures var fs := SplitBatch(Batch(ps)).value;
            && |fs| == |ps|
            && forall k :: 0 <= k < |ps| ==>
                 && fs[k].packetId == ps[k].packetId
                 && fs[k].length == FrameLength(ps[k].packetId, ps[k].payload)
                 && fs[k].buffer == FrameBytes(ps[k].packetId, ps[k].payload)
                 && fs[k].cursor <= |fs[k].buffer|
                 && fs[k].buffer[fs[k].cursor..] == ps[k].payload
  {
    SplitBackToBackFrames(ps);
    forall k | 0 <= k < |ps|
      ensures SentFrame(ps[k]).cursor <= |SentFrame(ps[k]).buffer|
      ensures SentFrame(ps[k]).buffer[SentFrame(ps[k]).cursor..] == ps[k].payload
    {
      SentFrameCursor(ps[k]);
    }
  }
}
