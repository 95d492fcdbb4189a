/**
 * `src/packets.rs`: the connection states, the reading side (`PacketDecoder`,
 * a buffer with a cursor) and the writing side (`PacketEncoder`, a growing
 * buffer tagged with a packet id).
 *
 * Every read the source performs can panic on the bytes it is handed; here
 * each read returns a `Result` whose error names the panic, and its contract
 * ties it to a specification function on the buffer and the cursor.
 */
module Packets {
  import opened Wire
  import opened VarNum
  import opened Utf8
  import opened Frames
  import opened Wrappers

  datatype NetworkState = Handshaking | Status | Login | Play

  // ---------------------------------------------------------------- reads as functions

  function UByteRead(buf: seq<Byte>, pos: nat): Result<Read<Byte>>
  {
    if pos < |buf| then Ok(Read(buf[pos], pos + 1)) else Err(OutOfBounds)
  }

  function ByteRead(buf: seq<Byte>, pos: nat): Result<Read<I8>>
  {
    if pos < |buf| then Ok(Read(AsSigned(buf[pos], TWO_8), pos + 1)) else Err(OutOfBounds)
  }

  /** Only the byte 1 reads as `true`. */
  function BoolRead(buf: seq<Byte>, pos: nat): Result<Read<bool>>
  {
    if pos < |buf| then Ok(Read(buf[pos] == 1, pos + 1)) else Err(OutOfBounds)
  }

  function BytesRead(buf: seq<Byte>, pos: nat, n: nat): Result<Read<seq<Byte>>>
  {
    if pos + n <= |buf| then Ok(Read(buf[pos..pos + n], pos + n)) else Err(OutOfBounds)
  }

  function LongRead(buf: seq<Byte>, pos: nat): Result<Read<I64>>
  {
    if pos + 8 <= |buf| then Ok(Read(LongAt(buf, pos), pos + 8)) else Err(OutOfBounds)
  }

  function IntRead(buf: seq<Byte>, pos: nat): Result<Read<I32>>
  {
    if pos + 4 <= |buf| then Ok(Read(IntAt(buf, pos), pos + 4)) else Err(OutOfBounds)
  }

  function UShortRead(buf: seq<Byte>, pos: nat): Result<Read<U16>>
  {
    if pos + 2 <= |buf| then Ok(Read(UShortAt(buf, pos), pos + 2)) else Err(OutOfBounds)
  }

  /**
   * `read_bytes(n as usize)` for a length taken off the wire: a negative `i32`
   * becomes a `usize` far beyond any buffer, so the slice panics.
   */
  function SizedBytesRead(buf: seq<Byte>, pos: nat, n: I32): Result<Read<seq<Byte>>>
  {
    if n < 0 then Err(OutOfBounds) else BytesRead(buf, pos, n)
  }

  /** `read_string`: a VarInt length, that many bytes, and the UTF-8 check of `String::from_utf8`. */
  function StringRead(buf: seq<Byte>, pos: nat): Result<Read<seq<Byte>>>
  {
    var len :- VarIntAt(buf, pos);
    var bytes :- SizedBytesRead(buf, len.next, len.value);
    if ValidUtf8(bytes.value) then Ok(bytes) else Err(InvalidUtf8)
  }

  /** The bytes `write_string` appends: the byte length as a VarInt, then the bytes. */
  function StringBytes(s: seq<Byte>): seq<Byte>
    requires |s| < TWO_31
  {
    VarIntBytes(|s|) + s
  }

  lemma SizedBytesDecodes(buf: seq<Byte>, pos: nat, x: seq<Byte>, next: nat)
    requires |x| < TWO_31 && SliceIs(buf, pos, x) && next == pos + |x|
    ensures SizedBytesRead(buf, pos, |x|) == Ok(Read(x, next))
  {
  }

  lemma UShortDecodes(buf: seq<Byte>, pos: nat, v: U16, next: nat)
    requires SliceIs(buf, pos, UShortBytes(v)) && next == pos + 2
    ensures UShortRead(buf, pos) == Ok(Read(v, next))
  {
    BigEndianRoundTrip(v, 2);
  }

  /** The string read where its length reads as `|s|` and the bytes after it are `s`: `s` itself, or the UTF-8 panic. */
  lemma StringFromReads(buf: seq<Byte>, pos: nat, s: seq<Byte>, p1: nat, next: nat)
    requires |s| < TWO_31
    requires VarIntAt(buf, pos) == Ok(Read(|s| as I32, p1))
    requires SizedBytesRead(buf, p1, |s|) == Ok(Read(s, next))
    ensures StringRead(buf, pos) == if ValidUtf8(s) then Ok(Read(s, next)) else Err(InvalidUtf8)
  {
  }

  /** The string at `pos` when the encoding of `s` sits there: `s` itself, or the UTF-8 panic. */
  lemma StringAtEncoding(buf: seq<Byte>, pos: nat, s: seq<Byte>, next: nat)
    requires |s| < TWO_31 && SliceIs(buf, pos, StringBytes(s)) && next == pos + |StringBytes(s)|
    ensures StringRead(buf, pos) == if ValidUtf8(s) then Ok(Read(s, next)) else Err(InvalidUtf8)
  {
    var lenBytes := VarIntBytes(|s|);
    SliceSplit(buf, pos, lenBytes, s);
    var p1 := pos + |lenBytes|;
    VarIntDecodes(buf, pos, |s|, p1);
    SizedBytesDecodes(buf, p1, s, next);
    StringFromReads(buf, pos, s, p1, next);
  }

  /** Reading a string back, at any offset, gives the string written and moves past exactly its bytes. */
  lemma StringRoundTrip(pre: seq<Byte>, s: seq<Byte>, post: seq<Byte>)
    requires |s| < TWO_31 && ValidUtf8(s)
    ensures StringRead(pre + StringBytes(s) + post, |pre|) == Ok(Read(s, |pre| + |StringBytes(s)|))
  {
    SliceOfConcat(pre, StringBytes(s), post);
    StringAtEncoding(pre + StringBytes(s) + post, |pre|, s, |pre| + |StringBytes(s)|);
  }

  /** A string whose bytes are not UTF-8 is refused, even when all its bytes are present. */
  lemma StringRejectsInvalid(pre: seq<Byte>, s: seq<Byte>, post: seq<Byte>)
    requires |s| < TWO_31 && !ValidUtf8(s)
    ensures StringRead(pre + StringBytes(s) + post, |pre|) == Err(InvalidUtf8)
  {
    SliceOfConcat(pre, StringBytes(s), post);
    StringAtEncoding(pre + StringBytes(s) + post, |pre|, s, |pre| + |StringBytes(s)|);
  }

  /** A declared string length longer than the bytes that follow is a panic, not a short string. */
  lemma StringTruncated(pre: seq<Byte>, n: nat, rest: seq<Byte>)
    requires n < TWO_31 && |rest| < n
    ensures StringRead(pre + VarIntBytes(n) + rest, |pre|) == Err(OutOfBounds)
  {
    VarIntRoundTrip(pre, n, rest);
  }

  // ---------------------------------------------------------------- decoder

  /** The reading side of a connection: one frame and a cursor into it. */
  class PacketDecoder {
    var buffer: seq<Byte>
    var packetId: I32
    var length: I32
    var i: nat

    function View(): Frame
      reads this
    {
      Frame(buffer, packetId, length, i)
    }

    constructor (buffer: seq<Byte>)
      ensures View() == Frame(buffer, 0, 0, 0)
    {
      this.buffer := buffer;
      packetId := 0;
      length := 0;
      i := 0;
    }

    /** `PacketDecoder::new`: read the length and the packet id, leaving the cursor on the payload. */
    static method New(buffer: seq<Byte>) returns (r: Result<PacketDecoder>)
      ensures r.Ok? ==> fresh(r.value)
      ensures HeaderAt(buffer).Err? ==> r == Err(HeaderAt(buffer).error)
      ensures HeaderAt(buffer).Ok? ==>
                var h := HeaderAt(buffer).value;
                r.Ok? && r.value.View() == Frame(buffer, h.packetId, h.length, h.cursor)
    {
      var decoder := new PacketDecoder(buffer);
      var _ :- decoder.ReadHeader();
      return Ok(decoder);
    }

    /**
     * The two reads that open both `new` and every turn of `new_batch`: the
     * length, then the packet id. Returns the size of the length prefix.
     */
    method ReadHeader() returns (r: Result<nat>)
      requires i == 0
      modifies this`length, this`packetId, this`i
      ensures HeaderAt(buffer).Err? ==> r == Err(HeaderAt(buffer).error)
      ensures HeaderAt(buffer).Ok? ==>
                var h := HeaderAt(buffer).value;
                r == Ok(h.lengthSize) && View() == Frame(buffer, h.packetId, h.length, h.cursor)
    {
      length :- ReadVarInt();
      var lengthOfLength := i;
      packetId :- ReadVarInt();
      return Ok(lengthOfLength);
    }

    /**
     * `PacketDecoder::new_batch`: cut a buffer holding several frames into one
     * decoder per frame, as `SplitBatch` describes.
     */
    static method NewBatch(buffer: seq<Byte>) returns (r: Result<seq<PacketDecoder>>)
      ensures SplitBatch(buffer) == if r.Ok? then Ok(Views(r.value)) else Err(r.error)
    {
      var decoders: seq<PacketDecoder> := [];
      var next := buffer;
      PrefixedEmpty(SplitBatch(next));
      while true
        invariant SplitBatch(buffer) == Prefixed(Views(decoders), SplitBatch(next))
        decreases |next|
      {
        var turn :- CutFrame(next);
        var (decoder, otherPackets) := turn;
        PrefixedAppend(Views(decoders), decoder.View(), if otherPackets.Some? then SplitBatch(otherPackets.value) else Ok([]));
        ViewsAppend(decoders, decoder);
        decoders := decoders + [decoder];
        if otherPackets.None? {
          return Ok(decoders);
        }
        next := otherPackets.value;
      }
    }

    /**
     * One turn of the `new_batch` loop: a decoder over the frame at the front
     * of `next`, and the bytes after it when the length prefix says the frame
     * ends before the buffer does.
     */
    static method CutFrame(next: seq<Byte>) returns (r: Result<(PacketDecoder, Option<seq<Byte>>)>)
      ensures r.Ok? ==> fresh(r.value.0)
      ensures r.Err? ==> SplitBatch(next) == Err(r.error)
      ensures r.Ok? && r.value.1.None? ==> SplitBatch(next) == Ok([r.value.0.View()])
      ensures r.Ok? && r.value.1.Some? ==>
                && |r.value.1.value| < |next|
                && SplitBatch(next) == Prefixed([r.value.0.View()], SplitBatch(r.value.1.value))
    {
      var decoder := new PacketDecoder(next);
      var lengthOfLength :- decoder.ReadHeader();
      var packetIdLength := decoder.i - lengthOfLength;

      if 0 <= decoder.length && |decoder.buffer| - lengthOfLength > decoder.length {
        var cut := decoder.length + decoder.i - packetIdLength;
        var newBuffer, otherPackets := decoder.buffer[..cut], decoder.buffer[cut..];
        decoder.buffer := newBuffer;
        return Ok((decoder, Some(otherPackets)));
      } else {
        return Ok((decoder, None));
      }
    }

    /** `read_ubyte` (and `read_byte() as u8`): the byte under the cursor. */
    method ReadUByte() returns (r: Result<Byte>)
      modifies this`i
      ensures r == Drop(UByteRead(buffer, old(i)))
      ensures r.Ok? ==> i == old(i) + 1
    {
      if i >= |buffer| {
        return Err(OutOfBounds);
      }
      i := i + 1;
      return Ok(buffer[i - 1]);
    }

    /** `read_byte`: the byte under the cursor as an `i8`. */
    method ReadByte() returns (r: Result<I8>)
      modifies this`i
      ensures r == Drop(ByteRead(buffer, old(i)))
      ensures r.Ok? ==> i == old(i) + 1
    {
      if i >= |buffer| {
        return Err(OutOfBounds);
      }
      i := i + 1;
      return Ok(AsSigned(buffer[i - 1], TWO_8));
    }

    method ReadBytes(n: nat) returns (r: Result<seq<Byte>>)
      modifies this`i
      ensures r == Drop(BytesRead(buffer, old(i), n))
      ensures r.Ok? ==> i == old(i) + n
    {
      if i + n > |buffer| {
        return Err(OutOfBounds);
      }
      var out := buffer[i..i + n];
      i := i + n;
      return Ok(out);
    }

    method ReadLong() returns (r: Result<I64>)
      modifies this`i
      ensures r == Drop(LongRead(buffer, old(i)))
      ensures r.Ok? ==> i == old(i) + 8
    {
      if i + 8 > |buffer| {
        return Err(OutOfBounds);
      }
      var out := LongAt(buffer, i);
      i := i + 8;
      return Ok(out);
    }

    method ReadInt() returns (r: Result<I32>)
      modifies this`i
      ensures r == Drop(IntRead(buffer, old(i)))
      ensures r.Ok? ==> i == old(i) + 4
    {
      if i + 4 > |buffer| {
        return Err(OutOfBounds);
      }
      var out := IntAt(buffer, i);
      i := i + 4;
      return Ok(out);
    }

    method ReadBool() returns (r: Result<bool>)
      modifies this`i
      ensures r == Drop(BoolRead(buffer, old(i)))
      ensures r.Ok? ==> i == old(i) + 1
    {
      if i >= |buffer| {
        return Err(OutOfBounds);
      }
      var out := buffer[i] == 1;
      i := i + 1;
      return Ok(out);
    }

    /**
     * The loop shared by `read_varint` and `read_varlong`: take bytes while bit
     * 7 is set, adding each low seven bits at the next group position (the
     * groups never overlap, so the source's `|=` is this sum), and panic when
     * a byte is read past `limit`.
     */
    method ReadVarNum(limit: nat) returns (r: Result<VarNum>)
      modifies this`i
      ensures r == VarNumAt(buffer, old(i), limit)
      ensures r.Ok? ==> i == old(i) + r.value.size
    {
      var numRead: nat := 0;
      var result: nat := 0;
      ghost var start := i;
      while true
        invariant numRead <= limit && i == start + numRead
        invariant numRead == 0 ==> result == 0
        invariant numRead > 0 ==> i <= |buffer| && result == GroupValue(buffer[start..i])
        invariant VarNumSize(buffer, start, limit, numRead) == VarNumSize(buffer, start, limit, 0)
        decreases limit - numRead
      {
        var read :- ReadUByte();
        GroupValueStep(buffer, start, numRead);
        result := result + read % 128 * Pow128(numRead);
        numRead := numRead + 1;
        if numRead > limit {
          return Err(VarIntTooBig);
        }
        if read < 128 {
          return Ok(VarNum(result, numRead));
        }
      }
    }

    /** `read_varint`: five bytes at most; bits shifted past the `i32` are lost. */
    method ReadVarInt() returns (r: Result<I32>)
      modifies this`i
      ensures r == Drop(VarIntAt(buffer, old(i)))
      ensures r.Ok? ==> i == VarIntAt(buffer, old(i)).value.next
    {
      var n :- ReadVarNum(VARINT_MAX_BYTES);
      return Ok(AsSigned(n.raw % TWO_32, TWO_32));
    }

    /** `read_varlong` as written: an `i64` accumulator, but the five-byte VarInt limit (see `VarLongOverFiveBytesRejected`). */
    method ReadVarLong() returns (r: Result<I64>)
      modifies this`i
      ensures r == Drop(VarLongAt(buffer, old(i)))
      ensures r.Ok? ==> i == VarLongAt(buffer, old(i)).value.next
    {
      var n :- ReadVarNum(VARINT_MAX_BYTES);
      return Ok(AsSigned(n.raw % TWO_64, TWO_64));
    }

    method ReadString() returns (r: Result<seq<Byte>>)
      modifies this`i
      ensures r == Drop(StringRead(buffer, old(i)))
      ensures r.Ok? ==> i == StringRead(buffer, old(i)).value.next
    {
      var length :- ReadVarInt();
      if length < 0 {
        return Err(OutOfBounds);
      }
      var bytes :- ReadBytes(length);
      if !ValidUtf8(bytes) {
        return Err(InvalidUtf8);
      }
      return Ok(bytes);
    }

    method ReadUShort() returns (r: Result<U16>)
      modifies this`i
      ensures r == Drop(UShortRead(buffer, old(i)))
      ensures r.Ok? ==> i == old(i) + 2
    {
      if i + 2 > |buffer| {
        return Err(OutOfBounds);
      }
      var out := UShortAt(buffer, i);
      i := i + 2;
      return Ok(out);
    }
  }

  /** One more byte read into the accumulated VarInt value. */
  lemma GroupValueStep(buf: seq<Byte>, start: nat, k: nat)
    requires start + k < |buf|
    ensures GroupValue(buf[start..start + k + 1]) == (if k == 0 then 0 else GroupValue(buf[start..start + k])) + buf[start + k] % 128 * Pow128(k)
  {
    GroupValueAppend(buf[start..start + k], buf[start + k]);
    assert buf[start..start + k + 1] == buf[start..start + k] + [buf[start + k]];
  }

  lemma PrefixedAppend(fs: seq<Frame>, f: Frame, r: Result<seq<Frame>>)
    ensures Prefixed(fs, Prefixed([f], r)) == Prefixed(fs + [f], r)
  {
    if r.Ok? {
      assert fs + ([f] + r.value) == fs + [f] + r.value;
    }
  }

  function Views(ds: seq<PacketDecoder>): (r: seq<Frame>)
    reads set d | d in ds
    ensures |r| == |ds| && forall k :: 0 <= k < |ds| ==> r[k] == ds[k].View()
  {
    if ds == [] then [] else [ds[0].View()] + Views(ds[1..])
  }

  lemma ViewsAppend(ds: seq<PacketDecoder>, d: PacketDecoder)
    ensures Views(ds + [d]) == Views(ds) + [d.View()]
  {
    assert forall k :: 0 <= k < |ds| ==> (ds + [d])[k] == ds[k];
  }

  // ---------------------------------------------------------------- encoder

  /** The writing side: the payload of one outgoing packet and its id. */
  class PacketEncoder {
    var buffer: seq<Byte>
    const packetId: Byte

    constructor (packetId: Byte)
      ensures buffer == [] && this.packetId == packetId
    {
      buffer := [];
      this.packetId := packetId;
    }

    /**
     * `finalize`: the length prefix, the packet id and the payload. The
     * compressed format is not implemented and yields no bytes; the
     * encryption key changes nothing.
     */
    method Finalize(compressed: bool, encryptionKey: Option<seq<Byte>>) returns (out: seq<Byte>)
      requires FrameLength(packetId, buffer) < TWO_31
      ensures out == if compressed then [] else FrameBytes(packetId, buffer)
    {
      var dummyEncoder := new PacketEncoder(0);
      if compressed {
        out := [];
      } else {
        var packetIdEncoder := new PacketEncoder(0);
        packetIdEncoder.WriteVarInt(packetId);
        VarInt32RoundTrip([], packetId, []);
        dummyEncoder.WriteVarInt(|buffer| + |packetIdEncoder.buffer|);
        VarInt32RoundTrip([], |buffer| + |packetIdEncoder.buffer|, []);
        out := dummyEncoder.buffer;
        out := out + packetIdEncoder.buffer;
        out := out + buffer;
      }
      if encryptionKey.Some? {
        return out;
      } else {
        return out;
      }
    }

    method WriteUByte(byte: Byte)
      modifies this
      ensures buffer == old(buffer) + [byte]
    {
      buffer := buffer + [byte];
    }

    method WriteByte(byte: I8)
      modifies this
      ensures buffer == old(buffer) + [AsUnsigned(byte, TWO_8)]
    {
      buffer := buffer + [AsUnsigned(byte, TWO_8)];
    }

    method WriteBytes(bytes: seq<Byte>)
      modifies this
      ensures buffer == old(buffer) + bytes
    {
      buffer := buffer + bytes;
    }

    method WriteLong(long: I64)
      modifies this
      ensures buffer == old(buffer) + LongBytes(long)
    {
      WriteBytes(LongBytes(long));
    }

    method WriteInt(v: I32)
      modifies this
      ensures buffer == old(buffer) + IntBytes(v)
    {
      WriteBytes(IntBytes(v));
    }

    method WriteBool(b: bool)
      modifies this
      ensures buffer == old(buffer) + [if b then 1 else 0]
    {
      if b {
        WriteByte(1);
      } else {
        WriteByte(0);
      }
    }

    method WriteShort(short: I16)
      modifies this
      ensures buffer == old(buffer) + ShortBytes(short)
    {
      WriteBytes(ShortBytes(short));
    }

    method WriteUShort(ushort: U16)
      modifies this
      ensures buffer == old(buffer) + UShortBytes(ushort)
    {
      WriteBytes(UShortBytes(ushort));
    }

    /**
     * The loop shared by `write_varint` and `write_varlong`: emit the low
     * byte, shift right by seven, and set bit 7 of the emitted byte while
     * anything is left.
     */
    method WriteVarNum(value: nat)
      modifies this
      ensures buffer == old(buffer) + VarIntBytes(value)
    {
      var v := value;
      while true
        invariant buffer + VarIntBytes(v) == old(buffer) + VarIntBytes(value)
        decreases v
      {
        var temp := v % 256;
        ghost var before := v;
        v := v / 128;
        if v != 0 {
          temp := WithContinuation(temp);
        }
        ContinuationByte(before);
        ghost var written := buffer;
        WriteUByte(temp);
        if v == 0 {
          assert buffer == written + VarIntBytes(before);
          break;
        }
        assert VarIntBytes(before) == [temp] + VarIntBytes(v);
      }
    }

    /**
     * `write_varint`, shifting the value as an unsigned `u32`: what the loop
     * evidently intends (see the finding on `NegativeVarIntNeverTerminates`).
     */
    method WriteVarInt(value: I32)
      modifies this
      ensures buffer == old(buffer) + VarIntBytes32(value)
    {
      WriteVarNum(AsUnsigned(value, TWO_32));
    }

    /** `write_varlong`, shifting the value as an unsigned `u64`. */
    method WriteVarLong(value: I64)
      modifies this
      ensures buffer == old(buffer) + VarLongBytes(value)
    {
      WriteVarNum(AsUnsigned(value, TWO_64));
    }

    /** `write_string`: the length must fit an `i32` (`try_into().unwrap()`). */
    method WriteString(s: seq<Byte>)
      requires |s| < TWO_31
      modifies this
      ensures buffer == old(buffer) + StringBytes(s)
    {
      WriteVarInt(|s|);
      VarInt32RoundTrip([], |s|, []);
      WriteBytes(s);
    }
  }

  /** `temp |= 0b10000000` */
  function WithContinuation(b: Byte): (r: Byte)
    ensures r >= 128 && r % 128 == b % 128
  {
    if b >= 128 then b else b + 128
  }

  /** The byte the write loop emits for `v` is the first byte of its encoding. */
  lemma ContinuationByte(v: nat)
    ensures VarIntBytes(v)[0] == if v / 128 != 0 then WithContinuation(v % 256) else v % 256
  {
    if v / 128 != 0 {
      assert v % 256 % 128 == v % 128;
    }
  }
}
