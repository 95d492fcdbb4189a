# RustMcServer protocol core in Dafny

This project models the core of a small Minecraft server written in Rust, and proves properties of the model. It covers three parts of the server.

- **The protocol layer** (`src/packets.rs`):
  - the VarInt/VarLong codec;
  - the big-endian reads and writes;
  - `PacketDecoder`, which holds one received frame and a cursor into it. It has `new` and `new_batch` (which cuts a buffer of back-to-back frames apart) and all the `read_*` operations.
  - `PacketEncoder`, which holds a growing payload and a packet id. It has all the `write_*` operations and `finalize`, which emits `VarInt(length) ++ VarInt(id) ++ payload`.
  - the four clientbound encoders: Response, Pong, Disconnect and Encryption Request;
  - the four serverbound decoders: Ping, Handshake with its next-state mapping, Login Start and Encryption Response.
- **The session-server bookkeeping** (`src/mojang.rs`): a list of pending "has joined" requests. Sending a request appends to it, and `clean` filters it.
- **The chat colours** (`src/chat.rs`): the colour-name table and the default chat component.

Files:

- `wire.dfy`: bytes, the fixed-width integer types, two's complement, big-endian layout, and the `Result` every read returns.
- `varnum.dfy`: the VarInt codec as specification functions, its lemmas, and both findings.
- `frames.dfy`: the frame layout `finalize` produces, the header `new` reads, and the batch split `new_batch` performs.
- `utf8.dfy`: well-formed UTF-8, following Table 3-7 of the Unicode Standard. This is the check `String::from_utf8(..).unwrap()` performs in `read_string`.
- `packets.dfy`:
  - the class `PacketDecoder`, with fields `buffer`, `packetId`, `length` and the cursor `i`;
  - the class `PacketEncoder`, with fields `buffer` and `packetId`;
  - `NetworkState`.
- `protocol.dfy`: the packet datatypes, their encoders and decoders, and their round trips.
- `mojang.dfy`: `Pending`, and the class `Mojang` with its `hasJoinedPending` list.
- `chat.dfy`: `ChatColor`, `ChatComponent`, `color_to_str` and its inverse.

How the source's behaviour is modelled:

- **Reads and panics.**
  - Every read in the source can panic on the bytes it is handed.
  - Each read method here returns a `Result`, whose error names the panic:
    - `OutOfBounds` for an index or slice past the buffer;
    - `VarIntTooBig` for the `num_read > 5` panic;
    - `InvalidUtf8` for the `unwrap` of `String::from_utf8`.
  - Each read method is proved equal to a specification function of the buffer and the old cursor.
- **A negative `i32` length.**
  - `length as usize` turns a negative length into a huge `usize`.
  - The slice taken with it therefore panics, and the `new_batch` test `len - length_of_length > length as usize` is false.
  - The model states both outcomes explicitly.
- **32-bit truncation.**
  - `read_varint` accumulates into an `i32`, so bits shifted past bit 31 are lost.
  - The model takes the accumulated value modulo 2^32 and reads the result as signed.
  - This matches the per-step truncation, because the 7-bit groups never overlap.
- **One loop for both widths.**
  - `read_varint` and `read_varlong` share one loop, `ReadVarNum`, with a byte limit.
  - `write_varint` and `write_varlong` share one loop, `WriteVarNum`.
- **Where the Minecraft protocol and the code disagree, the model follows the code.**
  - The protocol allows a VarLong up to 10 bytes. The code enforces 5 (see Findings).
  - The protocol compresses and encrypts frames once those are enabled. In the code, `finalize` returns an empty vector when `compressed` is set, and returns the frame unchanged whatever the key.

## Model

| member | source | states |
|---|---|---|
| Wire.BigEndianRoundTrip | src/packets.rs:107-121 | reading back `n` big-endian bytes gives the unsigned value they were written from |
| Wire.FromBigEndianInverse | src/packets.rs:107-121 | every byte sequence is the big-endian layout of the value read from it |
| Wire.LongRoundTrip | src/packets.rs:107-113 | `i64::from_be_bytes` at any offset recovers what `to_be_bytes` wrote there, negative values included |
| Wire.IntRoundTrip | src/packets.rs:115-121 | the same for `i32` |
| Wire.UShortRoundTrip | src/packets.rs:179-185 | the same for `u16` |
| Wire.LongBytesOfLongAt | src/packets.rs:107-113 | every eight bytes are the `write_long` encoding of the value `read_long` finds in them |
| VarNum.VarIntBytesShape | src/packets.rs:258-270 | every byte the VarInt writer emits except the last has bit 7 set, the last has it clear, and 0 is the single byte 0x00 |
| VarNum.VarIntBytesLength | src/packets.rs:258-270 | the encoding fits in `n` bytes exactly when the value is below 2^(7n) |
| VarNum.GroupValueOfEncoding | src/packets.rs:134-152 | accumulating the 7-bit groups of an encoding gives back the value encoded |
| VarNum.VarNumSize | src/packets.rs:138-150 | a successful read loop consumes at least one and at most `limit` bytes, all inside the buffer |
| VarNum.VarIntAt | src/packets.rs:134-152 | a successful `read_varint` advances the cursor by at least one byte and stays inside the buffer |
| VarNum.VarLongAt | src/packets.rs:154-172 | the same for `read_varlong` as written |
| VarNum.VarNumStopsAtFirstClearByte | src/packets.rs:138-150 | the loop ends with `n` bytes if and only if byte `n` is the first whose bit 7 is clear and `n` is within the limit |
| VarNum.VarNumTooLong | src/packets.rs:143-146 | five bytes that all carry the continuation bit make the read panic: too big when a sixth byte exists, out of bounds otherwise |
| VarNum.VarNumReadsAtMost | src/packets.rs:138-150 | the read never looks past byte `limit + 1`: truncating the buffer after it changes nothing |
| VarNum.VarNumOnPrefix | src/packets.rs:134-152 | a successful read depends only on the bytes it consumed |
| VarNum.VarNumRoundTrip | src/packets.rs:134-152 | the encoding of a value below 2^(7·limit), read at any offset, gives the value and its length |
| VarNum.VarIntDecodes | src/packets.rs:134-152 | where the encoding of a non-negative `i32` sits, `read_varint` returns it and moves past exactly its bytes |
| VarNum.VarIntRoundTrip | src/packets.rs:134-152 | `read_varint` on what `write_varint` appended for `0 <= x < 2^31` returns `x`, after at most five bytes, and advances by exactly the bytes written |
| VarNum.VarLongRoundTrip | src/packets.rs:154-172 | `read_varlong` as written recovers values below 2^35 |
| VarNum.NegativeVarIntNeverTerminates | src/packets.rs:258-284 | as written, the loop value of `write_varint` and of `write_varlong` stays negative on every iteration for a negative input, so neither loop ever exits |
| VarNum.VarInt32RoundTrip | src/packets.rs:258-270 | the corrected writer emits at most five bytes for every `i32`, agrees with the source on non-negative values, and `read_varint` reads every `i32` back |
| VarNum.VarInt32Decodes | src/packets.rs:134-152 | wherever the corrected encoding of an `i32` sits, `read_varint` returns it and moves past it |
| VarNum.VarLongOverFiveBytesRejected | src/packets.rs:163-166 | as written, `read_varlong` rejects with "too big" the encoding of every value of 2^35 or more |
| VarNum.VarLongTenRoundTrip | src/packets.rs:154-172 | with the ten-byte limit, every `i64` survives the VarLong writer and reader, in at most ten bytes |
| Frames.HeaderAt | src/packets.rs:79-82 | reading the length and the id leaves the cursor inside the buffer, after a length prefix of at least one byte |
| Frames.FrameRoundTrip | src/packets.rs:201-222 | the header read from a finalized frame is the length and id `finalize` wrote; the cursor then stands at the payload; the frame is `length_of_length + length` bytes long |
| Frames.SplitBatchPartition | src/packets.rs:50-66 | the frames of a split, in order, concatenate to the input; every frame but the last is exactly its length prefix plus its announced length |
| Frames.SplitBatchCut | src/packets.rs:56-62 | a header announcing fewer bytes than follow cuts the frame there, and splitting goes on with the rest |
| Frames.SplitBatchWhole | src/packets.rs:56-66 | a negative length, or a header announcing at least the bytes that follow, makes the whole buffer the last frame, a partial one included |
| Frames.SentFrameCursor | src/packets.rs:201-222 | after the header of a finalized frame the decoder's cursor is at the start of the payload |
| Frames.SplitLastFrame | src/packets.rs:63-66 | a finalized frame alone in the buffer is the only frame found |
| Frames.SplitFirstFrame | src/packets.rs:56-62 | a finalized frame at the front of a longer buffer is cut off exactly, whatever follows it |
| Frames.SplitBackToBackFrames | src/packets.rs:37-69 | a buffer of finalized frames sent back to back splits into exactly the frames sent |
| Frames.SplitBackToBack | src/packets.rs:37-69 | the same, field by field: each frame has its id, its length, its own bytes, and its cursor at its payload |
| Utf8.AsciiIsValid | src/packets.rs:174-177 | ASCII text passes the UTF-8 check of `read_string` |
| Utf8.ValidConcat | src/packets.rs:174-177 | two valid strings written one after the other pass the check together |
| Packets.SizedBytesDecodes | src/packets.rs:101-105 | `read_bytes(n)` over `n` bytes that are present returns them and advances by `n` |
| Packets.UShortDecodes | src/packets.rs:179-185 | where the big-endian bytes of a `u16` sit, `read_ushort` returns it and advances by 2 |
| Packets.StringAtEncoding | src/packets.rs:174-177 | where a string's encoding sits, `read_string` returns the string when it is UTF-8 and panics otherwise |
| Packets.StringRoundTrip | src/packets.rs:286-289 | `read_string` at any offset on what `write_string` appended returns the same bytes and moves past exactly them |
| Packets.StringRejectsInvalid | src/packets.rs:176 | a string whose bytes are not UTF-8 panics in `unwrap` even when all its bytes are present |
| Packets.StringTruncated | src/packets.rs:176 | a declared length longer than the bytes that follow panics; it does not yield a short string |
| Packets.PacketDecoder.constructor | src/packets.rs:44-49 | a fresh decoder has its buffer, id 0, length 0 and cursor 0 |
| Packets.PacketDecoder.New | src/packets.rs:71-89 | `new` reads the header: its id, length and cursor are those of `HeaderAt`, or it fails with that read's error |
| Packets.PacketDecoder.ReadHeader | src/packets.rs:50-54 | the two opening reads set `length` and `packetId` and return the size of the length prefix |
| Packets.PacketDecoder.NewBatch | src/packets.rs:37-69 | the decoders returned are, in order, the frames of `SplitBatch`, or the batch fails with its error |
| Packets.PacketDecoder.CutFrame | src/packets.rs:44-66 | one turn of the loop: the decoder for the first frame and the strictly shorter rest, or the end of the batch |
| Packets.PacketDecoder.ReadUByte | src/packets.rs:91-94 | the byte under the cursor, and the cursor moves by one |
| Packets.PacketDecoder.ReadByte | src/packets.rs:96-99 | the same byte read as `i8` |
| Packets.PacketDecoder.ReadBytes | src/packets.rs:101-105 | the next `n` bytes, and the cursor moves by `n` |
| Packets.PacketDecoder.ReadLong | src/packets.rs:107-113 | the big-endian `i64` at the cursor, and the cursor moves by 8 |
| Packets.PacketDecoder.ReadInt | src/packets.rs:115-121 | the big-endian `i32` at the cursor, and the cursor moves by 4 |
| Packets.PacketDecoder.ReadBool | src/packets.rs:123-132 | true exactly when the byte is 1, and the cursor moves by one |
| Packets.PacketDecoder.ReadVarNum | src/packets.rs:138-150 | the loop returns the accumulated groups and size of `VarNumAt`, or its panic, and moves the cursor past the bytes read |
| Packets.PacketDecoder.ReadVarInt | src/packets.rs:134-152 | the value and the new cursor of `VarIntAt` |
| Packets.PacketDecoder.ReadVarLong | src/packets.rs:154-172 | the value and the new cursor of `VarLongAt`: an `i64` accumulator with the five-byte limit, so a sixth byte panics as too big |
| Packets.PacketDecoder.ReadString | src/packets.rs:174-177 | the value and the new cursor of `StringRead` |
| Packets.PacketDecoder.ReadUShort | src/packets.rs:179-185 | the big-endian `u16` at the cursor, and the cursor moves by 2 |
| Packets.PacketEncoder.constructor | src/packets.rs:194-199 | a fresh encoder has an empty buffer and the given id |
| Packets.PacketEncoder.Finalize | src/packets.rs:201-222 | uncompressed, the output is `VarInt(length) ++ VarInt(id) ++ payload`; compressed, it is empty; the key changes nothing |
| Packets.PacketEncoder.WriteUByte | src/packets.rs:224-226 | appends the byte |
| Packets.PacketEncoder.WriteByte | src/packets.rs:228-230 | appends the byte's bit pattern |
| Packets.PacketEncoder.WriteBytes | src/packets.rs:231-233 | appends the bytes |
| Packets.PacketEncoder.WriteLong | src/packets.rs:235-237 | appends the eight big-endian bytes |
| Packets.PacketEncoder.WriteInt | src/packets.rs:239-241 | appends the four big-endian bytes |
| Packets.PacketEncoder.WriteBool | src/packets.rs:242-248 | appends 1 for true, 0 for false |
| Packets.PacketEncoder.WriteShort | src/packets.rs:250-252 | appends the two big-endian bytes of the `i16` |
| Packets.PacketEncoder.WriteUShort | src/packets.rs:254-256 | appends the two big-endian bytes of the `u16` |
| Packets.PacketEncoder.WriteVarNum | src/packets.rs:258-270 | the loop appends exactly the VarInt encoding of the value |
| Packets.PacketEncoder.WriteVarInt | src/packets.rs:258-270 | appends the encoding of the value's 32-bit pattern |
| Packets.PacketEncoder.WriteVarLong | src/packets.rs:272-284 | appends the encoding of the value's 64-bit pattern |
| Packets.PacketEncoder.WriteString | src/packets.rs:286-289 | appends the byte length as a VarInt and then the bytes |
| Packets.WithContinuation | src/packets.rs:262-264 | `temp \| 0x80` has bit 7 set and keeps the low seven bits |
| Packets.ContinuationByte | src/packets.rs:260-264 | the byte the write loop emits is the first byte of the encoding |
| Protocol.EncodeResponse | src/packets.rs:298-304 | a fresh encoder with id 0x00 whose payload is the JSON as a string |
| Protocol.EncodePong | src/packets.rs:310-316 | a fresh encoder with id 0x01 whose payload is the eight payload bytes |
| Protocol.EncodeDisconnect | src/packets.rs:322-328 | a fresh encoder with id 0x00 whose payload is the reason as a string |
| Protocol.EncodeEncryptionRequest | src/packets.rs:338-348 | a fresh encoder with id 0x01: the server id, then each length field and its array, in order |
| Protocol.NextStateFromId | src/packets.rs:377-388 | 1 if and only if Status, 2 if and only if Login, and anything else if and only if Handshaking; never Play |
| Protocol.NextStateIdRoundTrip | src/packets.rs:380-382 | the numbers a client sends for Status and Login map back to those states |
| Protocol.DecodePing | src/packets.rs:356-362 | the payload is the `i64` at the cursor, or the read's panic |
| Protocol.DecodeHandshake | src/packets.rs:371-391 | version, address, port and next state read in that order, or the first panic |
| Protocol.DecodeLoginStart | src/packets.rs:397-403 | the name read as a string, or its panic |
| Protocol.DecodeEncryptionResponse | src/packets.rs:412-425 | each array read with the length sent before it, or the first panic |
| Protocol.HandshakeFromReads | src/packets.rs:373-389 | a handshake whose four field reads succeed has exactly those fields and the mapped next state |
| Protocol.HandshakeDecodes | src/packets.rs:371-391 | wherever a handshake body sits, the decoder finds its fields |
| Protocol.HandshakeRoundTrip | src/packets.rs:371-391 | every handshake a client can send decodes to its fields, with the next state given by its number |
| Protocol.LoginStartRoundTrip | src/packets.rs:397-403 | a UTF-8 name written as a string decodes to itself |
| Protocol.LoginStartRejectsInvalid | src/packets.rs:400 | a name that is not UTF-8 panics |
| Protocol.EncryptionResponseFromReads | src/packets.rs:413-423 | when the four reads succeed, the response is those arrays and lengths |
| Protocol.EncryptionResponseDecodes | src/packets.rs:412-425 | wherever two length-prefixed arrays sit, the decoder returns them and their lengths |
| Protocol.EncryptionResponseRoundTrip | src/packets.rs:412-425 | the response a client sends decodes to its two arrays and their lengths, at any offset |
| Protocol.EncryptionResponseNegativeLength | src/packets.rs:415 | a negative shared-secret length panics; it does not yield an empty array |
| Protocol.EncryptionResponseTruncated | src/packets.rs:415 | a shared-secret length beyond the bytes that follow panics |
| Protocol.EncryptionRequestParts | src/packets.rs:338-348 | with true length fields, the request is the server id's string encoding followed by two length-prefixed arrays |
| Protocol.EncryptionRequestServerId | src/packets.rs:341 | a reader of the request finds the server id first, as a string |
| Protocol.EncryptionRequestLayout | src/packets.rs:342-345 | after the server id, the request has the response's layout, so the response reader recovers the key, the token and their lengths |
| Protocol.PingPongEcho | src/packets.rs:356-362 | for any ping frame, the finalized pong built from the decoded payload is the very same frame |
| Mojang.NewPending | src/mojang.rs:52-59 | records the client id, the future and the request type, and starts with no result |
| Mojang.KeepCompleted | src/mojang.rs:91-93 | an entry is kept if and only if it was present and has its result; the list never grows |
| Mojang.KeepCompletedAppend | src/mojang.rs:91-93 | filtering distributes over concatenation, so kept entries keep their relative order |
| Mojang.KeepCompletedIdempotent | src/mojang.rs:91-93 | cleaning twice is cleaning once |
| Mojang.KeepCompletedUnchanged | src/mojang.rs:91-93 | cleaning changes nothing if and only if every entry has its result |
| Mojang.SentRequestIsCleaned | src/mojang.rs:79-93 | a request just sent has no result yet, so the next `clean` removes it and leaves the rest as they would have been |
| Mojang.Mojang.constructor | src/mojang.rs:72-77 | the pending list starts empty |
| Mojang.Mojang.SendHasJoined | src/mojang.rs:79-89 | the list grows by exactly one entry, at the end, with the given client id and no result; earlier entries are unchanged |
| Mojang.Mojang.Clean | src/mojang.rs:91-93 | the new list is `KeepCompleted` of the old one |
| Chat.NewComponent | src/chat.rs:48-60 | keeps the text; no colour, all six style flags false, no children |
| Chat.ColorToStr | src/chat.rs:62-82 | the name is empty if and only if the colour is `NoColor`; every other name is a lower-case snake_case token |
| Chat.ColorRoundTrip | src/chat.rs:62-82 | reading a colour's name back gives the colour |
| Chat.ColorToStrInjective | src/chat.rs:62-82 | distinct colours have distinct names |
| Chat.ColorNameRoundTrip | src/chat.rs:64-79 | every string that reads as a named colour is that colour's name |

## Left out

- The `Client` argument of `new` and `new_batch` is dropped. It is only used by the protocol-encryption TODO branches, which do nothing (src/packets.rs:41-43, 84-86).
- The compression TODO in `new` does nothing and is not modelled.
- `println!` for an invalid next state is output only and is not modelled.
- Packets.PacketDecoder.NewBatch: it does not state that the returned decoders are distinct fresh objects. Only their contents are specified.
- Packets.PacketEncoder.WriteBytes: `Vec::append` also empties its argument vector. Callers here pass values, so that effect is not modelled.
- Packets.PacketEncoder.Finalize: requires the frame length to fit in an `i32`. The source's `as i32` casts would wrap for payloads of 2^31 bytes or more.
- Packets.PacketEncoder.WriteString: requires the length to fit in an `i32`. The source's `try_into().unwrap()` panics otherwise.
- Packets.PacketEncoder.WriteVarInt and Packets.PacketEncoder.WriteVarLong: these model the corrected writer, so they do not model the as-written loops' non-termination on negative values. That non-termination is stated for both widths by `VarNum.NegativeVarIntNeverTerminates`. A method that never returns has no postcondition to state, so the corrected encoding stands in for it.
- Protocol.EncodeEncryptionRequest: it inherits the corrected VarInt writer. For a negative `public_key_length` or `verify_token_length`, the source's `write_varint` never returns (src/packets.rs:342, 344). Here the contract gives the five-byte encoding of the value's 32-bit pattern instead.
- The `i` cursor is a `usize` in the source. Here it is a `nat`, so `self.i + bytes` cannot overflow.
- Packets.PacketDecoder.ReadUByte and the other reads: after a failed read the cursor's value is left unspecified. The source has panicked by then.
- `PacketDecoder` and `PacketEncoder` are not consumed by value as in the source. A decoder passed to a packet decoder here can be inspected afterwards.
- In `src/mojang.rs` the following are left out:
  - the HTTP request: the URL, `mc_hex_digest` and `reqwest`. `SendHasJoined` receives the request's future as a parameter, as an opaque handle.
  - `Pending::run`, which is empty.
  - the serde derives of the response structs. Their fields are kept as datatypes.
- `ClickEventType::ChangePage` and `HoverEventType::ChangePage` are renamed `ClickChangePage` and `HoverChangePage`. The two datatypes share one module.

## Findings

| source | as written | input that shows it | evidently intended | confidence | as-written member | corrected member |
|---|---|---|---|---|---|---|
| src/packets.rs:258-270 | `value >> 7` on an `i32` is an arithmetic shift, so a negative value never becomes 0 and the loop never exits | `write_varint(-1)`, e.g. a negative `public_key_length` in an encryption request | shift the 32-bit pattern (a logical shift), emitting five bytes for a negative value | high, not executed | VarNum.NegativeVarIntNeverTerminates | VarNum.VarInt32RoundTrip |
| src/packets.rs:272-284 | `value >> 7` on an `i64` is an arithmetic shift, so `write_varlong` never exits for a negative value either | `write_varlong(-1)` | shift the 64-bit pattern, emitting ten bytes for a negative value | high, not executed | VarNum.NegativeVarIntNeverTerminates | VarNum.VarLongTenRoundTrip |
| src/packets.rs:163-166 | `read_varlong` panics when a sixth byte is read, the VarInt limit | the `write_varlong` encoding of 2^35, six bytes | allow up to ten bytes, as a VarLong needs for every `i64` | high, not executed | VarNum.VarLongOverFiveBytesRejected | VarNum.VarLongTenRoundTrip |
