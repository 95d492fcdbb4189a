/**
 * The packets of `src/packets.rs`: what each clientbound packet writes into
 * its encoder, what each serverbound packet reads from its decoder, and the
 * next-state numbers of the handshake.
 */
module Protocol {
  import opened Wire
  import opened VarNum
  import opened Utf8
  import opened Frames
  import opened Packets

  // ---------------------------------------------------------------- clientbound

  /** Status response (id 0x00): the server list JSON. */
  datatype Response = Response(jsonResponse: seq<Byte>)

  /** Status pong (id 0x01): the ping's payload sent back. */
  datatype Pong = Pong(payload: I64)

  /** Login disconnect (id 0x00): a chat JSON reason. */
  datatype Disconnect = Disconnect(reason: seq<Byte>)

  /** Login encryption request (id 0x01); the two lengths are fields of their own, written as given. */
  datatype EncryptionRequest = EncryptionRequest(
    serverId: seq<Byte>,
    publicKeyLength: I32,
    publicKey: seq<Byte>,
    verifyTokenLength: I32,
    verifyToken: seq<Byte>)

  const RESPONSE_ID: Byte := 0x00
  const PONG_ID: Byte := 0x01
  const DISCONNECT_ID: Byte := 0x00
  const ENCRYPTION_REQUEST_ID: Byte := 0x01

  function ResponseBytes(p: Response): seq<Byte>
    requires |p.jsonResponse| < TWO_31
  {
    StringBytes(p.jsonResponse)
  }

  function PongBytes(p: Pong): seq<Byte>
  {
    LongBytes(p.payload)
  }

  function DisconnectBytes(p: Disconnect): seq<Byte>
    requires |p.reason| < TWO_31
  {
    StringBytes(p.reason)
  }

  function EncryptionRequestBytes(p: EncryptionRequest): seq<Byte>
    requires |p.serverId| < TWO_31
  {
    StringBytes(p.serverId)
      + VarIntBytes32(p.publicKeyLength) + p.publicKey
      + VarIntBytes32(p.verifyTokenLength) + p.verifyToken
  }

  method EncodeResponse(p: Response) returns (encoder: PacketEncoder)
    requires |p.jsonResponse| < TWO_31
    ensures fresh(encoder) && encoder.packetId == RESPONSE_ID && encoder.buffer == ResponseBytes(p)
  {
    encoder := new PacketEncoder(RESPONSE_ID);
    encoder.WriteString(p.jsonResponse);
  }

  method EncodePong(p: Pong) returns (encoder: PacketEncoder)
    ensures fresh(encoder) && encoder.packetId == PONG_ID && encoder.buffer == PongBytes(p)
  {
    encoder := new PacketEncoder(PONG_ID);
    encoder.WriteLong(p.payload);
  }

  method EncodeDisconnect(p: Disconnect) returns (encoder: PacketEncoder)
    requires |p.reason| < TWO_31
    ensures fresh(encoder) && encoder.packetId == DISCONNECT_ID && encoder.buffer == DisconnectBytes(p)
  {
    encoder := new PacketEncoder(DISCONNECT_ID);
    encoder.WriteString(p.reason);
  }

  method EncodeEncryptionRequest(p: EncryptionRequest) returns (encoder: PacketEncoder)
    requires |p.serverId| < TWO_31
    ensures fresh(encoder) && encoder.packetId == ENCRYPTION_REQUEST_ID
    ensures encoder.buffer == EncryptionRequestBytes(p)
  {
    encoder := new PacketEncoder(ENCRYPTION_REQUEST_ID);
    encoder.WriteString(p.serverId);
    encoder.WriteVarInt(p.publicKeyLength);
    encoder.WriteBytes(p.publicKey);
    encoder.WriteVarInt(p.verifyTokenLength);
    encoder.WriteBytes(p.verifyToken);
  }

  // ---------------------------------------------------------------- serverbound

  /** Status ping (id 0x01). */
  datatype Ping = Ping(payload: I64)

  /** Handshake (id 0x00). */
  datatype Handshake = Handshake(
    protocolVersion: I32,
    serverAddress: seq<Byte>,
    serverPort: U16,
    nextState: NetworkState)

  /** Login start (id 0x00). */
  datatype LoginStart = LoginStart(name: seq<Byte>)

  /** Login encryption response (id 0x01); each byte array is read with the length sent before it. */
  datatype EncryptionResponse = EncryptionResponse(
    sharedSecretLength: I32,
    sharedSecret: seq<Byte>,
    verifyTokenLength: I32,
    verifyToken: seq<Byte>)

  /** The handshake's next-state number: 1 asks for the status, 2 for login; anything else is reported and stays in the handshake. */
  function NextStateFromId(id: I32): (s: NetworkState)
    ensures s == Status <==> id == 1
    ensures s == Login <==> id == 2
    ensures s == Handshaking <==> id != 1 && id != 2
    ensures s != Play
  {
    if id == 1 then Status
    else if id == 2 then Login
    else Handshaking
  }

  function PingAt(buf: seq<Byte>, pos: nat): Result<Ping>
  {
    var payload :- LongRead(buf, pos);
    Ok(Ping(payload.value))
  }

  function HandshakeAt(buf: seq<Byte>, pos: nat): Result<Handshake>
  {
    var version :- VarIntAt(buf, pos);
    var address :- StringRead(buf, version.next);
    var port :- UShortRead(buf, address.next);
    var next :- VarIntAt(buf, port.next);
    Ok(Handshake(version.value, address.value, port.value, NextStateFromId(next.value)))
  }

  function LoginStartAt(buf: seq<Byte>, pos: nat): Result<LoginStart>
  {
    var name :- StringRead(buf, pos);
    Ok(LoginStart(name.value))
  }

  function EncryptionResponseAt(buf: seq<Byte>, pos: nat): Result<EncryptionResponse>
  {
    var secretLength :- VarIntAt(buf, pos);
    var secret :- SizedBytesRead(buf, secretLength.next, secretLength.value);
    EncryptionResponseAfterSecret(buf, secretLength.value, secret.value, secret.next)
  }

  /** The rest of an encryption response once its shared secret has been read. */
  function EncryptionResponseAfterSecret(buf: seq<Byte>, secretLength: I32, secret: seq<Byte>, pos: nat): Result<EncryptionResponse>
  {
    var tokenLength :- VarIntAt(buf, pos);
    var token :- SizedBytesRead(buf, tokenLength.next, tokenLength.value);
    Ok(EncryptionResponse(secretLength, secret, tokenLength.value, token.value))
  }

  method DecodePing(decoder: PacketDecoder) returns (r: Result<Ping>)
    modifies decoder`i
    ensures r == PingAt(decoder.buffer, old(decoder.i))
  {
    var payload :- decoder.ReadLong();
    return Ok(Ping(payload));
  }

  method DecodeHandshake(decoder: PacketDecoder) returns (r: Result<Handshake>)
    modifies decoder`i
    ensures r == HandshakeAt(decoder.buffer, old(decoder.i))
  {
    var protocolVersion :- decoder.ReadVarInt();
    var serverAddress :- decoder.ReadString();
    var serverPort :- decoder.ReadUShort();
    var nextState :- decoder.ReadVarInt();
    return Ok(Handshake(protocolVersion, serverAddress, serverPort, NextStateFromId(nextState)));
  }

  method DecodeLoginStart(decoder: PacketDecoder) returns (r: Result<LoginStart>)
    modifies decoder`i
    ensures r == LoginStartAt(decoder.buffer, old(decoder.i))
  {
    var name :- decoder.ReadString();
    return Ok(LoginStart(name));
  }

  method DecodeEncryptionResponse(decoder: PacketDecoder) returns (r: Result<EncryptionResponse>)
    modifies decoder`i
    ensures r == EncryptionResponseAt(decoder.buffer, old(decoder.i))
  {
    ghost var buf, p0 := decoder.buffer, decoder.i;
    var sharedSecretLength :- decoder.ReadVarInt();
    ghost var p1 := decoder.i;
    assert VarIntAt(buf, p0) == Ok(Read(sharedSecretLength, p1));
    if sharedSecretLength < 0 {
      return Err(OutOfBounds);
    }
    var sharedSecret :- decoder.ReadBytes(sharedSecretLength);
    ghost var p2 := decoder.i;
    assert SizedBytesRead(buf, p1, sharedSecretLength) == Ok(Read(sharedSecret, p2));
    assert EncryptionResponseAt(buf, p0) == EncryptionResponseAfterSecret(buf, sharedSecretLength, sharedSecret, p2);
    var verifyTokenLength :- decoder.ReadVarInt();
    if verifyTokenLength < 0 {
      return Err(OutOfBounds);
    }
    var verifyToken :- decoder.ReadBytes(verifyTokenLength);
    return Ok(EncryptionResponse(sharedSecretLength, sharedSecret, verifyTokenLength, verifyToken));
  }

  // ---------------------------------------------------------------- properties

  /** The next-state numbers a client sends for the two states it may ask for. */
  function NextStateId(s: NetworkState): I32
    requires s == Status || s == Login
  {
    if s == Status then 1 else 2
  }

  lemma NextStateIdRoundTrip(s: NetworkState)
    requires s == Status || s == Login
    ensures NextStateFromId(NextStateId(s)) == s
  {
  }

  /** The handshake body a client sends. */
  function HandshakeBytes(version: I32, address: seq<Byte>, port: U16, nextId: I32): seq<Byte>
    requires |address| < TWO_31
  {
    VarIntBytes32(version) + StringBytes(address) + UShortBytes(port) + VarIntBytes32(nextId)
  }

  /** The handshake read where its four fields read back as the given values. */
  lemma HandshakeFromReads(buf: seq<Byte>, pos: nat, version: I32, address: seq<Byte>, port: U16, nextId: I32,
                           p1: nat, p2: nat, p3: nat, p4: nat)
    requires VarIntAt(buf, pos) == Ok(Read(version, p1))
    requires StringRead(buf, p1) == Ok(Read(address, p2))
    requires UShortRead(buf, p2) == Ok(Read(port, p3))
    requires VarIntAt(buf, p3) == Ok(Read(nextId, p4))
    ensures HandshakeAt(buf, pos) == Ok(Handshake(version, address, port, NextStateFromId(nextId)))
  {
  }

  /** The handshake read where the encodings of its four fields sit one after the other. */
  lemma HandshakeFromSlices(buf: seq<Byte>, pos: nat, version: I32, address: seq<Byte>, port: U16, nextId: I32,
                            p1: nat, p2: nat, p3: nat, p4: nat)
    requires |address| < TWO_31 && ValidUtf8(address)
    requires SliceIs(buf, pos, VarIntBytes32(version)) && p1 == pos + |VarIntBytes32(version)|
    requires SliceIs(buf, p1, StringBytes(address)) && p2 == p1 + |StringBytes(address)|
    requires SliceIs(buf, p2, UShortBytes(port)) && p3 == p2 + 2
    requires SliceIs(buf, p3, VarIntBytes32(nextId)) && p4 == p3 + |VarIntBytes32(nextId)|
    ensures HandshakeAt(buf, pos) == Ok(Handshake(version, address, port, NextStateFromId(nextId)))
  {
    VarInt32Decodes(buf, pos, version, p1);
    StringAtEncoding(buf, p1, address, p2);
    UShortDecodes(buf, p2, port, p3);
    VarInt32Decodes(buf, p3, nextId, p4);
    HandshakeFromReads(buf, pos, version, address, port, nextId, p1, p2, p3, p4);
  }

  /** Where a handshake body sits, the encodings of its four fields sit one after the other. */
  lemma HandshakeSlices(buf: seq<Byte>, pos: nat, version: I32, address: seq<Byte>, port: U16, nextId: I32)
    returns (p1: nat, p2: nat, p3: nat, p4: nat)
    requires |address| < TWO_31
    requires SliceIs(buf, pos, HandshakeBytes(version, address, port, nextId))
    ensures SliceIs(buf, pos, VarIntBytes32(version)) && p1 == pos + |VarIntBytes32(version)|
    ensures SliceIs(buf, p1, StringBytes(address)) && p2 == p1 + |StringBytes(address)|
    ensures SliceIs(buf, p2, UShortBytes(port)) && p3 == p2 + 2
    ensures SliceIs(buf, p3, VarIntBytes32(nextId)) && p4 == p3 + |VarIntBytes32(nextId)|
  {
    var v, a, p, n := VarIntBytes32(version), StringBytes(address), UShortBytes(port), VarIntBytes32(nextId);
    SliceSplit(buf, pos, v + a + p, n);
    SliceSplit(buf, pos, v + a, p);
    SliceSplit(buf, pos, v, a);
    p1, p2, p3 := pos + |v|, pos + |v| + |a|, pos + |v| + |a| + |p|;
    p4 := p3 + |n|;
  }

  /** Wherever a handshake body sits, the handshake read there has its fields. */
  lemma HandshakeDecodes(buf: seq<Byte>, pos: nat, version: I32, address: seq<Byte>, port: U16, nextId: I32)
    requires |address| < TWO_31 && ValidUtf8(address)
    requires SliceIs(buf, pos, HandshakeBytes(version, address, port, nextId))
    ensures HandshakeAt(buf, pos) == Ok(Handshake(version, address, port, NextStateFromId(nextId)))
  {
    var p1, p2, p3, p4 := HandshakeSlices(buf, pos, version, address, port, nextId);
    HandshakeFromSlices(buf, pos, version, address, port, nextId, p1, p2, p3, p4);
  }

  /** Every handshake a client can send decodes to its fields, with the next state given by its number. */
  lemma HandshakeRoundTrip(pre: seq<Byte>, version: I32, address: seq<Byte>, port: U16, nextId: I32, post: seq<Byte>)
    requires |address| < TWO_31 && ValidUtf8(address)
    ensures HandshakeAt(pre + HandshakeBytes(version, address, port, nextId) + post, |pre|)
            == Ok(Handshake(version, address, port, NextStateFromId(nextId)))
  {
    SliceOfConcat(pre, HandshakeBytes(version, address, port, nextId), post);
    HandshakeDecodes(pre + HandshakeBytes(version, address, port, nextId) + post, |pre|, version, address, port, nextId);
  }

  lemma LoginStartRoundTrip(pre: seq<Byte>, name: seq<Byte>, post: seq<Byte>)
    requires |name| < TWO_31 && ValidUtf8(name)
    ensures LoginStartAt(pre + StringBytes(name) + post, |pre|) == Ok(LoginStart(name))
  {
    StringRoundTrip(pre, name, post);
  }

  /** A login name whose bytes are not UTF-8 is refused. */
  lemma LoginStartRejectsInvalid(pre: seq<Byte>, name: seq<Byte>, post: seq<Byte>)
    requires |name| < TWO_31 && !ValidUtf8(name)
    ensures LoginStartAt(pre + StringBytes(name) + post, |pre|) == Err(InvalidUtf8)
  {
    StringRejectsInvalid(pre, name, post);
  }

  /** Two length-prefixed byte arrays: the layout of the encryption response, and of the request after its server id. */
  function TwoArrays(first: seq<Byte>, second: seq<Byte>): seq<Byte>
    requires |first| < TWO_31 && |second| < TWO_31
  {
    VarIntBytes(|first|) + first + VarIntBytes(|second|) + second
  }

  /** The encryption response read where its four fields read back as the given arrays and lengths. */
  lemma EncryptionResponseFromReads(buf: seq<Byte>, pos: nat, secret: seq<Byte>, token: seq<Byte>,
                                    p1: nat, p2: nat, p3: nat, p4: nat)
    requires |secret| < TWO_31 && |token| < TWO_31
    requires VarIntAt(buf, pos) == Ok(Read(|secret| as I32, p1))
    requires SizedBytesRead(buf, p1, |secret|) == Ok(Read(secret, p2))
    requires VarIntAt(buf, p2) == Ok(Read(|token| as I32, p3))
    requires SizedBytesRead(buf, p3, |token|) == Ok(Read(token, p4))
    ensures EncryptionResponseAt(buf, pos) == Ok(EncryptionResponse(|secret|, secret, |token|, token))
  {
  }

  /** The encryption response read where its two lengths and two arrays sit one after the other. */
  lemma EncryptionResponseFromSlices(buf: seq<Byte>, pos: nat, secret: seq<Byte>, token: seq<Byte>,
                                     p1: nat, p2: nat, p3: nat, p4: nat)
    requires |secret| < TWO_31 && |token| < TWO_31
    requires SliceIs(buf, pos, VarIntBytes(|secret|)) && p1 == pos + |VarIntBytes(|secret|)|
    requires SliceIs(buf, p1, secret) && p2 == p1 + |secret|
    requires SliceIs(buf, p2, VarIntBytes(|token|)) && p3 == p2 + |VarIntBytes(|token|)|
    requires SliceIs(buf, p3, token) && p4 == p3 + |token|
    ensures EncryptionResponseAt(buf, pos) == Ok(EncryptionResponse(|secret|, secret, |token|, token))
  {
    VarIntDecodes(buf, pos, |secret|, p1);
    SizedBytesDecodes(buf, p1, secret, p2);
    VarIntDecodes(buf, p2, |token|, p3);
    SizedBytesDecodes(buf, p3, token, p4);
    EncryptionResponseFromReads(buf, pos, secret, token, p1, p2, p3, p4);
  }

  /** Where the two length-prefixed arrays sit, their lengths and bytes sit one after the other. */
  lemma EncryptionResponseSlices(buf: seq<Byte>, pos: nat, secret: seq<Byte>, token: seq<Byte>)
    returns (p1: nat, p2: nat, p3: nat, p4: nat)
    requires |secret| < TWO_31 && |token| < TWO_31
    requires SliceIs(buf, pos, TwoArrays(secret, token))
    ensures SliceIs(buf, pos, VarIntBytes(|secret|)) && p1 == pos + |VarIntBytes(|secret|)|
    ensures SliceIs(buf, p1, secret) && p2 == p1 + |secret|
    ensures SliceIs(buf, p2, VarIntBytes(|token|)) && p3 == p2 + |VarIntBytes(|token|)|
    ensures SliceIs(buf, p3, token) && p4 == p3 + |token|
  {
    var l1, l2 := VarIntBytes(|secret|), VarIntBytes(|token|);
    SliceSplit(buf, pos, l1 + secret + l2, token);
    SliceSplit(buf, pos, l1 + secret, l2);
    SliceSplit(buf, pos, l1, secret);
    p1 := pos + |l1|;
    p2 := p1 + |secret|;
    p3 := p2 + |l2|;
    p4 := p3 + |token|;
  }

  /** Wherever the two length-prefixed arrays sit, the encryption response read there is those arrays and their lengths. */
  lemma EncryptionResponseDecodes(buf: seq<Byte>, pos: nat, secret: seq<Byte>, token: seq<Byte>)
    requires |secret| < TWO_31 && |token| < TWO_31
    requires SliceIs(buf, pos, TwoArrays(secret, token))
    ensures EncryptionResponseAt(buf, pos) == Ok(EncryptionResponse(|secret|, secret, |token|, token))
  {
    var p1, p2, p3, p4 := EncryptionResponseSlices(buf, pos, secret, token);
    EncryptionResponseFromSlices(buf, pos, secret, token, p1, p2, p3, p4);
  }

  /** The encryption response a client sends decodes to its two arrays and their lengths. */
  lemma EncryptionResponseRoundTrip(pre: seq<Byte>, secret: seq<Byte>, token: seq<Byte>, post: seq<Byte>)
    requires |secret| < TWO_31 && |token| < TWO_31
    ensures EncryptionResponseAt(pre + TwoArrays(secret, token) + post, |pre|)
            == Ok(EncryptionResponse(|secret|, secret, |token|, token))
  {
    SliceOfConcat(pre, TwoArrays(secret, token), post);
    EncryptionResponseDecodes(pre + TwoArrays(secret, token) + post, |pre|, secret, token);
  }

  /** A negative shared-secret length is a panic of the slice, not an empty array. */
  lemma EncryptionResponseNegativeLength(pre: seq<Byte>, n: I32, post: seq<Byte>)
    requires n < 0
    ensures EncryptionResponseAt(pre + VarIntBytes32(n) + post, |pre|) == Err(OutOfBounds)
  {
    VarInt32RoundTrip(pre, n, post);
  }

  /** A shared-secret length beyond the bytes that follow is a panic, not a short array. */
  lemma EncryptionResponseTruncated(pre: seq<Byte>, n: nat, rest: seq<Byte>)
    requires n < TWO_31 && |rest| < n
    ensures EncryptionResponseAt(pre + VarIntBytes(n) + rest, |pre|) == Err(OutOfBounds)
  {
    VarIntRoundTrip(pre, n, rest);
  }

  /** With its length fields equal to the true lengths, the encryption request is the server id's string encoding followed by the two length-prefixed arrays. */
  lemma EncryptionRequestParts(p: EncryptionRequest, post: seq<Byte>)
    requires |p.serverId| < TWO_31
    requires p.publicKeyLength == |p.publicKey| && p.verifyTokenLength == |p.verifyToken|
    ensures var buf := EncryptionRequestBytes(p) + post;
            && SliceIs(buf, 0, StringBytes(p.serverId))
            && SliceIs(buf, |StringBytes(p.serverId)|, TwoArrays(p.publicKey, p.verifyToken))
  {
    var id, arrays := StringBytes(p.serverId), TwoArrays(p.publicKey, p.verifyToken);
    assert EncryptionRequestBytes(p) == id + arrays;
    SliceOfConcat([], id + arrays, post);
    assert [] + (id + arrays) + post == EncryptionRequestBytes(p) + post;
    SliceSplit(EncryptionRequestBytes(p) + post, 0, id, arrays);
  }

  /** A reader of the encryption request finds the server id first, as a string. */
  lemma EncryptionRequestServerId(p: EncryptionRequest, post: seq<Byte>)
    requires |p.serverId| < TWO_31 && ValidUtf8(p.serverId)
    requires p.publicKeyLength == |p.publicKey| && p.verifyTokenLength == |p.verifyToken|
    ensures StringRead(EncryptionRequestBytes(p) + post, 0) == Ok(Read(p.serverId, |StringBytes(p.serverId)|))
  {
    EncryptionRequestParts(p, post);
    StringAtEncoding(EncryptionRequestBytes(p) + post, 0, p.serverId, |StringBytes(p.serverId)|);
  }

  /**
   * After the server id, the encryption request has the layout of the
   * encryption response, so a reader of that layout recovers the key and
   * the token with their lengths.
   */
  lemma EncryptionRequestLayout(p: EncryptionRequest, post: seq<Byte>)
    requires |p.serverId| < TWO_31
    requires p.publicKeyLength == |p.publicKey| && p.verifyTokenLength == |p.verifyToken|
    ensures EncryptionResponseAt(EncryptionRequestBytes(p) + post, |StringBytes(p.serverId)|)
            == Ok(EncryptionResponse(p.publicKeyLength, p.publicKey, p.verifyTokenLength, p.verifyToken))
  {
    EncryptionRequestParts(p, post);
    EncryptionResponseDecodes(EncryptionRequestBytes(p) + post, |StringBytes(p.serverId)|, p.publicKey, p.verifyToken);
  }

  /**
   * A status ping answered with a pong: whatever eight bytes the ping frame
   * carries, the finalized pong built from the decoded payload is the very
   * same frame.
   */
  lemma PingPongEcho(payload: seq<Byte>)
    requires |payload| == 8
    ensures var frame := FrameBytes(PONG_ID, payload);
            var h := HeaderAt(frame);
            && h.Ok? && h.value.packetId == PONG_ID
            && PingAt(frame, h.value.cursor).Ok?
            && FrameBytes(PONG_ID, PongBytes(Pong(PingAt(frame, h.value.cursor).value.payload))) == frame
  {
    FrameRoundTrip(PONG_ID, payload, []);
    var frame := FrameBytes(PONG_ID, payload);
    assert frame + [] == frame;
    var cursor := HeaderAt(frame).value.cursor;
    assert frame[cursor..cursor + 8] == payload;
    assert LongAt(frame, cursor) == LongAt(payload, 0) by {
      assert payload[0..8] == payload;
    }
    LongBytesOfLongAt(payload);
  }
}
