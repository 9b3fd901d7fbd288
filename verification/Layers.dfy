/**
 Layer 2, the 0x5A5A packet (an AES-ECB encrypted frame and its MD5 signature), and layer 3, the
 0x8370 envelope (an AES-CBC encrypted packet and a SHA-256, under the session key).
 */
module Layers {
  import opened ByteStrings
  import opened Cipher

  // ----- layer 2 -----

  const SIGN_KEY: Bytes := Ascii("xhdiwjnchekd4d512chdjx5d8e4c394D2D7S")

  function Sign(p: Suite, data: Bytes): Block {
    p.md5(data + SIGN_KEY)
  }

  function EncryptionKey(p: Suite): Block {
    p.md5(SIGN_KEY)
  }

  type Timestamp = t: Bytes | |t| == 8 witness [0, 0, 0, 12, 1, 1, 26, 20]

  function PacketHeader(length: nat, deviceId: nat, timestamp: Timestamp): (r: Bytes)
    ensures |r| == 40
  {
    [0x5A, 0x5A, 0x01, 0x11, length % 256, (length / 256) % 256, 0x20, 0x00]
    + Repeat(4, 0) + timestamp + LittleEndian(8, deviceId) + Repeat(12, 0)
  }

  function EncodePacket(p: Suite, deviceId: nat, frame: Bytes, timestamp: Timestamp): (r: Bytes)
    ensures |r| == 56 + |EcbEncryptPadded(p, EncryptionKey(p), frame)|
  {
    var encrypted := EcbEncryptPadded(p, EncryptionKey(p), frame);
    var body := PacketHeader(56 + |encrypted|, deviceId, timestamp) + encrypted;
    body + Sign(p, body)
  }

  method BuildPacket(p: Suite, deviceId: nat, frame: Bytes, timestamp: Timestamp) returns (packet: Bytes)
    ensures packet == EncodePacket(p, deviceId, frame, timestamp)
  {
    var encrypted := AesEcbEncryptPadded(p, EncryptionKey(p), frame);
    var length := 40 + |encrypted| + 16;
    packet := [0x5A, 0x5A, 0x01, 0x11];
    packet := packet + [length % 256, (length / 256) % 256];
    packet := packet + [0x20, 0x00];
    packet := packet + Repeat(4, 0) + timestamp;
    var id := PutLittleEndian(8, deviceId);
    packet := packet + id + Repeat(12, 0);
    assert packet == PacketHeader(length, deviceId, timestamp);
    packet := packet + encrypted;
    packet := packet + Sign(p, packet);
  }

  /** The length a packet declares at offset 4, low byte first. */
  function DeclaredLength(packet: Bytes): nat
    requires |packet| >= 6
  {
    packet[4] as int + 256 * packet[5] as int
  }

  function DecodePacket(p: Suite, packet: Bytes): Option<Bytes> {
    if |packet| < 56 || packet[0] != 0x5A || packet[1] != 0x5A then None
    else
      var length := DeclaredLength(packet);
      if length < 56 || |packet| < length then None
      else
        var body := packet[..length - 16];
        if Sign(p, body) != packet[length - 16..length] then None
        else
          match EcbDecryptUnpadded(p, EncryptionKey(p), packet[40..length - 16])
          case None => None
          case Some(frame) => if frame == [] then None else Some(frame)
  }

  /** The longest frame whose packet length still fits its sixteen bits. */
  const MAX_FRAME: nat := 65471

  lemma PadLength(data: Bytes)
    ensures |Pkcs7Pad(data)| == 16 * (|data| / 16 + 1)
  {
  }

  /** A packet declares its own size exactly when the frame is within the limit. */
  lemma PacketDeclaresItsSize(p: Suite, deviceId: nat, frame: Bytes, timestamp: Timestamp)
    ensures DeclaredLength(EncodePacket(p, deviceId, frame, timestamp)) == |EncodePacket(p, deviceId, frame, timestamp)|
       <==> |frame| <= MAX_FRAME
  {
    PadLength(frame);
    var length := |EncodePacket(p, deviceId, frame, timestamp)|;
    assert length == 56 + 16 * (|frame| / 16 + 1);
    LengthFits(length);
  }

  lemma LengthFits(length: nat)
    ensures length % 256 + 256 * ((length / 256) % 256) == length <==> length < 0x10000
  {
    var high := length / 256;
    assert length == 256 * high + length % 256;
  }

  /** Decoding undoes encoding, for any frame but the empty one, and ignores what follows the packet. */
  lemma PacketRoundTrip(p: Suite, deviceId: nat, frame: Bytes, timestamp: Timestamp, trailing: Bytes)
    requires |frame| <= MAX_FRAME
    ensures DecodePacket(p, EncodePacket(p, deviceId, frame, timestamp) + trailing)
         == if frame == [] then None else Some(frame)
  {
    var encrypted := EcbEncryptPadded(p, EncryptionKey(p), frame);
    var length := 56 + |encrypted|;
    var header := PacketHeader(length, deviceId, timestamp);
    var body := header + encrypted;
    var packet := EncodePacket(p, deviceId, frame, timestamp) + trailing;
    PacketDeclaresItsSize(p, deviceId, frame, timestamp);
    assert packet[..length - 16] == body && packet[length - 16..length] == Sign(p, body);
    assert packet[40..length - 16] == encrypted;
    assert packet[..6] == header[..6];
    EcbPaddedInverts(p, EncryptionKey(p), frame);
  }

  /** A packet whose signature bytes are replaced by any others is refused. */
  lemma ForgedSignatureRefused(p: Suite, packet: Bytes, digest: Block)
    requires DecodePacket(p, packet).Some?
    requires digest != packet[DeclaredLength(packet) - 16..DeclaredLength(packet)]
    ensures DecodePacket(p, packet[..DeclaredLength(packet) - 16] + digest) == None
  {
    var length := DeclaredLength(packet);
    var forged := packet[..length - 16] + digest;
    assert forged[..length - 16] == packet[..length - 16] && forged[length - 16..length] == digest;
  }

  // ----- layer 3 -----

  const HANDSHAKE_REQUEST: byte := 0x0
  const ENCRYPTED_RESPONSE: byte := 0x3
  const ENCRYPTED_REQUEST: byte := 0x6

  function EnvelopeHeader(length: nat, extra: byte): (r: Bytes)
    ensures |r| == 6
  {
    [0x83, 0x70] + BigEndian16(length) + [0x20, extra]
  }

  /** The length an envelope declares at offset 2, high byte first. */
  function EnvelopeLength(envelope: Bytes): nat
    requires |envelope| >= 4
  {
    256 * envelope[2] as int + envelope[3] as int
  }

  function EncodeHandshakeRequest(packetId: nat, token: Bytes): (r: Bytes)
    ensures |r| == |token| + 8
  {
    EnvelopeHeader(|token|, HANDSHAKE_REQUEST) + BigEndian16(packetId) + token
  }

  function DeriveLocalKey(p: Suite, key: Bytes, response: Bytes): (r: Option<Bytes>)
    ensures r.Some? ==> |r.value| == 32
  {
    if |response| != 64 || |key| != 32 then None
    else
      var decrypted := AesCbcDecrypt(p, key, response[..32]);
      if decrypted == [] || p.sha256(decrypted) != response[32..] then None
      else Some(XorBytes(decrypted, key))
  }

  method DeriveSessionKey(p: Suite, key: Bytes, response: Bytes) returns (localKey: Option<Bytes>)
    ensures localKey == DeriveLocalKey(p, key, response)
  {
    if |response| != 64 || |key| != 32 {
      return None;
    }
    var decrypted := AesCbcDecrypt(p, key, response[..32]);
    if decrypted == [] || p.sha256(decrypted) != response[32..] {
      return None;
    }
    var out: Bytes := [];
    for i := 0 to 32
      invariant out == XorBytes(decrypted, key)[..i]
    {
      out := out + [XorByte(decrypted[i], key[i])];
    }
    assert out == XorBytes(decrypted, key);
    localKey := Some(out);
  }

  /** What an appliance that chose `secret` answers to the handshake. */
  function HandshakeBody(p: Suite, key: Bytes, secret: Digest): Bytes {
    AesCbcEncrypt(p, key, secret) + p.sha256(secret)
  }

  /** Both sides then hold the same session key. */
  lemma HandshakeAgrees(p: Suite, key: Bytes, secret: Digest)
    requires |key| == 32
    ensures DeriveLocalKey(p, key, HandshakeBody(p, key, secret)) == Some(XorBytes(secret, key))
  {
    var sealed := AesCbcEncrypt(p, key, secret);
    var body := HandshakeBody(p, key, secret);
    assert body[..32] == sealed && body[32..] == p.sha256(secret);
    CbcInverts(p, key, ZERO_IV, secret);
  }

  /** A session key is only derived from a reply whose hash is that of what it decrypts to. */
  lemma DerivedKeyIsChecked(p: Suite, key: Bytes, response: Bytes)
    ensures DeriveLocalKey(p, key, response).Some?
       <==> |response| == 64 && |key| == 32 && p.sha256(CbcDecrypt(p, key, ZERO_IV, response[..32])) == response[32..]
    ensures DeriveLocalKey(p, key, response).Some? ==>
              XorBytes(DeriveLocalKey(p, key, response).value, key) == CbcDecrypt(p, key, ZERO_IV, response[..32])
  {
    if |response| == 64 && |key| == 32 {
      XorBytesCancels(CbcDecrypt(p, key, ZERO_IV, response[..32]), key);
    }
  }

  /** The filler that brings packet id and data to whole blocks. */
  function Filler(data: Bytes): (r: nat)
    ensures r < 16 && (2 + |data| + r) % 16 == 0
  {
    var remainder := (|data| + 2) % 16;
    if remainder != 0 then 16 - remainder else 0
  }

  function Payload(packetId: nat, data: Bytes, padByte: byte): (r: Bytes)
    ensures |r| == 2 + |data| + Filler(data) && |r| % 16 == 0
  {
    BigEndian16(packetId) + data + Repeat(Filler(data), padByte)
  }

  /** An encrypted envelope of either direction: type 6 when the client sends, 3 when it receives. */
  function Seal(p: Suite, kind: byte, packetId: nat, localKey: Bytes, data: Bytes, padByte: byte): (r: Bytes)
    requires kind < 16
    ensures |r| == 40 + |data| + Filler(data)
  {
    var payload := Payload(packetId, data, padByte);
    var header := EnvelopeHeader(|data| + Filler(data) + 32, Filler(data) * 16 + kind);
    header + AesCbcEncrypt(p, localKey, payload) + p.sha256(header + payload)
  }

  function EncodeEncryptedRequest(p: Suite, packetId: nat, localKey: Bytes, data: Bytes, padByte: byte): Bytes {
    Seal(p, ENCRYPTED_REQUEST, packetId, localKey, data, padByte)
  }

  function DecodeEncryptedResponse(p: Suite, localKey: Bytes, packet: Bytes): Option<Bytes> {
    if |packet| < 54 || packet[0] != 0x83 || packet[1] != 0x70 || packet[4] != 0x20 then None
    else if packet[5] % 16 != ENCRYPTED_RESPONSE then None
    else
      var header, encrypted := packet[..6], packet[6..|packet| - 32];
      var decrypted := AesCbcDecrypt(p, localKey, encrypted);
      if decrypted == [] || p.sha256(header + decrypted) != packet[|packet| - 32..] then None
      else
        var pad := packet[5] / 16;
        if |decrypted| < 2 + pad then None else Some(decrypted[2..|decrypted| - pad])
  }

  /** A handshake is as long as its header says, plus header and packet id, if the token fits. */
  lemma HandshakeLength(packetId: nat, token: Bytes)
    ensures |EncodeHandshakeRequest(packetId, token)| == EnvelopeLength(EncodeHandshakeRequest(packetId, token)) + 8
       <==> |token| < 0x10000
  {
    LengthFits(|token|);
  }

  /** So is an encrypted envelope: the packet id counts for alignment but not for the length. */
  lemma EnvelopeDeclaresItsSize(p: Suite, kind: byte, packetId: nat, localKey: Bytes, data: Bytes, padByte: byte)
    requires kind < 16
    ensures var e := Seal(p, kind, packetId, localKey, data, padByte);
            |e| == EnvelopeLength(e) + 8 <==> |data| + Filler(data) + 32 < 0x10000
  {
    LengthFits(|data| + Filler(data) + 32);
  }

  /** Opening a response undoes sealing it; a request sealed with the same key does not open. */
  lemma EnvelopeRoundTrip(p: Suite, kind: byte, packetId: nat, localKey: Bytes, data: Bytes, padByte: byte)
    requires kind < 16 && ValidKey(localKey)
    ensures DecodeEncryptedResponse(p, localKey, Seal(p, kind, packetId, localKey, data, padByte))
         == if kind == ENCRYPTED_RESPONSE then Some(data) else None
  {
    var payload := Payload(packetId, data, padByte);
    var header := EnvelopeHeader(|data| + Filler(data) + 32, Filler(data) * 16 + kind);
    var encrypted := AesCbcEncrypt(p, localKey, payload);
    var e := Seal(p, kind, packetId, localKey, data, padByte);
    assert e[..6] == header && e[6..|e| - 32] == encrypted && e[|e| - 32..] == p.sha256(header + payload);
    assert e[5] == header[5] && e[4] == header[4] && e[0] == header[0] && e[1] == header[1];
    CbcInverts(p, localKey, ZERO_IV, payload);
    assert payload[2..|payload| - Filler(data)] == data;
  }

  /** All three layers: what an appliance wraps, the client unwraps. */
  lemma LayersInvert(p: Suite, deviceId: nat, frame: Bytes, timestamp: Timestamp, packetId: nat, localKey: Bytes,
                     padByte: byte)
    requires 0 < |frame| <= MAX_FRAME && ValidKey(localKey)
    ensures var packet := EncodePacket(p, deviceId, frame, timestamp);
            var inner := DecodeEncryptedResponse(p, localKey, Seal(p, ENCRYPTED_RESPONSE, packetId, localKey, packet, padByte));
            inner == Some(packet) && DecodePacket(p, packet) == Some(frame)
  {
    var packet := EncodePacket(p, deviceId, frame, timestamp);
    EnvelopeRoundTrip(p, ENCRYPTED_RESPONSE, packetId, localKey, packet, padByte);
    PacketRoundTrip(p, deviceId, frame, timestamp, []);
    assert packet + [] == packet;
  }
}
