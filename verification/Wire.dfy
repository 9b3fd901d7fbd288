/**
 What is on the wire, read by offsets: every field of the frames, packets and envelopes sent stands where a
 receiver looks for it, and nothing is accepted that does not check. Numbers, types and keys are written out
 here; none of the builders' own parts is used to read what they built.
 */
module Wire {
  import opened ByteStrings
  import opened Cipher
  import Checksum
  import Commercial
  import Frame
  import Lan
  import LanTheory
  import Layers
  import Properties
  import RelayText
  import State

  // ----- numbers -----

  /** Bytes read as a number, low byte first. */
  function Low(s: Bytes): nat {
    if s == [] then 0 else s[0] as nat + 256 * Low(s[1..])
  }

  /** High byte first. */
  function High(s: Bytes): nat {
    if s == [] then 0 else 256 * High(s[..|s| - 1]) + s[|s| - 1] as nat
  }

  function Power(n: nat): (r: nat)
    ensures r > 0
  {
    if n == 0 then 1 else 256 * Power(n - 1)
  }

  lemma RemainderIs(v: nat, m: nat, k: nat, r: nat)
    requires v == m * k + r && r < m
    ensures v % m == r
  {
    QuotientIs(v, m, v / m, v % m, k, r);
  }

  lemma QuotientIs(v: nat, m: nat, q: nat, s: nat, k: nat, r: nat)
    requires v == m * q + s && v == m * k + r && s < m && r < m
    ensures s == r
  {
    var d := q - k;
    Distributes(m, q, k);
    if d >= 1 {
      AtLeast(m, d);
    } else if d <= -1 {
      AtMost(m, d);
    }
  }

  lemma Distributes(m: int, q: int, k: int)
    ensures m * (q - k) == m * q - m * k
  {
  }

  lemma AtLeast(m: nat, d: int)
    requires d >= 1
    ensures m * d >= m
  {
  }

  lemma AtMost(m: int, d: int)
    requires m >= 0 && d <= -1
    ensures m * d <= -m
  {
  }

  lemma SplitRemainder(v: nat, m: nat)
    requires m > 0
    ensures v % (256 * m) == v % 256 + 256 * ((v / 256) % m)
  {
    var high := v / 256;
    var k, r := high / m, high % m;
    assert high == m * k + r;
    assert (256 * m) * k == 256 * (m * k);
    assert v == (256 * m) * k + (256 * r + v % 256);
    assert 256 * r <= 256 * (m - 1);
    RemainderIs(v, 256 * m, k, 256 * r + v % 256);
  }

  /** A number written low byte first is read back as what its bytes can hold of it. */
  lemma {:induction false} LowIsRead(n: nat, v: nat)
    ensures Low(LittleEndian(n, v)) == v % Power(n)
  {
    if n == 0 {
    } else {
      LowIsRead(n - 1, v / 256);
      SplitRemainder(v, Power(n - 1));
      assert LittleEndian(n, v) == [v % 256] + LittleEndian(n - 1, v / 256);
      assert LittleEndian(n, v)[1..] == LittleEndian(n - 1, v / 256);
    }
  }

  lemma TwoBytes(a: byte, b: byte)
    ensures Low([a, b]) == a as nat + 256 * b as nat && High([a, b]) == 256 * a as nat + b as nat
  {
    var s: Bytes := [a, b];
    assert s[1..] == [b] && Low([b]) == b as nat + 256 * Low([b][1..]) == b as nat;
    assert s[..1] == [a] && High([a]) == 256 * High([a][..0]) + a as nat == a as nat;
  }

  lemma HighIsRead(v: nat)
    ensures High(BigEndian16(v)) == v % 0x10000
  {
    TwoBytes((v / 256) % 256, v % 256);
    SplitRemainder(v, 256);
  }

  predicate AreZero(s: Bytes) {
    forall b :: b in s ==> b == 0
  }

  lemma ZeroTail(front: Bytes, n: nat, s: Bytes)
    requires s == front + Repeat(n, 0)
    ensures AreZero(s[|front|..])
  {
    assert s[|front|..] == Repeat(n, 0);
  }

  // ----- frames -----

  /** Where an appliance finds the parts of a command: device, frame type, payload and message id. */
  lemma CommandIsLaid(device: byte, frameType: byte, payload: Bytes, messageId: byte)
    ensures var f := Frame.WrapCommand(device, frameType, payload, messageId);
            && |f| == |payload| + 13 && f[0] == 0xAA && f[1] as int == (|payload| + 12) % 256
            && f[2] == device && AreZero(f[3..9]) && f[9] == frameType
            && f[10..10 + |payload|] == payload && f[10 + |payload|] == messageId
            && f[11 + |payload|] == Checksum.Crc(payload + [messageId])
  {
    var numbered := payload + [messageId];
    var body := numbered + [Checksum.Crc(numbered)];
    var f := Frame.WrapCommand(device, frameType, payload, messageId);
    assert f[..10] == Frame.Header(device, frameType, |body|);
    assert f[10..10 + |body|] == body;
    assert f[10..10 + |payload|] == body[..|payload|] == payload;
    assert f[10 + |payload|] == body[|payload|] && f[11 + |payload|] == body[|payload| + 1];
  }

  // ----- LAN packets -----

  function SignKey(): Bytes {
    Ascii("xhdiwjnchekd4d512chdjx5d8e4c394D2D7S")
  }

  /** Where an appliance finds the parts of a packet: size, timestamp, device id, frame and signature. */
  lemma PacketIsLaid(p: Suite, deviceId: nat, frame: Bytes, timestamp: Layers.Timestamp)
    ensures var k := Layers.EncodePacket(p, deviceId, frame, timestamp);
            && |k| >= 72 && k[..4] == [0x5A, 0x5A, 0x01, 0x11] && k[6] == 0x20 && k[7] == 0
            && Low(k[4..6]) == |k| % 0x10000
            && AreZero(k[8..12]) && k[12..20] == timestamp
            && Low(k[20..28]) == deviceId % 0x1_0000_0000_0000_0000 && AreZero(k[28..40])
            && EcbDecryptUnpadded(p, p.md5(SignKey()), k[40..|k| - 16]) == Some(frame)
            && k[|k| - 16..] == p.md5(k[..|k| - 16] + SignKey())
  {
    var encrypted := EcbEncryptPadded(p, Layers.EncryptionKey(p), frame);
    var k := Layers.EncodePacket(p, deviceId, frame, timestamp);
    var length := 56 + |encrypted|;
    PacketFields(length, deviceId, timestamp);
    var header := Layers.PacketHeader(length, deviceId, timestamp);
    HeaderSlices(header, encrypted, Layers.Sign(p, header + encrypted), k);
    EcbPaddedInverts(p, Layers.EncryptionKey(p), frame);
  }

  lemma HeaderSlices(h: Bytes, middle: Bytes, digest: Block, k: Bytes)
    requires |h| == 40 && k == h + middle + digest
    ensures k[..|k| - 16] == h + middle && k[40..|k| - 16] == middle && k[|k| - 16..] == digest
    ensures k[..4] == h[..4] && k[4..6] == h[4..6] && k[6] == h[6] && k[7] == h[7] && k[8..12] == h[8..12]
    ensures k[12..20] == h[12..20] && k[20..28] == h[20..28] && k[28..40] == h[28..40]
  {
  }

  lemma PacketFields(length: nat, deviceId: nat, timestamp: Layers.Timestamp)
    ensures var h := Layers.PacketHeader(length, deviceId, timestamp);
            && h[..4] == [0x5A, 0x5A, 0x01, 0x11] && h[6] == 0x20 && h[7] == 0 && Low(h[4..6]) == length % 0x10000
            && AreZero(h[8..12]) && h[12..20] == timestamp
            && Low(h[20..28]) == deviceId % 0x1_0000_0000_0000_0000 && AreZero(h[28..40])
  {
    var h := Layers.PacketHeader(length, deviceId, timestamp);
    assert h[4..6] == [length % 256, (length / 256) % 256];
    TwoBytes(length % 256, (length / 256) % 256);
    SplitRemainder(length, 256);
    assert h[20..28] == LittleEndian(8, deviceId);
    LowIsRead(8, deviceId);
    assert Power(8) == 0x1_0000_0000_0000_0000;
    var front: Bytes := [0x5A, 0x5A, 0x01, 0x11, length % 256, (length / 256) % 256, 0x20, 0x00];
    front := front + Repeat(4, 0) + timestamp + LittleEndian(8, deviceId);
    ZeroTail(front, 12, h);
    assert h[28..40] == h[28..] && h[8..12] == Repeat(4, 0) && h[12..20] == timestamp;
  }

  /** A packet that is accepted checks: its start, its size, its signature, and what its frame decrypts from. */
  lemma PacketIsAuthentic(p: Suite, k: Bytes)
    requires Layers.DecodePacket(p, k).Some?
    ensures |k| >= 56 && k[0] == 0x5A && k[1] == 0x5A && 56 <= Low(k[4..6]) <= |k|
    ensures var n := Low(k[4..6]);
            && k[n - 16..n] == p.md5(k[..n - 16] + SignKey())
            && EcbDecryptUnpadded(p, p.md5(SignKey()), k[40..n - 16]) == Layers.DecodePacket(p, k)
            && Layers.DecodePacket(p, k).value != []
  {
    assert k[4..6] == [k[4], k[5]];
    TwoBytes(k[4], k[5]);
  }

  // ----- LAN envelopes -----

  /** Where an appliance finds the parts of a handshake: the token's size, the packet id and the token. */
  lemma HandshakeIsLaid(packetId: nat, token: Bytes)
    ensures var e := Layers.EncodeHandshakeRequest(packetId, token);
            && |e| == 8 + |token| && e[..2] == [0x83, 0x70] && e[4] == 0x20 && e[5] == 0
            && High(e[2..4]) == |token| % 0x10000 && High(e[6..8]) == packetId % 0x10000 && e[8..] == token
  {
    var e := Layers.EncodeHandshakeRequest(packetId, token);
    HighIsRead(|token|);
    HighIsRead(packetId);
    assert e[2..4] == BigEndian16(|token|) && e[6..8] == BigEndian16(packetId);
  }

  /** What an appliance reads in an encrypted request. */
  datatype Request = Request(packetId: nat, data: Bytes, filler: Bytes)

  /**
   The appliance's side of the envelope. Start and type are checked; the middle is decrypted; its first two
   bytes are the packet id, its last ones the filler that the header declares; and the hash at the end must
   be that of header and plaintext.
   */
  function OpenRequest(p: Suite, localKey: Bytes, e: Bytes): Option<Request> {
    if |e| < 54 || e[..2] != [0x83, 0x70] || e[4] != 0x20 || e[5] % 16 != 6 then None
    else
      var plain := AesCbcDecryptIv(p, localKey, Repeat(16, 0), e[6..|e| - 32]);
      var filler := e[5] as nat / 16;
      if |plain| < 2 + filler || p.sha256(e[..6] + plain) != e[|e| - 32..] then None
      else Some(Request(High(plain[..2]), plain[2..|plain| - filler], plain[|plain| - filler..]))
  }

  /** What is sealed as an appliance expects it opens, whatever the plaintext is. */
  lemma SealedIsOpened(p: Suite, localKey: Bytes, header: Bytes, plain: Bytes)
    requires ValidKey(localKey) && |header| == 6 && plain != [] && |plain| % 16 == 0
    requires header[..2] == [0x83, 0x70] && header[4] == 0x20 && header[5] % 16 == 6 && |plain| >= 2 + header[5] as nat / 16
    ensures var filler := header[5] as nat / 16;
            OpenRequest(p, localKey, header + AesCbcEncrypt(p, localKey, plain) + p.sha256(header + plain))
            == Some(Request(High(plain[..2]), plain[2..|plain| - filler], plain[|plain| - filler..]))
  {
    var encrypted, digest := AesCbcEncrypt(p, localKey, plain), p.sha256(header + plain);
    EnvelopeParts(header, encrypted, digest, header + encrypted + digest);
    CbcInverts(p, localKey, ZERO_IV, plain);
  }

  /** An encrypted request opens to its packet id, its data and its filler, and declares its size. */
  lemma RequestIsOpened(p: Suite, packetId: nat, localKey: Bytes, data: Bytes, padByte: byte)
    requires ValidKey(localKey)
    ensures var e := Layers.EncodeEncryptedRequest(p, packetId, localKey, data, padByte);
            && |e| >= 54 && High(e[2..4]) == (|e| - 8) % 0x10000
            && OpenRequest(p, localKey, e) == Some(Request(packetId % 0x10000, data, Repeat((14 - |data| % 16) % 16, padByte)))
  {
    var filler := Layers.Filler(data);
    var payload := Layers.Payload(packetId, data, padByte);
    var header := Layers.EnvelopeHeader(|data| + filler + 32, filler * 16 + 6);
    FillerIs(data);
    PayloadParts(packetId, data, padByte);
    HighIsRead(packetId);
    HeaderParts(|data| + filler + 32, filler * 16 + 6);
    SealedIsOpened(p, localKey, header, payload);
    EnvelopeParts(header, AesCbcEncrypt(p, localKey, payload), p.sha256(header + payload),
                  Layers.EncodeEncryptedRequest(p, packetId, localKey, data, padByte));
  }

  lemma HeaderParts(length: nat, extra: byte)
    ensures var h := Layers.EnvelopeHeader(length, extra);
            h[..2] == [0x83, 0x70] && High(h[2..4]) == length % 0x10000 && h[4] == 0x20 && h[5] == extra
  {
    HighIsRead(length);
    assert Layers.EnvelopeHeader(length, extra)[2..4] == BigEndian16(length);
  }

  lemma FillerIs(data: Bytes)
    ensures Layers.Filler(data) == (14 - |data| % 16) % 16
  {
  }

  lemma EnvelopeParts(header: Bytes, encrypted: Bytes, digest: Digest, e: Bytes)
    requires |header| == 6 && e == header + encrypted + digest
    ensures e[..6] == header && e[6..|e| - 32] == encrypted && e[|e| - 32..] == digest
    ensures e[..2] == header[..2] && e[2..4] == header[2..4] && e[4] == header[4] && e[5] == header[5]
  {
  }

  lemma PayloadParts(packetId: nat, data: Bytes, padByte: byte)
    ensures var payload, filler := Layers.Payload(packetId, data, padByte), Layers.Filler(data);
            && payload[..2] == BigEndian16(packetId) && payload[2..|payload| - filler] == data
            && payload[|payload| - filler..] == Repeat(filler, padByte)
  {
  }

  /** A response that is opened checks: its start, its type, and the hash of header and plaintext. */
  lemma ResponseIsAuthentic(p: Suite, localKey: Bytes, e: Bytes)
    requires Layers.DecodeEncryptedResponse(p, localKey, e).Some?
    ensures |e| >= 54 && e[..2] == [0x83, 0x70] && e[4] == 0x20 && e[5] % 16 == 3
    ensures var plain, filler := AesCbcDecryptIv(p, localKey, Repeat(16, 0), e[6..|e| - 32]), e[5] as nat / 16;
            && p.sha256(e[..6] + plain) == e[|e| - 32..] && |plain| >= 2 + filler
            && Layers.DecodeEncryptedResponse(p, localKey, e) == Some(plain[2..|plain| - filler])
  {
  }

  /** So one whose hash is replaced by any other is refused. */
  lemma ForgedHashRefused(p: Suite, localKey: Bytes, e: Bytes, digest: Digest)
    requires Layers.DecodeEncryptedResponse(p, localKey, e).Some? && digest != e[|e| - 32..]
    ensures Layers.DecodeEncryptedResponse(p, localKey, e[..|e| - 32] + digest) == None
  {
    ResponseIsAuthentic(p, localKey, e);
    var f := e[..|e| - 32] + digest;
    assert f[..6] == e[..6] && f[6..|f| - 32] == e[6..|e| - 32] && f[|f| - 32..] == digest;
    if Layers.DecodeEncryptedResponse(p, localKey, f).Some? {
      ResponseIsAuthentic(p, localKey, f);
    }
  }

  // ----- messages -----

  /** A message that is read begins as it must and is exactly as long as it declares, within the limit. */
  lemma MessageIsRecognised(v3: bool, line: Lan.Line)
    ensures var outcome := Lan.ReadMessage(v3, line).1;
            outcome.Ok? ==>
              var e := outcome.value;
              && 6 <= |e| <= 2054
              && if v3 then e[..2] == [0x83, 0x70] && |e| == 8 + High(e[2..4])
                 else e[..2] == [0x5A, 0x5A] && |e| == Low(e[4..6]) <= 2048
  {
    LanTheory.ReadTakes(v3, line);
    var outcome := Lan.ReadMessage(v3, line).1;
    if outcome.Ok? {
      var e := outcome.value;
      HeaderIsRecognised(v3, e[..6]);
      assert e[..6][2..4] == e[2..4] && e[..6][4..6] == e[4..6] && e[..6][..2] == e[..2];
    }
  }

  lemma HeaderIsRecognised(v3: bool, h: Bytes)
    requires |h| == 6
    ensures Lan.BodyLength(v3, h).Ok?
       <==> if v3 then h[..2] == [0x83, 0x70] && High(h[2..4]) <= 2046
            else h[..2] == [0x5A, 0x5A] && 6 <= Low(h[4..6]) <= 2048
    ensures Lan.BodyLength(v3, h).Ok? ==>
              Lan.BodyLength(v3, h).value == if v3 then High(h[2..4]) + 2 else Low(h[4..6]) - 6
  {
    assert h[2..4] == [h[2], h[3]] && h[4..6] == [h[4], h[5]] && h[..2] == [h[0], h[1]];
    TwoBytes(h[2], h[3]);
    TwoBytes(h[4], h[5]);
  }

  // ----- relay packets -----

  /** Where an appliance finds the parts of the relay's packet. */
  lemma RelayPacketIsLaid(frame: Bytes, applianceId: nat, seq_: nat, timestamp: RelayText.Stamp)
    ensures var k := RelayText.RelayPacket(frame, applianceId, seq_, timestamp);
            && |k| == |frame| + 56 && k[..4] == [0x5A, 0x5A, 0x01, 0] && k[6] == 32 && k[7] == 0
            && Low(k[4..6]) == |k| % 0x10000
            && Low(k[8..12]) == seq_ % 0x1_0000_0000 && k[12..20] == timestamp
            && Low(k[20..26]) == applianceId % 0x1_0000_0000_0000 && AreZero(k[26..40])
            && k[40..|k| - 16] == frame && AreZero(k[|k| - 16..])
  {
    var k := RelayText.RelayPacket(frame, applianceId, seq_, timestamp);
    var h := RelayText.RelayHeader(|frame| + 56, applianceId, seq_, timestamp);
    RelayFields(|frame| + 56, applianceId, seq_, timestamp);
    assert k[..40] == h && k[40..|k| - 16] == frame && k[|k| - 16..] == Repeat(16, 0);
    assert k[..4] == h[..4] && k[4..6] == h[4..6] && k[8..12] == h[8..12] && k[12..20] == h[12..20];
    assert k[20..26] == h[20..26] && k[26..40] == h[26..40];
  }

  lemma RelayFields(length: nat, applianceId: nat, seq_: nat, timestamp: RelayText.Stamp)
    ensures var h := RelayText.RelayHeader(length, applianceId, seq_, timestamp);
            && h[..4] == [0x5A, 0x5A, 0x01, 0] && h[6] == 32 && h[7] == 0 && Low(h[4..6]) == length % 0x10000
            && Low(h[8..12]) == seq_ % 0x1_0000_0000 && h[12..20] == timestamp
            && Low(h[20..26]) == applianceId % 0x1_0000_0000_0000 && AreZero(h[26..40])
  {
    var h := RelayText.RelayHeader(length, applianceId, seq_, timestamp);
    assert h[4..6] == [length % 256, (length / 256) % 256];
    TwoBytes(length % 256, (length / 256) % 256);
    SplitRemainder(length, 256);
    assert h[8..12] == LittleEndian(4, seq_) && h[20..26] == LittleEndian(6, applianceId);
    LowIsRead(4, seq_);
    LowIsRead(6, applianceId);
    assert Power(4) == 0x1_0000_0000 && Power(6) == 0x1_0000_0000_0000;
    var front: Bytes := [0x5A, 0x5A, 0x01, 0, length % 256, (length / 256) % 256, 32, 0];
    front := front + LittleEndian(4, seq_) + timestamp + LittleEndian(6, applianceId);
    ZeroTail(front, 14, h);
    assert h[26..40] == h[26..] && h[12..20] == timestamp;
  }

  // ----- who is addressed -----

  /** A state request goes to an air conditioner, as a control frame of its kind. */
  lemma SetStateIsAddressed(s: State.Settings, messageId: byte)
    ensures var f := State.SetFrame(s, messageId);
            && |f| == 37 && f[2] == 0xAC && f[9] == 0x02 && f[10] == 0x40 && f[10..34] == State.SetPayload(s)
            && f[34] == messageId
  {
    CommandIsLaid(Frame.DEVICE_TYPE_AC, Frame.FRAME_TYPE_CONTROL, State.SetPayload(s), messageId);
    State.FixedBytes(s);
    var f := State.SetFrame(s, messageId);
    assert f[10] == f[10..34][0];
  }

  /** So does a property request. */
  lemma SetPropertiesIsAddressed(items: seq<Properties.Item>, messageId: byte)
    ensures var f, n := Properties.SetFrame(items, messageId), |Properties.Laid(items)|;
            && |f| == n + 15 && f[2] == 0xAC && f[9] == 0x02 && f[10] == 0xB0 && f[11] as int == |items| % 256
            && f[12..12 + n] == Properties.Laid(items) && f[12 + n] == messageId
  {
    var payload, f := Properties.SetPayload(items), Properties.SetFrame(items, messageId);
    CommandIsLaid(Frame.DEVICE_TYPE_AC, Frame.FRAME_TYPE_CONTROL, payload, messageId);
    Properties.PayloadIsLaid(items);
    assert payload[..2][0] == payload[0] && payload[..2][1] == payload[1];
    assert f[10] == f[10..10 + |payload|][0] && f[11] == f[10..10 + |payload|][1];
    assert f[12..10 + |payload|] == f[10..10 + |payload|][2..];
  }

  /** A control request goes to a commercial unit. */
  lemma ControlIsAddressed(items: seq<Commercial.Item>, messageId: byte)
    ensures var f := Commercial.ControlFrame(items, messageId);
            && |f| == 5 * |items| + 13 && f[2] == 0xCC && f[9] == 0x02
            && f[10..10 + 5 * |items|] == Commercial.ControlPayload(items) && f[10 + 5 * |items|] == messageId
  {
    CommandIsLaid(Frame.DEVICE_TYPE_CC, Frame.FRAME_TYPE_CONTROL, Commercial.ControlPayload(items), messageId);
    Commercial.ControlEntriesFit(items);
  }
}
