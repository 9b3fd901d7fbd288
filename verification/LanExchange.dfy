/**
 What a well-behaved appliance gets through the LAN transport: the handshake, a few ignored commands,
 and then its answer.
 */
module LanExchange {
  import opened ByteStrings
  import opened Cipher
  import opened Layers
  import opened Lan
  import opened LanTheory

  /** The line once one delivery has been taken in and two reads have been made. */
  function AfterTwoReads(line: Line): Line
    requires line.deliveries != []
  {
    var rest := line.deliveries[1..];
    line.(unread := if rest == [] then [] else rest[0], deliveries := if rest == [] then [] else rest[1..])
  }

  /** A whole message that arrives on an empty line is read as it is. */
  lemma WholeMessageIsRead(v3: bool, line: Line)
    requires line.unread == [] && line.deliveries != []
    requires Framed(v3, line.deliveries[0]) == Some(|line.deliveries[0]|)
    ensures ReadMessage(v3, line) == (AfterTwoReads(line), Ok(line.deliveries[0]))
  {
    HeaderIsRead(line);
    var e := line.deliveries[0];
    RestIsRead(line.(unread := e[6..], deliveries := line.deliveries[1..]), |e| - 6);
    assert e[..6] + e[6..] == e;
  }

  lemma HeaderIsRead(line: Line)
    requires line.unread == [] && line.deliveries != [] && |line.deliveries[0]| >= 6
    ensures ReadFrom(line, 6) == (line.(unread := line.deliveries[0][6..], deliveries := line.deliveries[1..]),
                                  Some(line.deliveries[0][..6]))
  {
    assert [] + line.deliveries[0] == line.deliveries[0];
  }

  lemma RestIsRead(line: Line, n: nat)
    requires |line.unread| == n
    ensures ReadFrom(line, n) == (line.(unread := if line.deliveries == [] then [] else line.deliveries[0],
                                        deliveries := if line.deliveries == [] then [] else line.deliveries[1..]),
                                  Some(line.unread))
  {
    var now := Arrive(line);
    assert now.unread[..n] == line.unread;
    assert now.unread[n..] == if line.deliveries == [] then [] else line.deliveries[0];
  }

  /** Nothing arrived: nothing is taken. */
  lemma SilenceIsNoResponse(v3: bool, line: Line)
    requires line.unread == [] && line.deliveries != [] && line.deliveries[0] == []
    ensures ReadMessage(v3, line) == (line.(deliveries := line.deliveries[1..]), Err(NoResponse))
  {
    assert Arrive(line).unread == [];
  }

  // ----- the appliance's messages -----

  function HandshakeReply(p: Suite, key: Bytes, kind: byte, id: PacketId, secret: Digest): Bytes {
    EnvelopeHeader(64, kind) + BigEndian16(id) + HandshakeBody(p, key, secret)
  }

  /** How an appliance sends a frame: as a V2 packet, or as a packet in a response envelope. */
  function Answer(p: Suite, v3: bool, localKey: Bytes, packet: Bytes, id: PacketId, filler: byte): Bytes {
    if v3 then Seal(p, ENCRYPTED_RESPONSE, id, localKey, packet, filler) else packet
  }

  /** The longest frame a reply can carry past the reader's limit of 2048 bytes. */
  function MaxReply(v3: bool): nat {
    if v3 then 1951 else 1983
  }

  /** The two conditions on a message of its own size: it declares that size, and it is not too long. */
  lemma FramedWhen(v3: bool, e: Bytes)
    requires |e| >= 6
    ensures Framed(v3, e) == Some(|e|)
       <==> if v3 then e[0] == 0x83 && e[1] == 0x70 && |e| == EnvelopeLength(e) + 8 <= MAX_BODY + 6
            else e[0] == 0x5A && e[1] == 0x5A && |e| == DeclaredLength(e) <= MAX_BODY
  {
    var header := e[..6];
    assert forall i :: 0 <= i < 6 ==> header[i] == e[i];
  }

  lemma SealedIsFramed(p: Suite, localKey: Bytes, packet: Bytes, id: PacketId, filler: byte)
    requires |packet| % 16 == 8
    ensures var e := Seal(p, ENCRYPTED_RESPONSE, id, localKey, packet, filler);
            Framed(true, e) == Some(|e|) <==> |packet| <= 2008
  {
    EnvelopeDeclaresItsSize(p, ENCRYPTED_RESPONSE, id, localKey, packet, filler);
    assert Filler(packet) == 6;
    FramedWhen(true, Seal(p, ENCRYPTED_RESPONSE, id, localKey, packet, filler));
  }

  /** An answer is read as one message exactly when its frame is within the limit. */
  lemma AnswerIsFramed(p: Suite, v3: bool, localKey: Bytes, deviceId: nat, frame: Bytes, timestamp: Timestamp,
                       id: PacketId, filler: byte)
    ensures var e := Answer(p, v3, localKey, EncodePacket(p, deviceId, frame, timestamp), id, filler);
            Framed(v3, e) == Some(|e|) <==> |frame| <= MaxReply(v3)
  {
    var packet := EncodePacket(p, deviceId, frame, timestamp);
    PadLength(frame);
    assert |packet| == 56 + 16 * (|frame| / 16 + 1);
    if v3 {
      SealedIsFramed(p, localKey, packet, id, filler);
    } else {
      PacketDeclaresItsSize(p, deviceId, frame, timestamp);
      FramedWhen(false, packet);
    }
  }

  // ----- one exchange -----

  lemma HandshakeCompletes(p: Suite, s: Session, kind: byte, id: PacketId, secret: Digest)
    requires s.IsV3() && |s.token| == 64 && |s.key| == 32
    requires s.line.unread == [] && s.line.deliveries != [] && s.line.accepts != [] && s.line.accepts[0]
    requires s.line.deliveries[0] == HandshakeReply(p, s.key, kind, id, secret)
    ensures var (after, outcome) := Authenticate(p, s);
            && outcome == Ok(()) && after.localKey == XorBytes(secret, s.key)
            && after == s.(line := after.line, localKey := after.localKey, packetId := after.packetId)
            && after.line == AfterTwoReads(s.line).(accepts := s.line.accepts[1..], log := after.line.log)
  {
    var reply := HandshakeReply(p, s.key, kind, id, secret);
    var (line1, sent) := WriteTo(s.line, EncodeHandshakeRequest(s.packetId, s.token));
    assert reply[..6] == EnvelopeHeader(64, kind) && |reply| == 72;
    assert reply[8..] == HandshakeBody(p, s.key, secret);
    WholeMessageIsRead(true, line1);
    HandshakeAgrees(p, s.key, secret);
  }

  lemma IgnoredAttempt(p: Suite, s: Session, packet: Bytes)
    requires s.line.unread == [] && s.line.deliveries != [] && s.line.deliveries[0] == []
    requires s.line.accepts != [] && s.line.accepts[0]
    ensures var (after, outcome) := SendOnce(p, s, packet);
            && outcome == Err(NoResponse) && after == s.(line := after.line, packetId := after.packetId)
            && after.line == s.line.(deliveries := s.line.deliveries[1..], accepts := s.line.accepts[1..],
                                     log := after.line.log)
  {
    var (line1, sent) := WriteTo(s.line, Request(p, s.IsV3(), s.localKey, packet)(s.packetId));
    SilenceIsNoResponse(s.IsV3(), line1);
  }

  lemma AnsweredAttempt(p: Suite, s: Session, packet: Bytes, deviceId: nat, frame: Bytes, timestamp: Timestamp,
                        id: PacketId, filler: byte)
    requires s.line.unread == [] && s.line.deliveries != [] && s.line.accepts != [] && s.line.accepts[0]
    requires s.line.deliveries[0] == Answer(p, s.IsV3(), s.localKey, EncodePacket(p, deviceId, frame, timestamp), id, filler)
    requires 0 < |frame| <= MaxReply(s.IsV3()) && (s.IsV3() ==> ValidKey(s.localKey))
    ensures SendOnce(p, s, packet).1 == Ok(frame)
  {
    var (line1, sent) := WriteTo(s.line, Request(p, s.IsV3(), s.localKey, packet)(s.packetId));
    AnswerIsFramed(p, s.IsV3(), s.localKey, deviceId, frame, timestamp, id, filler);
    WholeMessageIsRead(s.IsV3(), line1);
    var inner := EncodePacket(p, deviceId, frame, timestamp);
    PacketRoundTrip(p, deviceId, frame, timestamp, []);
    assert inner + [] == inner;
    if s.IsV3() {
      EnvelopeRoundTrip(p, ENCRYPTED_RESPONSE, id, s.localKey, inner, filler);
    }
  }

  // ----- ignored commands -----

  /** The appliance ignores `k` commands, each until the read gives up, and answers the next. */
  predicate AnswersAfter(line: Line, k: nat, answer: Bytes) {
    && line.unread == [] && k < |line.deliveries| && k < |line.accepts|
    && (forall i :: 0 <= i < k ==> line.deliveries[i] == [])
    && line.deliveries[k] == answer
    && (forall i :: 0 <= i <= k ==> line.accepts[i])
  }

  lemma AnswersSooner(line: Line, after: Line, k: nat, answer: Bytes)
    requires k > 0 && AnswersAfter(line, k, answer)
    requires after.unread == [] && after.deliveries == line.deliveries[1..] && after.accepts == line.accepts[1..]
    ensures AnswersAfter(after, k - 1, answer)
  {
  }

  /** Ignored commands cost attempts and nothing else: the answer to a later one is the reply. */
  lemma {:induction false} IgnoredThenAnswered(p: Suite, s: Session, packet: Bytes, n: nat, k: nat, deviceId: nat,
                                               frame: Bytes, timestamp: Timestamp, id: PacketId, filler: byte)
    requires k < n && 0 < |frame| <= MaxReply(s.IsV3()) && (s.IsV3() ==> ValidKey(s.localKey))
    requires var inner := EncodePacket(p, deviceId, frame, timestamp);
             AnswersAfter(s.line, k, Answer(p, s.IsV3(), s.localKey, inner, id, filler))
    ensures Retry(Sender(p, packet), s, n).1 == Ok(frame)
    decreases k
  {
    if k == 0 {
      AnsweredAttempt(p, s, packet, deviceId, frame, timestamp, id, filler);
    } else {
      IgnoredAttempt(p, s, packet);
      var s1 := SendOnce(p, s, packet).0;
      var inner := EncodePacket(p, deviceId, frame, timestamp);
      AnswersSooner(s.line, s1.line, k, Answer(p, s.IsV3(), s.localKey, inner, id, filler));
      IgnoredThenAnswered(p, s1, packet, n - 1, k - 1, deviceId, frame, timestamp, id, filler);
    }
  }

  /**
   From a fresh V3 session: the handshake completes, the appliance ignores fewer commands than there
   are attempts, and its answer under the agreed key is the reply of the send.
   */
  lemma FreshSessionIsAnswered(p: Suite, s: Session, request: Bytes, kind: byte, handshakeId: PacketId, secret: Digest,
                               k: nat, deviceId: nat, frame: Bytes, timestamp: Timestamp, id: PacketId, filler: byte)
    requires s.IsV3() && s.localKey == [] && |s.token| == 64 && |s.key| == 32
    requires s.line.unread == [] && |s.line.deliveries| >= 2 && s.line.accepts != [] && s.line.accepts[0]
    requires s.line.deliveries[0] == HandshakeReply(p, s.key, kind, handshakeId, secret)
    requires k < s.retries && 0 < |frame| <= MaxReply(true)
    requires var inner := EncodePacket(p, deviceId, frame, timestamp);
             AnswersAfter(AfterTwoReads(s.line).(accepts := s.line.accepts[1..]), k,
                          Seal(p, ENCRYPTED_RESPONSE, id, XorBytes(secret, s.key), inner, filler))
    ensures SendFrame(p, s, request).1 == Ok(frame)
  {
    HandshakeCompletes(p, s, kind, handshakeId, secret);
    var s1 := Authenticate(p, s).0;
    IgnoredThenAnswered(p, s1, EncodePacket(p, s.deviceId, request, s.timestamp), s.retries, k,
                        deviceId, frame, timestamp, id, filler);
  }
}
