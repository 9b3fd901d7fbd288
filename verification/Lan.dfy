/**
 The LAN transport as a state machine over values: what every call does to the session and to the
 line it talks over. `LanTransport` is the class; its methods are proved to take these steps.
 */
module Lan {
  import opened ByteStrings
  import opened Cipher
  import opened Layers

  datatype Error =
    | NoResponse
    | UnexpectedStart
    | ImplausibleLength
    | TruncatedPacket
    | BadCredentials
    | HandshakeNotSent
    | HandshakeTooShort
    | HandshakeRejected
    | CommandNotSent
    | NotDecrypted
    | NotDecoded

  datatype Result<+T> = Ok(value: T) | Err(error: Error)

  // ----- the line -----

  /** One write, and whether the socket took it. */
  datatype Write = Write(data: Bytes, accepted: bool)

  /**
   A connection and its whole future: before each read the next delivery of the peer arrives, and
   each write meets the next entry of `accepts`. When they run out, nothing arrives and no write
   succeeds. On a `lossy` connection a read that gives up has thrown away what had come, as one over a
   socket with a timeout does; on others it takes nothing.
   */
  datatype Line = Line(unread: Bytes, deliveries: seq<Bytes>, accepts: seq<bool>, log: seq<Write>, lossy: bool)

  function WriteTo(line: Line, data: Bytes): (Line, bool) {
    var ok := line.accepts != [] && line.accepts[0];
    (line.(accepts := if line.accepts == [] then [] else line.accepts[1..], log := line.log + [Write(data, ok)]), ok)
  }

  function Arrive(line: Line): Line {
    if line.deliveries == [] then line
    else line.(unread := line.unread + line.deliveries[0], deliveries := line.deliveries[1..])
  }

  /** All of `length` bytes, or a failure. */
  function ReadFrom(line: Line, length: nat): (r: (Line, Option<Bytes>))
    ensures r.1.Some? ==> |r.1.value| == length
  {
    var now := Arrive(line);
    if length <= |now.unread| then (now.(unread := now.unread[length..]), Some(now.unread[..length]))
    else (if now.lossy then now.(unread := []) else now, None)
  }

  // ----- the session -----

  type Retries = n: nat | n > 0 witness 3

  /** A packet id is sixteen bits and wraps around. */
  type PacketId = n: nat | n < 0x10000

  datatype Session = Session(
    deviceId: nat, token: Bytes, key: Bytes, localKey: Bytes, packetId: PacketId, retries: Retries,
    timestamp: Timestamp, line: Line)
  {
    predicate IsV3() {
      token != [] && key != []
    }

    predicate Authenticated() {
      !IsV3() || localKey != []
    }
  }

  const MAX_BODY: nat := 2048

  /** How much follows a six-byte header: of an envelope, or of a bare V2 packet. */
  function BodyLength(v3: bool, header: Bytes): Result<nat>
    requires |header| == 6
  {
    if v3 then
      // The envelope's length leaves out the two bytes of the packet id.
      var body := EnvelopeLength(header) + 2;
      if header[0] != 0x83 || header[1] != 0x70 then Err(UnexpectedStart)
      else if body > MAX_BODY then Err(ImplausibleLength)
      else Ok(body)
    else
      // The packet's length counts the whole packet.
      var length := DeclaredLength(header);
      if header[0] != 0x5A || header[1] != 0x5A then Err(UnexpectedStart)
      else if length < 6 || length > MAX_BODY then Err(ImplausibleLength)
      else Ok(length - 6)
  }

  /** Reads one envelope, or one V2 packet: the header first, then exactly what it declares. */
  function ReadMessage(v3: bool, line: Line): (Line, Result<Bytes>) {
    var (line1, header) := ReadFrom(line, 6);
    if header.None? then (line1, Err(NoResponse))
    else
      var body := BodyLength(v3, header.value);
      if body.Err? then (line1, Err(body.error))
      else
        var (line2, rest) := ReadFrom(line1, body.value);
        if rest.None? then (line2, Err(TruncatedPacket)) else (line2, Ok(header.value + rest.value))
  }

  function Advance(packetId: PacketId, writes: nat): PacketId {
    (packetId + writes) % 0x10000
  }

  function Authenticate(p: Suite, s: Session): (Session, Result<()>) {
    if !s.IsV3() then (s, Ok(()))
    else if |s.token| != 64 || |s.key| != 32 then (s, Err(BadCredentials))
    else
      var (line1, sent) := WriteTo(s.line, EncodeHandshakeRequest(s.packetId, s.token));
      var s1 := s.(packetId := Advance(s.packetId, 1), line := line1);
      if !sent then (s1, Err(HandshakeNotSent))
      else
        var (line2, packet) := ReadMessage(true, line1);
        var s2 := s1.(line := line2);
        if packet.Err? then (s2, Err(packet.error))
        else if |packet.value| < 72 then (s2, Err(HandshakeTooShort))
        else
          var localKey := DeriveLocalKey(p, s.key, packet.value[8..]);
          if localKey.None? then (s2, Err(HandshakeRejected))
          else (s2.(localKey := localKey.value), Ok(()))
  }

  /**
   The request for a packet under each packet id. In V3 it is sealed, with a filler byte made from the
   id; a bare V2 packet has no id.
   */
  function Request(p: Suite, v3: bool, localKey: Bytes, packet: Bytes): PacketId -> Bytes {
    (id: PacketId) => if v3 then EncodeEncryptedRequest(p, id, localKey, packet, (id * 31 + 7) % 256) else packet
  }

  function ReadReply(p: Suite, s: Session): (Session, Result<Bytes>) {
    if s.IsV3() then
      var (line1, envelope) := ReadMessage(true, s.line);
      var s1 := s.(line := line1);
      if envelope.Err? then (s1, Err(envelope.error))
      else
        match DecodeEncryptedResponse(p, s.localKey, envelope.value)
        case None => (s1, Err(NotDecrypted))
        case Some(inner) =>
          match DecodePacket(p, inner)
          case None => (s1, Err(NotDecoded))
          case Some(frame) => (s1, Ok(frame))
    else
      var (line1, packet) := ReadMessage(false, s.line);
      var s1 := s.(line := line1);
      if packet.Err? then (s1, Err(packet.error))
      else
        match DecodePacket(p, packet.value)
        case None => (s1, Err(NotDecoded))
        case Some(frame) => (s1, Ok(frame))
  }

  function SendOnce(p: Suite, s: Session, packet: Bytes): (Session, Result<Bytes>) {
    var (line1, sent) := WriteTo(s.line, Request(p, s.IsV3(), s.localKey, packet)(s.packetId));
    var s1 := s.(line := line1, packetId := if s.IsV3() then Advance(s.packetId, 1) else s.packetId);
    if !sent then (s1, Err(CommandNotSent)) else ReadReply(p, s1)
  }

  function Sender(p: Suite, packet: Bytes): Session -> (Session, Result<Bytes>) {
    s => SendOnce(p, s, packet)
  }

  /** The retry loop: at most `n` attempts, none after a reply or a failed write. */
  function Retry<S>(attempt: S -> (S, Result<Bytes>), s: S, n: nat): (S, Result<Bytes>)
    requires n > 0
    decreases n
  {
    var (s1, outcome) := attempt(s);
    if Worthwhile(outcome) && n > 1 then Retry(attempt, s1, n - 1) else (s1, outcome)
  }

  /** Only a refused write ends the attempts; after any other failure there may be one more. */
  predicate Worthwhile(r: Result<Bytes>) {
    r.Err? && r.error != CommandNotSent
  }

  function Handshaker(p: Suite): Session -> (Session, Result<()>) {
    s => Authenticate(p, s)
  }

  /** A send logs in when it has to, and gives up if that fails. */
  function LoginAndRetry(login: Session -> (Session, Result<()>), attempt: Session -> (Session, Result<Bytes>),
                         s: Session): (Session, Result<Bytes>)
  {
    var (s1, ready) := if s.Authenticated() then (s, Ok(())) else login(s);
    if ready.Err? then (s1, Err(ready.error)) else Retry(attempt, s1, s.retries)
  }

  function SendFrame(p: Suite, s: Session, frame: Bytes): (Session, Result<Bytes>) {
    LoginAndRetry(Handshaker(p), Sender(p, EncodePacket(p, s.deviceId, frame, s.timestamp)), s)
  }
}
