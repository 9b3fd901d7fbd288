/**
 The LAN transport as the class it is: fields that calls update in place, over a connection it writes
 to and reads from. Every method is proved to take exactly the step `Lan` gives for it.
 */
module Transport {
  import opened ByteStrings
  import opened Cipher
  import opened Layers
  import opened Lan

  /** The injected byte stream. */
  class Connection {
    var unread: Bytes
    var deliveries: seq<Bytes>
    var accepts: seq<bool>
    var log: seq<Write>
    const lossy: bool

    function State(): Line
      reads this
    {
      Line(unread, deliveries, accepts, log, lossy)
    }

    constructor (deliveries: seq<Bytes>, accepts: seq<bool>, lossy: bool)
      ensures State() == Line([], deliveries, accepts, [], lossy)
    {
      unread, log := [], [];
      this.deliveries, this.accepts, this.lossy := deliveries, accepts, lossy;
    }

    method Send(data: Bytes) returns (ok: bool)
      modifies this
      ensures (State(), ok) == WriteTo(old(State()), data)
    {
      ok := accepts != [] && accepts[0];
      if accepts != [] {
        accepts := accepts[1..];
      }
      log := log + [Write(data, ok)];
    }

    /** Fills exactly `length` bytes, or fails. */
    method ReadExact(length: nat) returns (out: Option<Bytes>)
      modifies this
      ensures (State(), out) == ReadFrom(old(State()), length)
    {
      if deliveries != [] {
        unread := unread + deliveries[0];
        deliveries := deliveries[1..];
      }
      if length > |unread| {
        if lossy {
          unread := [];
        }
        return None;
      }
      out := Some(unread[..length]);
      unread := unread[length..];
    }
  }

  class LanTransport {
    const suite: Suite
    const deviceId: nat
    var token: Bytes
    var key: Bytes
    var localKey: Bytes
    var connection: Connection
    var packetId: PacketId
    var retries: Retries
    var timestamp: Timestamp

    /** The transport's state and that of the line it talks over. */
    function State(): Session
      reads this, connection
    {
      Session(deviceId, token, key, localKey, packetId, retries, timestamp, connection.State())
    }

    constructor (suite: Suite, deviceId: nat, connection: Connection)
      ensures this.suite == suite && this.connection == connection
      ensures State() == Session(deviceId, [], [], [], 0, 3, [0, 0, 0, 12, 1, 1, 26, 20], connection.State())
    {
      this.suite, this.deviceId, this.connection := suite, deviceId, connection;
      token, key, localKey, packetId, retries := [], [], [], 0, 3;
      timestamp := [0, 0, 0, 12, 1, 1, 26, 20];
    }

    method UseCredentials(token: Bytes, key: Bytes)
      modifies this
      ensures connection == old(connection)
      ensures State() == old(State()).(token := token, key := key, localKey := [])
    {
      this.token, this.key, localKey := token, key, [];
    }

    method UseRetries(n: int)
      modifies this
      ensures connection == old(connection)
      ensures State() == old(State()).(retries := if n > 0 then n else 1)
    {
      retries := if n > 0 then n else 1;
    }

    method ResetSession()
      modifies this
      ensures connection == old(connection)
      ensures State() == old(State()).(localKey := [])
    {
      localKey := [];
    }

    /** One envelope: its header first, then exactly as much as that declares. */
    method ReadEnvelope() returns (packet: Result<Bytes>)
      modifies connection
      ensures (connection.State(), packet) == ReadMessage(true, old(connection.State()))
    {
      var header := connection.ReadExact(6);
      if header.None? {
        return Err(NoResponse);
      }
      var head := header.value;
      if head[0] != 0x83 || head[1] != 0x70 {
        return Err(UnexpectedStart);
      }
      var body := 256 * head[2] as int + head[3] as int + 2;
      if body > 2048 {
        return Err(ImplausibleLength);
      }
      var rest := connection.ReadExact(body);
      if rest.None? {
        return Err(TruncatedPacket);
      }
      packet := Ok(head + rest.value);
    }

    /** One bare V2 packet, whose length field counts its header too. */
    method ReadBarePacket() returns (packet: Result<Bytes>)
      modifies connection
      ensures (connection.State(), packet) == ReadMessage(false, old(connection.State()))
    {
      var header := connection.ReadExact(6);
      if header.None? {
        return Err(NoResponse);
      }
      var head := header.value;
      if head[0] != 0x5A || head[1] != 0x5A {
        return Err(UnexpectedStart);
      }
      var length := head[4] as int + 256 * head[5] as int;
      if length < 6 || length > 2048 {
        return Err(ImplausibleLength);
      }
      var rest := connection.ReadExact(length - 6);
      if rest.None? {
        return Err(TruncatedPacket);
      }
      packet := Ok(head + rest.value);
    }

    method LogIn() returns (outcome: Result<()>)
      modifies this, connection
      ensures connection == old(connection)
      ensures (State(), outcome) == Authenticate(suite, old(State()))
    {
      if token == [] || key == [] {
        return Ok(());
      }
      if |token| != 64 || |key| != 32 {
        return Err(BadCredentials);
      }
      var request := EncodeHandshakeRequest(packetId, token);
      packetId := (packetId + 1) % 0x10000;
      var sent := connection.Send(request);
      if !sent {
        return Err(HandshakeNotSent);
      }
      var packet := ReadEnvelope();
      if packet.Err? {
        return Err(packet.error);
      }
      if |packet.value| < 72 {
        return Err(HandshakeTooShort);
      }
      var derived := DeriveSessionKey(suite, key, packet.value[8..]);
      if derived.None? {
        return Err(HandshakeRejected);
      }
      localKey := derived.value;
      outcome := Ok(());
    }

    method TrySend(packet: Bytes) returns (reply: Result<Bytes>)
      modifies this, connection
      ensures connection == old(connection)
      ensures (State(), reply) == Sender(suite, packet)(old(State()))
    {
      if token == [] || key == [] {
        var sent := connection.Send(packet);
        if !sent {
          return Err(CommandNotSent);
        }
        var full := ReadBarePacket();
        if full.Err? {
          return Err(full.error);
        }
        var frame := DecodePacket(suite, full.value);
        return if frame.None? then Err(NotDecoded) else Ok(frame.value);
      }
      var padByte := (packetId * 31 + 7) % 256;
      var request := EncodeEncryptedRequest(suite, packetId, localKey, packet, padByte);
      packetId := (packetId + 1) % 0x10000;
      var sent := connection.Send(request);
      if !sent {
        return Err(CommandNotSent);
      }
      var envelope := ReadEnvelope();
      if envelope.Err? {
        return Err(envelope.error);
      }
      var inner := DecodeEncryptedResponse(suite, localKey, envelope.value);
      if inner.None? {
        return Err(NotDecrypted);
      }
      var frame := DecodePacket(suite, inner.value);
      reply := if frame.None? then Err(NotDecoded) else Ok(frame.value);
    }

    /** The retry loop. */
    method SendPacket(packet: Bytes) returns (reply: Result<Bytes>)
      modifies this, connection
      ensures connection == old(connection)
      ensures (State(), reply) == Retry(Sender(suite, packet), old(State()), old(retries))
    {
      ghost var start := State();
      reply := Err(NoResponse);
      var tried := 0;
      while tried < retries
        invariant connection == old(connection) && retries == start.retries && tried <= retries
        invariant Retry(Sender(suite, packet), start, start.retries)
               == if tried < retries then Retry(Sender(suite, packet), State(), retries - tried) else (State(), reply)
      {
        reply := TrySend(packet);
        if reply.Ok? || reply.error == CommandNotSent {
          return;
        }
        tried := tried + 1;
      }
    }

    /** A send logs in first if there is no session key yet. */
    method Send(frame: Bytes) returns (reply: Result<Bytes>)
      modifies this, connection
      ensures connection == old(connection)
      ensures (State(), reply) == SendFrame(suite, old(State()), frame)
    {
      if token != [] && key != [] && localKey == [] {
        var ready := LogIn();
        if ready.Err? {
          return Err(ready.error);
        }
      }
      var packet := BuildPacket(suite, deviceId, frame, timestamp);
      reply := SendPacket(packet);
    }
  }
}
