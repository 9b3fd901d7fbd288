/**
 What one send over the LAN transport writes: one handshake at most and a bounded number of commands, a
 fresh packet id for every write, and after a handshake only commands under the key its reply gives.
 */
module LanWrites {
  import opened ByteStrings
  import opened Cipher
  import opened Layers
  import opened Lan
  import opened LanTheory

  // ----- one send -----

  lemma ReadKeepsLog(v3: bool, line: Line)
    ensures var (after, outcome) := ReadMessage(v3, line);
            after == line.(unread := after.unread, deliveries := after.deliveries) && outcome != Err(CommandNotSent)
  {
  }

  /** Reading fails in other ways than writing does, and leaves the log alone. */
  lemma ReplyIsNoWrite(p: Suite, s: Session)
    ensures var (after, outcome) := ReadReply(p, s);
            after == s.(line := after.line) && after.line.log == s.line.log && outcome != Err(CommandNotSent)
  {
    ReadKeepsLog(s.IsV3(), s.line);
  }

  /** The packet id after some writes: V2 has none to advance. */
  function Advanced(s: Session, writes: nat): PacketId {
    if s.IsV3() then Advance(s.packetId, writes) else s.packetId
  }

  /** `after` differs from `s` in its line and packet id only. */
  predicate Continues(s: Session, after: Session, writes: nat) {
    after == s.(line := after.line, packetId := Advanced(s, writes))
  }

  lemma AdvancedAdds(s: Session, s1: Session, a: nat, b: nat)
    requires s1.IsV3() == s.IsV3() && s1.packetId == Advanced(s, a)
    ensures Advanced(s1, b) == Advanced(s, a + b)
  {
  }

  /** What an attempt or more in state `s` leaves behind when it wrote `written`. */
  ghost predicate Wrote(request: PacketId -> Bytes, s: Session, after: Session, outcome: Result<Bytes>,
                        written: seq<Write>)
  {
    && after.line.log == s.line.log + written && 0 < |written|
    && (forall j: nat :: j < |written| ==>
          && written[j].data == request(Advanced(s, j))
          && (written[j].accepted || j == |written| - 1))
    && written[|written| - 1].accepted == (outcome != Err(CommandNotSent))
    && Continues(s, after, |written|)
  }

  function Only(request: PacketId -> Bytes, s: Session, outcome: Result<Bytes>): seq<Write> {
    [Write(request(s.packetId), outcome != Err(CommandNotSent))]
  }

  lemma WroteOnce(request: PacketId -> Bytes, s: Session, after: Session, outcome: Result<Bytes>)
    requires after.line.log == s.line.log + Only(request, s, outcome) && Continues(s, after, 1)
    ensures Wrote(request, s, after, outcome, Only(request, s, outcome))
  {
    assert Advanced(s, 0) == s.packetId;
  }

  lemma AttemptWrites(p: Suite, s: Session, packet: Bytes)
    ensures var (after, outcome) := SendOnce(p, s, packet);
            var request := Request(p, s.IsV3(), s.localKey, packet);
            Wrote(request, s, after, outcome, Only(request, s, outcome))
  {
    var request := Request(p, s.IsV3(), s.localKey, packet);
    var (line1, sent) := WriteTo(s.line, request(s.packetId));
    ReplyIsNoWrite(p, s.(line := line1, packetId := Advanced(s, 1)));
    var (after, outcome) := SendOnce(p, s, packet);
    WroteOnce(request, s, after, outcome);
  }

  lemma WroteAgain(request: PacketId -> Bytes, s: Session, s1: Session, after: Session, first: Result<Bytes>,
                   outcome: Result<Bytes>, later: seq<Write>)
    requires Wrote(request, s, s1, first, Only(request, s, first)) && first != Err(CommandNotSent)
    requires Wrote(request, s1, after, outcome, later)
    ensures Wrote(request, s, after, outcome, Only(request, s, first) + later)
  {
    var written := Only(request, s, first) + later;
    forall j: nat | j < |written|
      ensures written[j].data == request(Advanced(s, j))
      ensures written[j].accepted || j == |written| - 1
    {
      if j > 0 {
        assert written[j] == later[j - 1];
        AdvancedAdds(s, s1, 1, j - 1);
      }
    }
    assert written[|written| - 1] == later[|later| - 1];
    AdvancedAdds(s, s1, 1, |later|);
    assert s.line.log + Only(request, s, first) + later == s.line.log + written;
  }

  ghost predicate WritesOnce(v3: bool, localKey: Bytes, request: PacketId -> Bytes,
                             attempt: Session -> (Session, Result<Bytes>))
  {
    forall s: Session :: s.IsV3() == v3 && s.localKey == localKey ==>
      Wrote(request, s, attempt(s).0, attempt(s).1, Only(request, s, attempt(s).1))
  }

  lemma SenderWritesOnce(p: Suite, v3: bool, localKey: Bytes, packet: Bytes)
    ensures WritesOnce(v3, localKey, Request(p, v3, localKey, packet), Sender(p, packet))
  {
    var request, attempt := Request(p, v3, localKey, packet), Sender(p, packet);
    forall s: Session | s.IsV3() == v3 && s.localKey == localKey
      ensures Wrote(request, s, attempt(s).0, attempt(s).1, Only(request, s, attempt(s).1))
    {
      AttemptWrites(p, s, packet);
    }
  }

  lemma {:induction false} RetriesWrite(request: PacketId -> Bytes, attempt: Session -> (Session, Result<Bytes>),
                                        s: Session, n: nat) returns (written: seq<Write>)
    requires n > 0 && WritesOnce(s.IsV3(), s.localKey, request, attempt)
    ensures var (after, outcome) := Retry(attempt, s, n);
            Wrote(request, s, after, outcome, written) && |written| <= n
    decreases n
  {
    var (s1, outcome) := attempt(s);
    written := Only(request, s, outcome);
    if Worthwhile(outcome) && n > 1 {
      var later := RetriesWrite(request, attempt, s1, n - 1);
      var (after, last) := Retry(attempt, s1, n - 1);
      WroteAgain(request, s, s1, after, outcome, last, later);
      written := written + later;
    }
  }

  /** What comes back for a handshake sent now: the envelope read, if the write is accepted. */
  function HandshakeReply(s: Session): Result<Bytes> {
    var (line1, sent) := WriteTo(s.line, EncodeHandshakeRequest(s.packetId, s.token));
    if sent then ReadMessage(true, line1).1 else Err(HandshakeNotSent)
  }

  /** The reply read to a handshake sent now hashes right, under the key of now, and gives this session key. */
  function Deriving(p: Suite): (Session, Bytes) -> bool {
    (s: Session, localKey: Bytes) =>
      var reply := HandshakeReply(s);
      reply.Ok? && |reply.value| >= 72 && DeriveLocalKey(p, s.key, reply.value[8..]) == Some(localKey)
  }

  /** A login succeeds exactly when its sizes are right, its write is accepted, and a reply of 72 bytes hashes right. */
  lemma LoginSucceedsWhen(p: Suite, s: Session)
    requires s.IsV3()
    ensures Authenticate(p, s).1.Ok?
       <==> && |s.token| == 64 && |s.key| == 32 && HandshakeReply(s).Ok? && |HandshakeReply(s).value| == 72
            && p.sha256(CbcDecrypt(p, s.key, Repeat(16, 0), HandshakeReply(s).value[8..40])) == HandshakeReply(s).value[40..]
    ensures Authenticate(p, s).1.Ok? ==>
              XorBytes(Authenticate(p, s).0.localKey, s.key)
              == CbcDecrypt(p, s.key, Repeat(16, 0), HandshakeReply(s).value[8..40])
  {
    var reply := HandshakeReply(s);
    if reply.Ok? && |reply.value| >= 72 && |s.key| == 32 {
      DerivedKeyIsChecked(p, s.key, reply.value[8..]);
      assert reply.value[8..][..32] == reply.value[8..40] && reply.value[8..][32..] == reply.value[40..];
    }
  }

  /** The handshake a login writes, if its credentials have the right size. */
  function Greeting(s: Session, outcome: Result<()>): seq<Write> {
    if s.IsV3() && |s.token| == 64 && |s.key| == 32 then
      [Write(EncodeHandshakeRequest(s.packetId, s.token), outcome != Err(HandshakeNotSent))]
    else []
  }

  /** What a login leaves behind: a new session key exactly if it succeeds, and that from the reply it read. */
  ghost predicate LoggedIn(derives: (Session, Bytes) -> bool, s: Session, after: Session, outcome: Result<()>) {
    && after.line.log == s.line.log + Greeting(s, outcome)
    && after == s.(line := after.line, localKey := after.localKey, packetId := Advanced(s, |Greeting(s, outcome)|))
    && (if s.IsV3() && outcome.Ok? then Greeting(s, outcome) != [] && after.localKey != [] && derives(s, after.localKey)
        else after.localKey == s.localKey)
  }

  ghost predicate LogsIn(derives: (Session, Bytes) -> bool, login: Session -> (Session, Result<()>)) {
    forall s :: LoggedIn(derives, s, login(s).0, login(s).1)
  }

  lemma LoginWrites(p: Suite, s: Session)
    ensures var (after, outcome) := Authenticate(p, s); LoggedIn(Deriving(p), s, after, outcome)
  {
  }

  lemma HandshakerLogsIn(p: Suite)
    ensures LogsIn(Deriving(p), Handshaker(p))
  {
    forall s ensures LoggedIn(Deriving(p), s, Handshaker(p)(s).0, Handshaker(p)(s).1) {
      LoginWrites(p, s);
    }
  }

  /** A send is its login, if one is needed, and then its attempts. */
  ghost predicate Sent(derives: (Session, Bytes) -> bool, request: PacketId -> Bytes, s: Session, after: Session,
                       outcome: Result<Bytes>, handshake: seq<Write>, commands: seq<Write>)
  {
    && after.line.log == s.line.log + handshake + commands
    && |handshake| <= 1 && |commands| <= s.retries
    && (handshake != [] ==> !s.Authenticated() && |s.token| == 64
                            && handshake[0].data == EncodeHandshakeRequest(s.packetId, s.token))
    && (if handshake != [] && commands != [] then handshake[0].accepted && derives(s, after.localKey)
        else after.localKey == s.localKey)
    && (commands != [] ==> after.Authenticated())
    && (forall j: nat :: j < |commands| ==>
          && commands[j].data == request(Advanced(s, |handshake| + j))
          && (commands[j].accepted || j == |commands| - 1))
    && after == s.(line := after.line, localKey := after.localKey, packetId := Advanced(s, |handshake| + |commands|))
    && (outcome.Ok? ==> commands != [] && commands[|commands| - 1].accepted)
  }

  /** From `s` to a session that is ready to send, by way of these writes. */
  ghost predicate Ready(derives: (Session, Bytes) -> bool, s: Session, s1: Session, handshake: seq<Write>) {
    && s1.line.log == s.line.log + handshake && |handshake| <= 1
    && (handshake != [] ==> !s.Authenticated() && |s.token| == 64
                            && handshake[0].data == EncodeHandshakeRequest(s.packetId, s.token))
    && (if handshake != [] then handshake[0].accepted && derives(s, s1.localKey) else s1.localKey == s.localKey)
    && s1.Authenticated()
    && s1 == s.(line := s1.line, localKey := s1.localKey, packetId := Advanced(s, |handshake|))
  }

  lemma ReadyThenWrote(derives: (Session, Bytes) -> bool, request: PacketId -> Bytes, s: Session, s1: Session,
                       after: Session, outcome: Result<Bytes>, handshake: seq<Write>, commands: seq<Write>)
    requires Ready(derives, s, s1, handshake) && Wrote(request, s1, after, outcome, commands) && |commands| <= s.retries
    ensures Sent(derives, request, s, after, outcome, handshake, commands)
  {
    forall j: nat ensures Advanced(s1, j) == Advanced(s, |handshake| + j) {
      AdvancedAdds(s, s1, |handshake|, j);
    }
  }

  lemma ReadyWrites(derives: (Session, Bytes) -> bool, request: PacketId -> Bytes,
                    attempt: Session -> (Session, Result<Bytes>), s: Session, s1: Session, handshake: seq<Write>)
    returns (commands: seq<Write>)
    requires Ready(derives, s, s1, handshake) && WritesOnce(s1.IsV3(), s1.localKey, request, attempt)
    ensures var (after, outcome) := Retry(attempt, s1, s1.retries);
            after.localKey == s1.localKey && Sent(derives, request, s, after, outcome, handshake, commands)
  {
    commands := RetriesWrite(request, attempt, s1, s1.retries);
    var (after, outcome) := Retry(attempt, s1, s1.retries);
    ReadyThenWrote(derives, request, s, s1, after, outcome, handshake, commands);
  }

  lemma LoginEnds(derives: (Session, Bytes) -> bool, request: PacketId -> Bytes, s: Session, s1: Session,
                  ready: Result<()>)
    requires !s.Authenticated() && LoggedIn(derives, s, s1, ready)
    ensures ready.Ok? ==> Ready(derives, s, s1, Greeting(s, ready))
    ensures ready.Err? ==> Sent(derives, request, s, s1, Err(ready.error), Greeting(s, ready), [])
  {
    assert s1.line.log + [] == s1.line.log;
  }

  /** What a whole send leaves behind, whichever packet it is for. */
  lemma SendWritesWith(derives: (Session, Bytes) -> bool, request: Bytes -> PacketId -> Bytes,
                       login: Session -> (Session, Result<()>), attempt: Session -> (Session, Result<Bytes>), s: Session)
    returns (handshake: seq<Write>, commands: seq<Write>)
    requires LogsIn(derives, login)
    requires forall localKey :: WritesOnce(s.IsV3(), localKey, request(localKey), attempt)
    ensures var (after, outcome) := LoginAndRetry(login, attempt, s);
            Sent(derives, request(after.localKey), s, after, outcome, handshake, commands)
  {
    if s.Authenticated() {
      handshake := [];
      assert Advanced(s, 0) == s.packetId;
      commands := ReadyWrites(derives, request(s.localKey), attempt, s, s, []);
    } else {
      var (s1, ready) := login(s);
      LoginEnds(derives, request(s1.localKey), s, s1, ready);
      handshake := Greeting(s, ready);
      if ready.Ok? {
        commands := ReadyWrites(derives, request(s1.localKey), attempt, s, s1, handshake);
      } else {
        commands := [];
      }
    }
  }

  /** The requests of a send of `frame`, under each session key and packet id. */
  function Requests(p: Suite, v3: bool, packet: Bytes): Bytes -> PacketId -> Bytes {
    localKey => Request(p, v3, localKey, packet)
  }

  /**
   Everything one send writes: at most one handshake, only when it is needed, then at most `retries`
   commands. Behind a handshake there are commands only if it was accepted, and then under the key that
   the envelope read in reply to it gives.
   */
  lemma SendWrites(p: Suite, s: Session, frame: Bytes) returns (handshake: seq<Write>, commands: seq<Write>)
    ensures var (after, outcome) := SendFrame(p, s, frame);
            var packet := EncodePacket(p, s.deviceId, frame, s.timestamp);
            Sent(Deriving(p), Requests(p, s.IsV3(), packet)(after.localKey), s, after, outcome, handshake, commands)
  {
    var packet := EncodePacket(p, s.deviceId, frame, s.timestamp);
    HandshakerLogsIn(p);
    forall localKey
      ensures WritesOnce(s.IsV3(), localKey, Requests(p, s.IsV3(), packet)(localKey), Sender(p, packet))
    {
      SenderWritesOnce(p, s.IsV3(), localKey, packet);
    }
    var requests := Requests(p, s.IsV3(), packet);
    handshake, commands := SendWritesWith(Deriving(p), requests, Handshaker(p), Sender(p, packet), s);
  }

  /** A V2 send writes the packet as it is, once for each attempt, and no handshake. */
  lemma BarePacketsAreWritten(p: Suite, s: Session, frame: Bytes) returns (commands: seq<Write>)
    requires !s.IsV3()
    ensures SendFrame(p, s, frame).0.line.log == s.line.log + commands && 0 < |commands| <= s.retries
    ensures forall w :: w in commands ==> w.data == EncodePacket(p, s.deviceId, frame, s.timestamp)
  {
    var handshake;
    handshake, commands := SendWrites(p, s, frame);
    assert s.line.log + [] == s.line.log;
    SomethingIsWritten(p, s, EncodePacket(p, s.deviceId, frame, s.timestamp));
  }

  /** An authenticated session writes at least once. */
  lemma SomethingIsWritten(p: Suite, s: Session, packet: Bytes)
    requires s.Authenticated()
    ensures |LoginAndRetry(Handshaker(p), Sender(p, packet), s).0.line.log| > |s.line.log|
  {
    RetryGrows(p, s, packet, s.retries);
  }

  lemma {:induction false} RetryGrows(p: Suite, s: Session, packet: Bytes, n: nat)
    requires n > 0
    ensures |Retry(Sender(p, packet), s, n).0.line.log| > |s.line.log|
    decreases n
  {
    AttemptWrites(p, s, packet);
    var (s1, outcome) := Sender(p, packet)(s);
    if Worthwhile(outcome) && n > 1 { RetryGrows(p, s1, packet, n - 1); }
  }
}
