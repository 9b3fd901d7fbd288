/**
 What the relay's calls come to, by what the server says: every code and every kind of reply, with the names
 and codes written out; and what the server can check of a request.
 */
module RelayOutcomes {
  import opened ByteStrings
  import opened Cipher
  import opened JsonStrings
  import opened RelayText
  import opened Relay
  import opened RelayTheory
  import Form
  import Json
  import JsonTheory
  import Numerals
  import Wire

  // ----- responses -----

  /** A response says this of a name: nothing, what a string spells, or any other value as it is printed. */
  ghost predicate Says(t: Json.Tree, name: Bytes, text: Bytes) {
    match JsonTheory.Lookup(t, name)
    case None => text == []
    case Some(found) => if found.Str? then Spells(found.raw, text) else text == Json.Print(found)
  }

  lemma SaidIsRead(v: Json.Spaced, name: Bytes, text: Bytes)
    requires Json.WellFormedSpaced(v) && JsonTheory.IsSearchable(name) && Says(v.tree, name, text)
    ensures Value(Json.PrintSpaced(v), name) == text
  {
    JsonTheory.FindValueInTree(v, name);
    var found := JsonTheory.Lookup(v.tree, name);
    if found.Some? && found.value.Str? { SpellingsAreRead(found.value.raw, text); }
  }

  lemma Names()
    ensures MSG == Ascii("msg") && ERROR_CODE == Ascii("errorCode") && RESULT == Ascii("result") && REPLY == Ascii("reply")
    ensures ACCEPTED == Ascii("0") && NO_FRAME == Ascii("3176") && MARKER == Ascii("order:")
    ensures SEND_PATH == Ascii("/v1/appliance/transparent/send/new")
  {
  }

  /** The server's answer to the request for a frame. */
  predicate Answers(p: Suite, s: Session, frame: Bytes, server: Server, v: Json.Spaced) {
    && s.sessionId != [] && |s.iv| == 16 && Json.WellFormedSpaced(v)
    && server(s.baseUrl + Ascii("/v1/appliance/transparent/send/new"), SendBody(p, s, frame)) == Some(Json.PrintSpaced(v))
  }

  lemma AnswerIsRead(p: Suite, s: Session, frame: Bytes, server: Server, v: Json.Spaced)
    requires Answers(p, s, frame, server, v)
    ensures Send(p, s, frame, server) == (s.Advance(), Read(p, s.Advance(), Json.PrintSpaced(v)))
  {
    Names();
  }

  /**
   A code other than "0" decides alone. "3176" is a command taken without a frame in return, whatever else is
   said; every other, the empty one of a response without a code too, is an error with code and message.
   */
  lemma CodeDecides(p: Suite, s: Session, frame: Bytes, server: Server, v: Json.Spaced, code: Bytes, message: Bytes)
    requires Answers(p, s, frame, server, v)
    requires Says(v.tree, Ascii("errorCode"), code) && Says(v.tree, Ascii("msg"), message) && code != Ascii("0")
    ensures Send(p, s, frame, server)
         == (s.Advance(), if code == Ascii("3176") then Ok([])
                          else Err(CloudError(code, if message == [] then Ascii("?") else message)))
  {
    AnswerIsRead(p, s, frame, server, v);
    Names();
    NamesArePlain();
    SaidIsRead(v, ERROR_CODE, code);
    SaidIsRead(v, MSG, message);
  }

  /** What a reply comes to: nothing if it is empty, else the frame its packet holds, if it can be decrypted. */
  function Opened(p: Suite, key: Bytes, iv: Bytes, reply: Bytes): Result<Bytes> {
    if reply == [] then Ok([])
    else
      match Pkcs7Unpad(AesCbcDecryptIv(p, key, iv, FromHex(reply)))
      case None => Err(NotDecrypted)
      case Some(text) => match ExtractAa(FromText(text)) case None => Ok([]) case Some(frame) => Ok(frame)
  }

  /** What `result` comes to: an object with a reply is opened, anything else hands nothing back. */
  lemma ResultComesTo(p: Suite, s: Session, v: Json.Spaced, reply: Bytes)
    requires Json.WellFormedSpaced(v)
    requires Holds(v, reply)
    ensures ReplyFrame(p, s, Json.PrintSpaced(v)) == if HasResult(v) then Opened(p, s.key, s.iv, reply) else Ok([])
  {
    Names();
    NamesArePlain();
    JsonTheory.FindObjectInTree(v, RESULT);
    if HasResult(v) {
      var result := JsonTheory.Lookup(v.tree, RESULT).value;
      JsonTheory.SlotIsWellFormed(v.tree, RESULT);
      JsonTheory.BareText(result);
      SaidIsRead(JsonTheory.Bare(result), REPLY, reply);
    }
  }

  predicate HasResult(v: Json.Spaced) {
    var result := JsonTheory.Lookup(v.tree, Ascii("result"));
    result.Some? && result.value.Object?
  }

  ghost predicate Holds(v: Json.Spaced, reply: Bytes) {
    HasResult(v) ==> Says(JsonTheory.Lookup(v.tree, Ascii("result")).value, Ascii("reply"), reply)
  }

  lemma AcceptedIsRead(p: Suite, s: Session, response: Bytes)
    requires Value(response, Ascii("errorCode")) == Ascii("0")
    ensures Read(p, s, response) == ReplyFrame(p, s, response)
  {
    Names();
    CodesDiffer();
  }

  /** The code "0" is success: without an object `result`, or a reply in it, nothing is handed back. */
  lemma AcceptedComesTo(p: Suite, s: Session, frame: Bytes, server: Server, v: Json.Spaced, reply: Bytes)
    requires Answers(p, s, frame, server, v) && Says(v.tree, Ascii("errorCode"), Ascii("0")) && Holds(v, reply)
    ensures Send(p, s, frame, server)
         == (s.Advance(), if HasResult(v) then Opened(p, s.key, s.iv, reply) else Ok([]))
  {
    AnswerIsRead(p, s, frame, server, v);
    NamesArePlain();
    Names();
    SaidIsRead(v, Ascii("errorCode"), Ascii("0"));
    AcceptedIsRead(p, s.Advance(), Json.PrintSpaced(v));
    ResultComesTo(p, s.Advance(), v, reply);
  }

  lemma CodesDiffer()
    ensures |ACCEPTED| == 1 && |NO_FRAME| == 4
  {
  }

  /** Without a session nothing is posted and nothing changes; without a response only the sequence number does. */
  lemma NoAnswerFails(p: Suite, s: Session, frame: Bytes, server: Server)
    ensures s.sessionId == [] || |s.iv| != 16 ==> Send(p, s, frame, server) == (s, Err(NotLoggedIn))
    ensures s.sessionId != [] && |s.iv| == 16 && Silent(server, s, SendBody(p, s, frame)) ==>
              Send(p, s, frame, server) == (s.Advance(), Err(RequestFailed))
  {
    Names();
  }

  predicate Silent(server: Server, s: Session, body: Bytes) {
    server(s.baseUrl + Ascii("/v1/appliance/transparent/send/new"), body) == None
  }

  // ----- recovery -----

  predicate MarkedAt(message: Bytes, n: nat) {
    n + 6 <= |message| && message[n..n + 6] == Ascii("order:")
  }

  lemma MarkedWhen(message: Bytes, n: nat)
    requires n <= |message|
    ensures MARKER <= message[n..] <==> MarkedAt(message, n)
  {
    Names();
    MarkerBytes();
    if n + 6 <= |message| {
      assert message[n..][..6] == message[n..n + 6];
    }
  }

  /** The marker is found where it first stands. */
  lemma MarkerIsAt(message: Bytes)
    ensures match IndexOf(message, MARKER)
            case None => forall n: nat :: !MarkedAt(message, n)
            case Some(m) => MarkedAt(message, m) && forall n: nat :: n < m ==> !MarkedAt(message, n)
  {
    IndexOfIsFirst(message, MARKER);
    forall n: nat | n <= |message| ensures MARKER <= message[n..] <==> MarkedAt(message, n) {
      MarkedWhen(message, n);
    }
  }

  /** The first marker of a message. */
  ghost predicate IsFirstMark(message: Bytes, m: nat) {
    MarkedAt(message, m) && forall n: nat :: n < m ==> !MarkedAt(message, n)
  }

  ghost predicate IsUnmarked(message: Bytes) {
    forall n: nat :: !MarkedAt(message, n)
  }

  lemma VectorComesTo(plain: Bytes, message: Bytes)
    requires |plain| >= 16
    ensures IsUnmarked(message) ==> VectorFrom(plain, message) == Err(NotEchoed)
    ensures forall m: nat :: IsFirstMark(message, m) ==>
              VectorFrom(plain, message)
              == if |message| < m + 22 then Err(EchoTooShort) else Ok(Combined(plain, message[m + 6..]))
  {
    MarkerIsAt(message);
    var found := IndexOf(message, MARKER);
    if found.Some? && |message| >= found.value + 22 {
      VectorIs(plain, message[found.value + 6..]);
    }
    forall m: nat | IsFirstMark(message, m) ensures found == Some(m) {
      OneFirstMark(message, m);
    }
  }

  lemma OneFirstMark(message: Bytes, m: nat)
    requires IsFirstMark(message, m)
    ensures IndexOf(message, MARKER) == Some(m)
  {
    MarkerIsAt(message);
    var found := IndexOf(message, MARKER);
    if found.Some? {
      assert !(found.value < m) && !(m < found.value);
    }
  }

  /**
   Recovery by what the response says: without the marker, or with less than a block behind it, it fails and
   the vector stays; otherwise the vector is the first block behind the first marker and the plaintext's,
   combined.
   */
  lemma RecoveryComesTo(p: Suite, s: Session, server: Server, v: Json.Spaced, message: Bytes)
    requires Json.WellFormedSpaced(v) && Says(v.tree, Ascii("msg"), message)
    requires server(s.baseUrl + Ascii("/v1/appliance/transparent/send/new"), ProbeBody(p, s)) == Some(Json.PrintSpaced(v))
    ensures IsUnmarked(message) ==> RecoverIv(p, s, server) == (s.Advance(), Err(NotEchoed))
    ensures forall m: nat :: IsFirstMark(message, m) ==>
              RecoverIv(p, s, server)
              == if |message| < m + 22 then (s.Advance(), Err(EchoTooShort))
                 else (s.Advance().(iv := Combined(ToText(ProbePacket(s.Advance())), message[m + 6..])), Ok(()))
  {
    NamesArePlain();
    Names();
    SaidIsRead(v, Ascii("msg"), message);
    ProbeIsLong(s.Advance());
    VectorComesTo(ToText(ProbePacket(s.Advance())), message);
    ProbeIsAnswered(p, s, server, Json.PrintSpaced(v), message);
  }

  lemma ProbeIsAnswered(p: Suite, s: Session, server: Server, response: Bytes, message: Bytes)
    requires server(s.baseUrl + Ascii("/v1/appliance/transparent/send/new"), ProbeBody(p, s)) == Some(response)
    requires Value(response, Ascii("msg")) == message
    ensures RecoverIv(p, s, server)
         == (match VectorFrom(ToText(ProbePacket(s.Advance())), message)
             case Err(e) => (s.Advance(), Err(e))
             case Ok(iv) => (s.Advance().(iv := iv), Ok(())))
  {
    Names();
  }

  /** The first blocks of two texts, byte by byte combined. */
  function Combined(a: Bytes, b: Bytes): Bytes {
    if |a| < 16 || |b| < 16 then [] else XorBytes(a[..16], b[..16])
  }

  lemma VectorIs(plain: Bytes, echoed: Bytes)
    requires |plain| >= 16 && |echoed| >= 16
    ensures XorBytes(XorBytes(plain[..16], ZERO_IV), echoed[..16]) == Combined(plain, echoed)
  {
    var block := plain[..16];
    forall i | 0 <= i < 16 ensures XorByte(block[i], ZERO_IV[i]) == block[i] {
      XorZero(block[i]);
    }
    assert XorBytes(block, ZERO_IV) == block;
  }

  // ----- what a server checks -----

  /** The items of a request as a server writes them down to check the signature. */
  function Written(items: seq<Form.Item>): Bytes {
    if items == [] then []
    else
      var front, last := items[..|items| - 1], items[|items| - 1];
      (if front == [] then [] else Written(front) + [0x26]) + last.0 + [0x3D] + last.1
  }

  lemma {:induction false} QueryAppends(items: seq<Form.Item>, last: Form.Item)
    ensures QueryAfter(items + [last]) == QueryAfter(items) + ([0x26] + (last.0 + [0x3D] + last.1))
  {
    if items == [] {
      assert QueryAfter([]) == [] && items + [last] == [last] && [last][1..] == [];
      assert [0x26] + (last.0 + [0x3D] + last.1) + [] == [] + ([0x26] + (last.0 + [0x3D] + last.1));
    } else {
      assert (items + [last])[0] == items[0] && (items + [last])[1..] == items[1..] + [last];
      QueryAppends(items[1..], last);
      Regroup([0x26] + (items[0].0 + [0x3D] + items[0].1), QueryAfter(items[1..]), [0x26] + (last.0 + [0x3D] + last.1));
    }
  }

  lemma {:induction false} QueryIsWritten(items: seq<Form.Item>)
    ensures Query(items) == Written(items)
    decreases |items|
  {
    if |items| <= 1 {
      if items != [] {
        assert items[1..] == [] && items[..0] == [];
        assert items[0].0 + [0x3D] + items[0].1 + [] == [] + items[0].0 + [0x3D] + items[0].1;
      }
    } else {
      var front, last := items[..|items| - 1], items[|items| - 1];
      QueryIsWritten(front);
      assert items[1..] == front[1..] + [last];
      QueryAppends(front[1..], last);
      JoinOn(front[0].0 + [0x3D] + front[0].1, QueryAfter(front[1..]), last);
    }
  }

  lemma JoinOn(first: Bytes, middle: Bytes, last: Form.Item)
    ensures first + (middle + ([0x26] + (last.0 + [0x3D] + last.1))) == (first + middle) + [0x26] + last.0 + [0x3D] + last.1
  {
  }

  /** The items of an order without its signature, in the order of their names. */
  function Unsigned(s: Session, order: Bytes): seq<Form.Item> {
    Front(s, order) + [(Ascii("src"), Ascii("17")), (Ascii("stamp"), s.stamp)]
  }

  function Front(s: Session, order: Bytes): seq<Form.Item> {
    [(Ascii("applianceId"), Numerals.Decimal(s.applianceId)), (Ascii("format"), Ascii("2")),
     (Ascii("funId"), Ascii("0008")), (Ascii("language"), Ascii("en_US")), (Ascii("order"), order)]
    + if s.sessionId == [] then [] else [(Ascii("sessionId"), s.sessionId)]
  }

  /** What the server decodes a posted order to: those items, and a signature over path, items and key. */
  lemma OrderIsSigned(p: Suite, s: Session, order: Bytes)
    ensures var signed := ToHex(p.sha256(Ascii("/v1/appliance/transparent/send/new") + Written(Unsigned(s, order)) + s.appKey));
            Form.Decode(Form.Encode(OrderFields(p, s, order)))
            == Front(s, order) + [(Ascii("sign"), signed), (Ascii("src"), Ascii("17")), (Ascii("stamp"), s.stamp)]
  {
    Form.FormRoundTrip(OrderFields(p, s, order));
    FieldsAre(s, order);
    SignatureIs(p, Unsigned(s, order), s.appKey);
    ListIs(Front(s, order), (Ascii("sign"), Signature(p, SEND_PATH, Unsigned(s, order), s.appKey)),
           (Ascii("src"), Ascii("17")), (Ascii("stamp"), s.stamp));
  }

  lemma ListIs(front: seq<Form.Item>, a: Form.Item, b: Form.Item, c: Form.Item)
    ensures front + [a] + [b, c] == front + [a, b, c]
  {
  }

  lemma SignatureIs(p: Suite, items: seq<Form.Item>, appKey: Bytes)
    ensures Signature(p, SEND_PATH, items, appKey)
         == ToHex(p.sha256(Ascii("/v1/appliance/transparent/send/new") + Written(items) + appKey))
  {
    Names();
    QueryIsWritten(items);
  }

  lemma FieldsAre(s: Session, order: Bytes)
    ensures FieldsBefore(s, order) == Front(s, order)
    ensures FieldsBefore(s, order) + FieldsAfter(s) == Unsigned(s, order)
  {
  }

  // ----- sequence numbers -----

  /** The session after some more requests. */
  function Later(s: Session, n: nat): Session
    decreases n
  {
    if n == 0 then s else Later(s.Advance(), n - 1)
  }

  lemma {:induction false} LaterCounts(s: Session, n: nat)
    ensures Later(s, n) == s.(seq_ := (s.seq_ + n) % 0x1_0000_0000)
    decreases n
  {
    if n == 0 {
    } else {
      LaterCounts(s.Advance(), n - 1);
      AddsOn(s.seq_ + 1, n - 1);
    }
  }

  lemma AddsOn(a: nat, b: nat)
    ensures (a % 0x1_0000_0000 + b) % 0x1_0000_0000 == (a + b) % 0x1_0000_0000
  {
    var high, low := a / 0x1_0000_0000, a % 0x1_0000_0000;
    assert a + b == 0x1_0000_0000 * high + (low + b);
  }

  /** An appliance reads off the packets of a session that their sequence numbers are one apart, modulo 2^32. */
  lemma PacketsAreNumbered(s: Session, n: nat, frame: Bytes)
    ensures Wire.Low(SentPacket(Later(s, n), frame)[8..12]) == (s.seq_ + n + 1) % 0x1_0000_0000
  {
    LaterCounts(s, n);
    NextCounts(s.seq_, n);
    var now := Later(s, n);
    PacketCarries(frame, now.applianceId, now.Advance().seq_, now.timestamp);
  }

  lemma NextCounts(seq_: nat, n: nat)
    ensures ((seq_ + n) % 0x1_0000_0000 + 1) % 0x1_0000_0000 == (seq_ + n + 1) % 0x1_0000_0000
  {
    AddsOn(seq_ + n, 1);
  }

  lemma PacketCarries(frame: Bytes, applianceId: nat, seq_: Sequence, timestamp: Stamp)
    ensures Wire.Low(RelayPacket(frame, applianceId, seq_, timestamp)[8..12]) == seq_
  {
    Wire.RelayPacketIsLaid(frame, applianceId, seq_, timestamp);
  }
}
