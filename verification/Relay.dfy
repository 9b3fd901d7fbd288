/**
 The cloud relay: recovering the session's initialisation vector from an error message, and sending
 frames as encrypted orders. A server is any function from a request to a response, or to none.
 */
module Relay {
  import opened ByteStrings
  import opened Cipher
  import opened RelayText
  import Numerals
  import Form
  import Json
  import JsonScanner

  datatype Error =
    | NotLoggedIn
    | RequestFailed
    | NotEchoed
    | EchoTooShort
    | CloudError(code: Bytes, message: Bytes)
    | NotDecrypted

  datatype Result<+T> = Ok(value: T) | Err(error: Error)

  /** What a POST of a body to a path brings back. */
  type Server = (Bytes, Bytes) -> Option<Bytes>

  type Sequence = n: nat | n < 0x1_0000_0000

  datatype Session = Session(
    applianceId: nat, appKey: Bytes, baseUrl: Bytes, stamp: Bytes, sessionId: Bytes, key: Bytes, iv: Bytes,
    seq_: Sequence, timestamp: Stamp)
  {
    predicate LoggedIn() {
      sessionId != [] && |iv| == 16
    }

    function Advance(): Session {
      this.(seq_ := (seq_ + 1) % 0x1_0000_0000)
    }
  }

  const SEND_PATH: Bytes := Ascii("/v1/appliance/transparent/send/new")
  const PROBE_FRAME: Bytes := Ascii("aa21ac00000000000303418100ff03ff00020000000000000000000000000304560b")
  const ORDER: Bytes := Ascii("order")
  const MARKER: Bytes := Ascii("order:")
  const MSG: Bytes := Ascii("msg")
  const ERROR_CODE: Bytes := Ascii("errorCode")
  const RESULT: Bytes := Ascii("result")
  const REPLY: Bytes := Ascii("reply")
  const ACCEPTED: Bytes := Ascii("0")
  const NO_FRAME: Bytes := Ascii("3176")

  // ----- requests -----

  function Query(items: seq<Form.Item>): Bytes {
    if items == [] then [] else items[0].0 + [Form.EQUALS] + items[0].1 + QueryAfter(items[1..])
  }

  function QueryAfter(items: seq<Form.Item>): Bytes {
    if items == [] then []
    else [Form.AMPERSAND] + (items[0].0 + [Form.EQUALS] + items[0].1) + QueryAfter(items[1..])
  }

  function Signature(p: Suite, path: Bytes, items: seq<Form.Item>, appKey: Bytes): Bytes {
    ToHex(p.sha256(path + Query(items) + appKey))
  }

  /** The fields before and after the signature, in the order of their keys. */
  function FieldsBefore(s: Session, order: Bytes): seq<Form.Item> {
    [(Ascii("applianceId"), Numerals.Decimal(s.applianceId)), (Ascii("format"), Ascii("2")), (Ascii("funId"), Ascii("0008")),
     (Ascii("language"), Ascii("en_US")), (ORDER, order)]
    + if s.sessionId != [] then [(Ascii("sessionId"), s.sessionId)] else []
  }

  function FieldsAfter(s: Session): seq<Form.Item> {
    [(Ascii("src"), Ascii("17")), (Ascii("stamp"), s.stamp)]
  }

  function OrderFields(p: Suite, s: Session, order: Bytes): seq<Form.Item> {
    FieldsBefore(s, order)
    + [(Ascii("sign"), Signature(p, SEND_PATH, FieldsBefore(s, order) + FieldsAfter(s), s.appKey))]
    + FieldsAfter(s)
  }

  /** The text of a packet, padded and encrypted, in hex. */
  function SealOrder(p: Suite, key: Bytes, iv: Bytes, packet: Bytes): Bytes {
    ToHex(AesCbcEncryptIv(p, key, iv, Pkcs7Pad(ToText(packet))))
  }

  function PostOrder(p: Suite, s: Session, order: Bytes, server: Server): Option<Bytes> {
    server(s.baseUrl + SEND_PATH, Form.Encode(OrderFields(p, s, order)))
  }

  function Value(response: Bytes, name: Bytes): Bytes {
    match Json.FindValue(response, name) case None => [] case Some(v) => v
  }

  // ----- recovering the vector -----

  function ProbePacket(s: Session): Bytes {
    RelayPacket(FromHex(PROBE_FRAME), s.applianceId, s.seq_, s.timestamp)
  }

  /** Plaintext, the zero vector it was sent under, and what the server made of it, all combined. */
  function VectorFrom(plain: Bytes, message: Bytes): Result<Bytes> {
    match IndexOf(message, MARKER)
    case None => Err(NotEchoed)
    case Some(marker) =>
      var echoed := message[marker + 6..];
      if |echoed| < 16 || |plain| < 16 then Err(EchoTooShort)
      else Ok(XorBytes(XorBytes(plain[..16], ZERO_IV), echoed[..16]))
  }

  /** The probe is sent under a zero vector. */
  function Probe(p: Suite, s: Session, server: Server): Result<Bytes> {
    match PostOrder(p, s, SealOrder(p, s.key, ZERO_IV, ProbePacket(s)), server)
    case None => Err(RequestFailed)
    case Some(response) => VectorFrom(ToText(ProbePacket(s)), Value(response, MSG))
  }

  function RecoverIv(p: Suite, s: Session, server: Server): (Session, Result<()>) {
    var s1 := s.Advance();
    match Probe(p, s1, server)
    case Err(e) => (s1, Err(e))
    case Ok(iv) => (s1.(iv := iv), Ok(()))
  }

  // ----- sending -----

  /** The frame in an accepted command's response; none is no error. */
  function ReplyFrame(p: Suite, s: Session, response: Bytes): Result<Bytes> {
    match Json.FindObject(response, RESULT)
    case None => Ok([])
    case Some(result) =>
      var encoded := Value(result, REPLY);
      if encoded == [] then Ok([])
      else
        match Pkcs7Unpad(AesCbcDecryptIv(p, s.key, s.iv, FromHex(encoded)))
        case None => Err(NotDecrypted)
        case Some(decoded) =>
          match ExtractAa(FromText(decoded))
          case None => Ok([])
          case Some(frame) => Ok(frame)
  }

  function Read(p: Suite, s: Session, response: Bytes): Result<Bytes> {
    var code := Value(response, ERROR_CODE);
    if code == NO_FRAME then Ok([])
    else if code != ACCEPTED then
      var message := Value(response, MSG);
      Err(CloudError(code, if message == [] then Ascii("?") else message))
    else ReplyFrame(p, s, response)
  }

  function Send(p: Suite, s: Session, frame: Bytes, server: Server): (Session, Result<Bytes>) {
    if !s.LoggedIn() then (s, Err(NotLoggedIn))
    else
      var s1 := s.Advance();
      var packet := RelayPacket(frame, s.applianceId, s1.seq_, s.timestamp);
      match PostOrder(p, s1, SealOrder(p, s.key, s.iv, packet), server)
      case None => (s1, Err(RequestFailed))
      case Some(response) => (s1, Read(p, s1, response))
  }

  // ----- the class -----

  class CloudLan {
    const suite: Suite
    const applianceId: nat
    var appKey: Bytes
    var baseUrl: Bytes
    var stamp: Bytes
    var sessionId: Bytes
    var key: Bytes
    var iv: Bytes
    var seq_: Sequence
    var timestamp: Stamp
    var post: Server

    function State(): Session
      reads this
    {
      Session(applianceId, appKey, baseUrl, stamp, sessionId, key, iv, seq_, timestamp)
    }

    constructor (suite: Suite, applianceId: nat, post: Server)
      ensures this.suite == suite && this.post == post
      ensures State() == Session(applianceId, Ascii("08822d2f357aa76712189c00fcc0fc4d"),
                                 Ascii("https://mapp-us.appsmb.com"), [], [], [], [], 1000, Repeat(8, 0))
    {
      this.suite, this.applianceId, this.post := suite, applianceId, post;
      appKey, baseUrl := Ascii("08822d2f357aa76712189c00fcc0fc4d"), Ascii("https://mapp-us.appsmb.com");
      stamp, sessionId, key, iv, seq_, timestamp := [], [], [], [], 1000, Repeat(8, 0);
    }

    method NextSeq() returns (n: Sequence)
      modifies this`seq_
      ensures State() == old(State()).Advance() && n == seq_
    {
      seq_ := (seq_ + 1) % 0x1_0000_0000;
      n := seq_;
    }

    /** Encrypts an order and posts it. */
    method Post(packet: Bytes, vector: Bytes) returns (text: Bytes, response: Option<Bytes>)
      ensures text == ToText(packet)
      ensures response == PostOrder(suite, State(), SealOrder(suite, key, vector, packet), post)
    {
      text := PrintText(packet);
      var order := ToHexText(AesCbcEncryptIv(suite, key, vector, Pkcs7Pad(text)));
      var body := Form.FormEncode(OrderFields(suite, State(), order));
      response := post(baseUrl + SEND_PATH, body);
    }

    method SendProbe() returns (vector: Result<Bytes>)
      ensures vector == Probe(suite, State(), post)
    {
      var probe := FromHexText(PROBE_FRAME);
      var packet := BuildRelayPacket(probe, applianceId, seq_, timestamp);
      var plain, response := Post(packet, ZERO_IV);
      if response.None? {
        return Err(RequestFailed);
      }
      var message := ReadField(response.value, MSG);
      vector := ReadVector(plain, message);
    }

    method Recover() returns (outcome: Result<()>)
      modifies this
      ensures post == old(post)
      ensures (State(), outcome) == RecoverIv(suite, old(State()), post)
    {
      var n := NextSeq();
      var vector := SendProbe();
      if vector.Err? {
        return Err(vector.error);
      }
      iv := vector.value;
      outcome := Ok(());
    }

    method Relay(frame: Bytes) returns (reply: Result<Bytes>)
      modifies this
      ensures post == old(post)
      ensures (State(), reply) == Send(suite, old(State()), frame, post)
    {
      if sessionId == [] || |iv| != 16 {
        return Err(NotLoggedIn);
      }
      var n := NextSeq();
      var packet := BuildRelayPacket(frame, applianceId, n, timestamp);
      var text, response := Post(packet, iv);
      if response.None? {
        return Err(RequestFailed);
      }
      reply := ReadResponse(response.value);
    }

    method ReadResponse(response: Bytes) returns (reply: Result<Bytes>)
      ensures reply == Read(suite, State(), response)
    {
      var code := ReadField(response, ERROR_CODE);
      if code == NO_FRAME {
        return Ok([]);
      }
      if code != ACCEPTED {
        var message := ReadField(response, MSG);
        return Err(CloudError(code, if message == [] then Ascii("?") else message));
      }
      var result := JsonScanner.FindObjectIn(response, RESULT);
      if result.None? {
        return Ok([]);
      }
      var encoded := ReadField(result.value, REPLY);
      if encoded == [] {
        return Ok([]);
      }
      var bytes := FromHexText(encoded);
      var decoded := Pkcs7Unpad(AesCbcDecryptIv(suite, key, iv, bytes));
      if decoded.None? {
        return Err(NotDecrypted);
      }
      var values := ParseText(decoded.value);
      var frame := FindFrame(values);
      reply := Ok(if frame.None? then [] else frame.value);
    }
  }

  /** A field of a response, empty if it is not there. */
  method ReadField(response: Bytes, name: Bytes) returns (v: Bytes)
    ensures v == Value(response, name)
  {
    var found := JsonScanner.FindValueIn(response, name);
    v := if found.None? then [] else found.value;
  }

  method ReadVector(plain: Bytes, message: Bytes) returns (vector: Result<Bytes>)
    ensures vector == VectorFrom(plain, message)
  {
    var marker := IndexOf(message, MARKER);
    if marker.None? {
      return Err(NotEchoed);
    }
    var echoed := message[marker.value + 6..];
    if |echoed| < 16 || |plain| < 16 {
      return Err(EchoTooShort);
    }
    var iv := CombineBlocks(plain[..16], ZERO_IV, echoed[..16]);
    vector := Ok(iv);
  }

  method CombineBlocks(a: Block, b: Block, c: Block) returns (r: Bytes)
    ensures r == XorBytes(XorBytes(a, b), c)
  {
    r := [];
    for i := 0 to 16
      invariant r == XorBytes(XorBytes(a, b), c)[..i]
    {
      r := r + [XorByte(XorByte(a[i], b[i]), c[i])];
    }
    assert r == XorBytes(XorBytes(a, b), c);
  }
}
