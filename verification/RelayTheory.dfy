/**
 Why the relay works: the hidden initialisation vector is recovered exactly from an echo inside a JSON
 string, orders then open to the packets they carry, and replies to the frames in them.
 */
module RelayTheory {
  import opened ByteStrings
  import opened Cipher
  import opened JsonStrings
  import opened RelayText
  import opened Relay
  import Form
  import Frame
  import Json
  import JsonTheory

  // ----- the marker -----

  lemma MarkerBytes()
    ensures |MARKER| == 6 && MARKER[0] == 0x6F
    ensures forall k :: 1 <= k < 6 ==> MARKER[k] != 0x6F
  {
  }

  /** If the marker is not in what precedes it, it is found where it is: it cannot overlap itself. */
  lemma {:induction false} MarkerIsFirst(before: Bytes, after: Bytes)
    requires IndexOf(before, MARKER) == None
    ensures IndexOf(before + (MARKER + after), MARKER) == Some(|before|)
  {
    var s := before + (MARKER + after);
    if before == [] {
      assert s == MARKER + after;
    } else {
      MarkerNotHere(before, after);
      assert s[1..] == before[1..] + (MARKER + after);
      MarkerIsFirst(before[1..], after);
    }
  }

  lemma MarkerNotHere(before: Bytes, after: Bytes)
    requires before != [] && !(MARKER <= before)
    ensures !(MARKER <= before + (MARKER + after))
  {
    MarkerBytes();
    var s := before + (MARKER + after);
    if |before| < 6 {
      assert s[|before|] == MARKER[0];
    } else {
      assert s[..6] == before[..6];
    }
  }

  // ----- what a server makes of a request -----

  function Field(items: seq<Form.Item>, name: Bytes): Option<Bytes> {
    if items == [] then None
    else if items[0].0 == name then Some(items[0].1)
    else Field(items[1..], name)
  }

  function OrderOf(body: Bytes): Bytes {
    match Field(Form.Decode(body), ORDER) case None => [] case Some(order) => FromHex(order)
  }

  /** The packet that a server with this key and vector reads from a request. */
  function Opened(p: Suite, key: Bytes, iv: Bytes, body: Bytes): Option<Bytes> {
    match Pkcs7Unpad(AesCbcDecryptIv(p, key, iv, OrderOf(body)))
    case None => None
    case Some(text) => Some(FromText(text))
  }

  lemma OrderNames()
    ensures |Ascii("applianceId")| == 11 && |Ascii("format")| == 6 && |Ascii("language")| == 8 && |ORDER| == 5
    ensures Ascii("funId")[0] != ORDER[0]
  {
  }

  lemma {:induction false} FieldSkips(others: seq<Form.Item>, rest: seq<Form.Item>, name: Bytes)
    requires forall item :: item in others ==> item.0 != name
    ensures Field(others + rest, name) == Field(rest, name)
  {
    if others == [] {
      assert others + rest == rest;
    } else {
      assert (others + rest)[1..] == others[1..] + rest;
      FieldSkips(others[1..], rest, name);
    }
  }

  lemma FieldIsOrder(p: Suite, s: Session, order: Bytes)
    ensures Field(OrderFields(p, s, order), ORDER) == Some(order)
  {
    var items := OrderFields(p, s, order);
    OrderNames();
    assert items[4] == (ORDER, order);
    FieldSkips(items[..4], items[4..], ORDER);
    assert items == items[..4] + items[4..];
  }

  /** The order a server finds in the request is the one that was posted. */
  lemma OrderArrives(p: Suite, s: Session, data: Bytes)
    ensures OrderOf(Form.Encode(OrderFields(p, s, ToHex(data)))) == data
  {
    Form.FormRoundTrip(OrderFields(p, s, ToHex(data)));
    FieldIsOrder(p, s, ToHex(data));
    HexRoundTrip(data);
  }

  /** An order opens, under the key and vector it was sealed with, to the packet it carries. */
  lemma OrderOpens(p: Suite, s: Session, packet: Bytes)
    requires ValidKey(s.key) && |s.iv| == 16
    ensures Opened(p, s.key, s.iv, Form.Encode(OrderFields(p, s, SealOrder(p, s.key, s.iv, packet)))) == Some(packet)
  {
    var padded := Pkcs7Pad(ToText(packet));
    OrderArrives(p, s, AesCbcEncryptIv(p, s.key, s.iv, padded));
    CbcInverts(p, s.key, s.iv, padded);
    UnpadUndoesPad(ToText(packet));
    TextRoundTrip(packet);
  }

  // ----- recovering the vector -----

  lemma XorBytesCommutes(a: Bytes, b: Bytes)
    requires |a| == |b|
    ensures XorBytes(a, b) == XorBytes(b, a)
  {
    forall i | 0 <= i < |a|
      ensures XorByte(a[i], b[i]) == XorByte(b[i], a[i])
    {
      XorCommutes(a[i], b[i]);
    }
  }

  /** The probe's text is longer than a block. */
  lemma ProbeIsLong(s: Session)
    ensures |ToText(ProbePacket(s))| >= 16
  {
    TextAlphabet(ProbePacket(s));
  }

  /** What the server decrypts the first block of the probe to: the plaintext with its own vector mixed in. */
  lemma FirstBlock(p: Suite, key: Bytes, hidden: Block, plain: Bytes)
    requires ValidKey(key) && |plain| >= 16
    ensures var order := AesCbcEncryptIv(p, key, ZERO_IV, Pkcs7Pad(plain));
            |AesCbcDecryptIv(p, key, hidden, order)| >= 16 &&
            AesCbcDecryptIv(p, key, hidden, order)[..16] == XorBytes(XorBytes(plain[..16], ZERO_IV), hidden)
  {
    var padded := Pkcs7Pad(plain);
    CbcUnderOtherIv(p, key, ZERO_IV, hidden, padded);
    assert padded[..16] == plain[..16];
  }

  lemma VectorIsHidden(plain: Bytes, before: Bytes, echo: Bytes, hidden: Block)
    requires |plain| >= 16 && |echo| >= 16 && IndexOf(before, MARKER) == None
    requires echo[..16] == XorBytes(XorBytes(plain[..16], ZERO_IV), hidden)
    ensures VectorFrom(plain, before + (MARKER + echo)) == Ok(hidden)
  {
    MarkerBytes();
    MarkerIsFirst(before, echo);
    var message := before + (MARKER + echo);
    assert message[|before| + 6..] == echo;
    var sent := XorBytes(plain[..16], ZERO_IV);
    XorBytesCommutes(sent, hidden);
    XorBytesCancels(hidden, sent);
  }

  /** A server's error report: a JSON text whose `msg` spells an echo after the first marker. */
  ghost predicate Echoes(t: Json.Tree, raw: Bytes, before: Bytes, echo: Bytes) {
    && Json.WellFormed(t) && JsonTheory.Lookup(t, MSG) == Some(Json.Str(raw))
    && Spells(raw, before + (MARKER + echo)) && IndexOf(before, MARKER) == None
  }

  predicate IsLetter(c: char) {
    'A' <= c <= 'Z' || 'a' <= c <= 'z'
  }

  /** A name that can be searched for and holds no quote. */
  predicate IsPlainName(name: Bytes) {
    JsonTheory.IsSearchable(name) && Json.QUOTE !in name
  }

  lemma LettersAreNames(s: string)
    requires s != "" && forall c :: c in s ==> IsLetter(c)
    ensures IsPlainName(Ascii(s))
  {
    var name := Ascii(s);
    forall b | b in name ensures b >= 0x41 && b != Json.BACKSLASH && b != Json.RBRACKET && b != Json.RBRACE {
      var i :| 0 <= i < |s| && name[i] == b;
      assert s[i] in s && IsLetter(s[i]);
    }
    JsonTheory.PlainIsEscaped(name);
    assert name[0] in name;
  }

  /** The names that responses are searched for are plain. */
  lemma NamesArePlain()
    ensures IsPlainName(MSG) && IsPlainName(ERROR_CODE) && IsPlainName(RESULT) && IsPlainName(REPLY)
  {
    LettersAreNames("msg");
    LettersAreNames("errorCode");
    LettersAreNames("result");
    LettersAreNames("reply");
  }

  /** A string field of a response is read as the text it spells. */
  lemma StringIsRead(t: Json.Tree, name: Bytes, raw: Bytes, text: Bytes)
    requires Json.WellFormed(t) && JsonTheory.IsSearchable(name)
    requires JsonTheory.Lookup(t, name) == Some(Json.Str(raw)) && Spells(raw, text)
    ensures Value(Json.Print(t), name) == text
  {
    JsonTheory.BareText(t);
    JsonTheory.FindValueInTree(JsonTheory.Bare(t), name);
    SpellingsAreRead(raw, text);
  }

  function ProbeBody(p: Suite, s: Session): Bytes {
    Form.Encode(OrderFields(p, s.Advance(), SealOrder(p, s.key, ZERO_IV, ProbePacket(s.Advance()))))
  }

  lemma EchoIsFirstBlock(p: Suite, s: Session, hidden: Block, echo: Bytes)
    requires ValidKey(s.key)
    requires |echo| >= 16 && echo[..16] <= AesCbcDecryptIv(p, s.key, hidden, OrderOf(ProbeBody(p, s)))
    ensures var plain := ToText(ProbePacket(s.Advance()));
            |plain| >= 16 && echo[..16] == XorBytes(XorBytes(plain[..16], ZERO_IV), hidden)
  {
    var plain := ToText(ProbePacket(s.Advance()));
    ProbeIsLong(s.Advance());
    OrderArrives(p, s.Advance(), AesCbcEncryptIv(p, s.key, ZERO_IV, Pkcs7Pad(plain)));
    FirstBlock(p, s.key, hidden, plain);
    SameFront(echo[..16], AesCbcDecryptIv(p, s.key, hidden, OrderOf(ProbeBody(p, s))));
  }

  lemma SameFront(a: Bytes, b: Bytes)
    requires a <= b
    ensures b[..|a|] == a
  {
  }

  /**
   Recovery is exact. For every session key and every hidden vector: if the server echoes what it
   decrypts the order it received to, or at least its first block, the vector stored is the hidden one.
   */
  lemma IvIsRecovered(p: Suite, s: Session, server: Server, hidden: Block, t: Json.Tree, raw: Bytes, before: Bytes,
                      echo: Bytes)
    requires ValidKey(s.key)
    requires server(s.baseUrl + SEND_PATH, ProbeBody(p, s)) == Some(Json.Print(t)) && Echoes(t, raw, before, echo)
    requires |echo| >= 16 && echo[..16] <= AesCbcDecryptIv(p, s.key, hidden, OrderOf(ProbeBody(p, s)))
    ensures RecoverIv(p, s, server) == (s.Advance().(iv := hidden), Ok(()))
  {
    EchoIsFirstBlock(p, s, hidden, echo);
    NamesArePlain();
    StringIsRead(t, MSG, raw, before + (MARKER + echo));
    VectorIsHidden(ToText(ProbePacket(s.Advance())), before, echo, hidden);
  }

  // ----- sending -----

  function SendBody(p: Suite, s: Session, frame: Bytes): Bytes {
    Form.Encode(OrderFields(p, s.Advance(), SealOrder(p, s.key, s.iv, SentPacket(s, frame))))
  }

  function SentPacket(s: Session, frame: Bytes): Bytes {
    RelayPacket(frame, s.applianceId, s.Advance().seq_, s.timestamp)
  }

  /** A logged-in send posts one request, which opens to the packet built for the frame. */
  lemma SendIsOpened(p: Suite, s: Session, frame: Bytes, server: Server)
    requires ValidKey(s.key) && s.LoggedIn()
    ensures Opened(p, s.key, s.iv, SendBody(p, s, frame)) == Some(SentPacket(s, frame))
    ensures Send(p, s, frame, server)
         == (match server(s.baseUrl + SEND_PATH, SendBody(p, s, frame))
             case None => (s.Advance(), Err(RequestFailed))
             case Some(response) => (s.Advance(), Read(p, s.Advance(), response)))
  {
    OrderOpens(p, s.Advance(), SentPacket(s, frame));
  }

  /** A response that carries a packet: `reply` in the object `result`, encrypted as orders are. */
  ghost predicate Carries(p: Suite, s: Session, t: Json.Tree, result: Json.Tree, raw: Bytes, packet: Bytes) {
    && Json.WellFormed(t) && JsonTheory.Lookup(t, RESULT) == Some(result) && result.Object?
    && JsonTheory.Lookup(result, REPLY) == Some(Json.Str(raw)) && Spells(raw, SealOrder(p, s.key, s.iv, packet))
  }

  lemma ObjectIsFound(t: Json.Tree, name: Bytes, v: Json.Tree)
    requires Json.WellFormed(t) && JsonTheory.IsSearchable(name)
    requires JsonTheory.Lookup(t, name) == Some(v) && v.Object?
    ensures Json.FindObject(Json.Print(t), name) == Some(Json.Print(v)) && Json.WellFormed(v)
  {
    JsonTheory.BareText(t);
    JsonTheory.FindObjectInTree(JsonTheory.Bare(t), name);
    JsonTheory.SlotIsWellFormed(t, name);
  }

  /** A reply is opened to the packet it carries, and the frame is the one the search finds in that. */
  lemma ReplyIsRead(p: Suite, s: Session, t: Json.Tree, result: Json.Tree, raw: Bytes, packet: Bytes)
    requires ValidKey(s.key) && |s.iv| == 16 && Carries(p, s, t, result, raw, packet)
    ensures ReplyFrame(p, s, Json.Print(t))
         == match ExtractAa(packet) case None => Ok([]) case Some(frame) => Ok(frame)
  {
    NamesArePlain();
    ObjectIsFound(t, RESULT, result);
    StringIsRead(result, REPLY, raw, SealOrder(p, s.key, s.iv, packet));
    var padded := Pkcs7Pad(ToText(packet));
    HexRoundTrip(AesCbcEncryptIv(p, s.key, s.iv, padded));
    CbcInverts(p, s.key, s.iv, padded);
    UnpadUndoesPad(ToText(packet));
    TextRoundTrip(packet);
  }

  // ----- a server and an appliance -----

  /** A server's own escaping: quotes and backslashes, control bytes as \u escapes, other bytes raw. */
  function ServerEscapeByte(b: byte): Bytes {
    if b == Json.QUOTE || b == Json.BACKSLASH then [Json.BACKSLASH, b]
    else if b < 0x20 then [Json.BACKSLASH, 0x75, 0x30, 0x30, Nibble(b / 16), Nibble(b % 16)]
    else [b]
  }

  function ServerEscape(text: Bytes): Bytes {
    if text == [] then [] else ServerEscapeByte(text[0]) + ServerEscape(text[1..])
  }

  lemma EscapedByteSpells(b: byte)
    ensures IsSpelling(ServerEscapeByte(b), [b])
  {
    if b < 0x20 && b != Json.QUOTE && b != Json.BACKSLASH {
      assert HexDigit(Nibble(b / 16)) == b / 16 && HexDigit(Nibble(b % 16)) == b % 16;
      assert IsCodeEscape(ServerEscapeByte(b), b) && ReadCode([b]) == Some((b as nat, 1));
    } else {
      assert SpellsByte(ServerEscapeByte(b), b);
    }
  }

  lemma {:induction false} ServerEscapeSpells(text: Bytes)
    ensures Spells(ServerEscape(text), text)
  {
    if text == [] {
      NothingSpells();
    } else {
      var e, rest := ServerEscapeByte(text[0]), ServerEscape(text[1..]);
      EscapedByteSpells(text[0]);
      ServerEscapeSpells(text[1..]);
      SpellsOn(e, [text[0]], rest, text[1..]);
      assert [text[0]] + text[1..] == text;
    }
  }

  /** An object with an error code and one more field. */
  function Report(code: Bytes, name: Bytes, value: Json.Tree): Json.Tree {
    Json.Compact([Json.Close(ERROR_CODE, Json.Str(ServerEscape(code))), Json.Close(name, value)])
  }

  /** Of an object with two plainly named fields, the first a string, each name looks up its own field. */
  lemma TwoFieldsAreRead(a: Bytes, raw: Bytes, b: Bytes, value: Json.Tree)
    requires Json.Escaped(a) && Json.Escaped(b) && Json.QUOTE !in a && Json.QUOTE !in b && a != b
    requires Json.Escaped(raw) && Json.WellFormed(value)
    ensures var t := Json.Compact([Json.Close(a, Json.Str(raw)), Json.Close(b, value)]);
            Json.WellFormed(t) && JsonTheory.Lookup(t, a) == Some(Json.Str(raw)) && JsonTheory.Lookup(t, b) == Some(value)
  {
    JsonTheory.PlainAnswers(a, b);
    JsonTheory.PlainAnswers(a, a);
    JsonTheory.PlainAnswers(b, b);
    var later := [Json.Close(b, value)];
    assert [Json.Close(a, Json.Str(raw))] + later == [Json.Close(a, Json.Str(raw)), Json.Close(b, value)];
    assert later + [] == later;
    JsonTheory.CloseInFront(b, value, [], b);
    JsonTheory.CloseInFront(a, Json.Str(raw), later, a);
    JsonTheory.CloseInFront(a, Json.Str(raw), later, b);
  }

  lemma ReportIsRead(code: Bytes, name: Bytes, value: Json.Tree)
    requires IsPlainName(name) && name != ERROR_CODE && Json.WellFormed(value)
    ensures var t := Report(code, name, value);
            && Json.WellFormed(t) && JsonTheory.Lookup(t, name) == Some(value)
            && JsonTheory.Lookup(t, ERROR_CODE) == Some(Json.Str(ServerEscape(code)))
  {
    NamesArePlain();
    ServerEscapeSpells(code);
    SpellingsAreRead(ServerEscape(code), code);
    TwoFieldsAreRead(ERROR_CODE, ServerEscape(code), name, value);
  }

  /** The report of a server that cannot make sense of an order, with what it decrypted the order to. */
  function EchoReport(p: Suite, key: Bytes, hidden: Block, code: Bytes, before: Bytes, body: Bytes): Bytes {
    var text := before + (MARKER + AesCbcDecryptIv(p, key, hidden, OrderOf(body)));
    Json.Print(Report(code, MSG, Json.Str(ServerEscape(text))))
  }

  lemma EchoIsReported(code: Bytes, before: Bytes, echo: Bytes)
    requires IndexOf(before, MARKER) == None
    ensures var raw := ServerEscape(before + (MARKER + echo));
            Echoes(Report(code, MSG, Json.Str(raw)), raw, before, echo)
  {
    var text := before + (MARKER + echo);
    NamesArePlain();
    NamesDiffer();
    ServerEscapeSpells(text);
    SpellingsAreRead(ServerEscape(text), text);
    ReportIsRead(code, MSG, Json.Str(ServerEscape(text)));
  }

  lemma StartsItself(s: Bytes, n: nat)
    requires n <= |s|
    ensures s[..n] <= s
  {
  }

  /** From such a report the hidden vector is recovered, whatever it is and whatever comes before the echo. */
  lemma EchoGivesVectorAway(p: Suite, s: Session, server: Server, hidden: Block, code: Bytes, before: Bytes)
    requires ValidKey(s.key) && IndexOf(before, MARKER) == None
    requires server(s.baseUrl + SEND_PATH, ProbeBody(p, s)) == Some(EchoReport(p, s.key, hidden, code, before, ProbeBody(p, s)))
    ensures RecoverIv(p, s, server) == (s.Advance().(iv := hidden), Ok(()))
  {
    var echo := AesCbcDecryptIv(p, s.key, hidden, OrderOf(ProbeBody(p, s)));
    EchoIsLong(p, s, hidden);
    StartsItself(echo, 16);
    EchoIsReported(code, before, echo);
    var raw := ServerEscape(before + (MARKER + echo));
    IvIsRecovered(p, s, server, hidden, Report(code, MSG, Json.Str(raw)), raw, before, echo);
  }

  lemma EchoIsLong(p: Suite, s: Session, hidden: Block)
    requires ValidKey(s.key)
    ensures |AesCbcDecryptIv(p, s.key, hidden, OrderOf(ProbeBody(p, s)))| >= 16
  {
    var plain := ToText(ProbePacket(s.Advance()));
    ProbeIsLong(s.Advance());
    OrderArrives(p, s.Advance(), AesCbcEncryptIv(p, s.key, ZERO_IV, Pkcs7Pad(plain)));
    FirstBlock(p, s.key, hidden, plain);
  }

  lemma NamesDiffer()
    ensures |MSG| == 3 && |RESULT| == 6 && |ERROR_CODE| == 9 && |ACCEPTED| == 1 && |NO_FRAME| == 4
  {
  }

  /** A server that opens each request and passes the packet to an appliance, whose answer it sends back. */
  function ApplianceServer(p: Suite, key: Bytes, iv: Bytes, respond: Bytes -> Bytes): Server {
    (path: Bytes, body: Bytes) =>
      match Opened(p, key, iv, body)
      case None => None
      case Some(packet) => Some(Json.Print(ReplyReport(SealOrder(p, key, iv, respond(packet)))))
  }

  function ReplyReport(order: Bytes): Json.Tree {
    Report(ACCEPTED, RESULT, ReplyObject(order))
  }

  function ReplyObject(order: Bytes): Json.Tree {
    Json.Compact([Json.Close(REPLY, Json.Str(ServerEscape(order)))])
  }

  lemma ReplyObjectIsRead(order: Bytes)
    ensures Json.WellFormed(ReplyObject(order))
    ensures JsonTheory.Lookup(ReplyObject(order), REPLY) == Some(Json.Str(ServerEscape(order)))
  {
    NamesArePlain();
    ServerEscapeSpells(order);
    SpellingsAreRead(ServerEscape(order), order);
    JsonTheory.PlainAnswers(REPLY, REPLY);
    var fields := [Json.Close(REPLY, Json.Str(ServerEscape(order)))];
    assert fields + [] == fields;
    JsonTheory.CloseInFront(REPLY, Json.Str(ServerEscape(order)), [], REPLY);
  }

  lemma ReplyReportIsRead(p: Suite, s: Session, packet: Bytes)
    ensures var order := SealOrder(p, s.key, s.iv, packet);
            && Carries(p, s, ReplyReport(order), ReplyObject(order), ServerEscape(order), packet)
            && Value(Json.Print(ReplyReport(order)), ERROR_CODE) == ACCEPTED
  {
    var order := SealOrder(p, s.key, s.iv, packet);
    ReplyObjectIsRead(order);
    NamesArePlain();
    NamesDiffer();
    ReportIsRead(ACCEPTED, RESULT, ReplyObject(order));
    ServerEscapeSpells(order);
    ServerEscapeSpells(ACCEPTED);
    StringIsRead(ReplyReport(order), ERROR_CODE, ServerEscape(ACCEPTED), ACCEPTED);
  }

  /** The frame in the appliance's answer to exactly the packet that the frame was sent in. */
  function Answer(respond: Bytes -> Bytes): (Session, Bytes) -> Result<Bytes> {
    (s: Session, frame: Bytes) =>
      match ExtractAa(respond(SentPacket(s, frame))) case None => Ok([]) case Some(f) => Ok(f)
  }

  lemma SendIsAnswered(p: Suite, s: Session, frame: Bytes, respond: Bytes -> Bytes)
    requires ValidKey(s.key) && s.LoggedIn()
    ensures Send(p, s, frame, ApplianceServer(p, s.key, s.iv, respond)) == (s.Advance(), Answer(respond)(s, frame))
  {
    var server, packet := ApplianceServer(p, s.key, s.iv, respond), respond(SentPacket(s, frame));
    SendIsOpened(p, s, frame, server);
    ReplyReportIsRead(p, s.Advance(), packet);
    var order := SealOrder(p, s.key, s.iv, packet);
    ReplyIsRead(p, s.Advance(), ReplyReport(order), ReplyObject(order), ServerEscape(order), packet);
    NamesDiffer();
  }

  // ----- whole sessions -----

  /** If the answer holds a frame behind a front without 0xAA, the send returns that frame. */
  lemma FrameComesBack(p: Suite, s: Session, frame: Bytes, respond: Bytes -> Bytes, header: Bytes, answer: Bytes,
                       tail: Bytes)
    requires ValidKey(s.key) && s.LoggedIn()
    requires respond(SentPacket(s, frame)) == header + answer + tail
    requires START !in header && Frame.SelfDelimiting(answer)
    ensures Send(p, s, frame, ApplianceServer(p, s.key, s.iv, respond)) == (s.Advance(), Ok(answer))
  {
    SendIsAnswered(p, s, frame, respond);
    FrameIsFound(header, answer, tail);
  }

  function Sender(p: Suite, server: Server): (Session, Bytes) -> (Session, Result<Bytes>) {
    (s: Session, frame: Bytes) => Send(p, s, frame, server)
  }

  /** A session sends one frame after the other. */
  function SendAll(send: (Session, Bytes) -> (Session, Result<Bytes>), s: Session, frames: seq<Bytes>): seq<Result<Bytes>>
    decreases |frames|
  {
    if frames == [] then []
    else
      var (s1, reply) := send(s, frames[0]);
      [reply] + SendAll(send, s1, frames[1..])
  }

  /** The answers to frames, the sequence number moving on with each. */
  function Answers(answer: (Session, Bytes) -> Result<Bytes>, s: Session, frames: seq<Bytes>): seq<Result<Bytes>>
    decreases |frames|
  {
    if frames == [] then [] else [answer(s, frames[0])] + Answers(answer, s.Advance(), frames[1..])
  }

  /** Sessions under this key and vector. */
  predicate Holds(s: Session, key: Bytes, iv: Bytes) {
    s.LoggedIn() && s.key == key && s.iv == iv
  }

  lemma {:induction false} AllAreAnswered(send: (Session, Bytes) -> (Session, Result<Bytes>),
                                          answer: (Session, Bytes) -> Result<Bytes>,
                                          key: Bytes, iv: Bytes, s: Session, frames: seq<Bytes>)
    requires forall t, frame :: Holds(t, key, iv) ==> send(t, frame) == (t.Advance(), answer(t, frame))
    requires Holds(s, key, iv)
    ensures SendAll(send, s, frames) == Answers(answer, s, frames)
    decreases |frames|
  {
    if frames == [] {
    } else {
      AllAreAnswered(send, answer, key, iv, s.Advance(), frames[1..]);
    }
  }

  /** Every frame, in any number, reaches the appliance as the packet built for it, and its answer comes back. */
  lemma SessionIsAnswered(p: Suite, s: Session, frames: seq<Bytes>, respond: Bytes -> Bytes)
    requires ValidKey(s.key) && s.LoggedIn()
    ensures SendAll(Sender(p, ApplianceServer(p, s.key, s.iv, respond)), s, frames) == Answers(Answer(respond), s, frames)
  {
    var send := Sender(p, ApplianceServer(p, s.key, s.iv, respond));
    forall t, frame | Holds(t, s.key, s.iv)
      ensures send(t, frame) == (t.Advance(), Answer(respond)(t, frame))
    {
      SendIsAnswered(p, t, frame, respond);
    }
    AllAreAnswered(send, Answer(respond), s.key, s.iv, s, frames);
  }

  /** Recovery and sending together: for every key, hidden vector, list of frames and appliance. */
  lemma RelayWorks(p: Suite, s: Session, probed: Server, hidden: Block, code: Bytes, before: Bytes, frames: seq<Bytes>,
                   respond: Bytes -> Bytes)
    requires ValidKey(s.key) && s.sessionId != [] && IndexOf(before, MARKER) == None
    requires probed(s.baseUrl + SEND_PATH, ProbeBody(p, s)) == Some(EchoReport(p, s.key, hidden, code, before, ProbeBody(p, s)))
    ensures var s1 := RecoverIv(p, s, probed).0;
            SendAll(Sender(p, ApplianceServer(p, s.key, hidden, respond)), s1, frames) == Answers(Answer(respond), s1, frames)
  {
    EchoGivesVectorAway(p, s, probed, hidden, code, before);
    SessionIsAnswered(p, s.Advance().(iv := hidden), frames, respond);
  }
}
