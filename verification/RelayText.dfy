/**
 The text and packet forms of the cloud relay: bytes as signed decimals with commas between, the frame in
 a clear packet, and the search for a frame in what comes back.
 */
module RelayText {
  import opened ByteStrings
  import opened Numerals
  import opened Frame

  const COMMA: byte := 0x2C
  const MINUS: byte := 0x2D
  const START: byte := 0xAA

  // ----- signed decimals -----

  /** A byte as `%d` prints it when it is signed. */
  function Signed(b: byte): Bytes {
    if b > 127 then [MINUS] + Decimal(256 - b) else Decimal(b)
  }

  function ToText(packet: Bytes): Bytes {
    if packet == [] then [] else Signed(packet[0]) + Following(packet[1..])
  }

  function Following(packet: Bytes): Bytes {
    if packet == [] then [] else [COMMA] + (Signed(packet[0]) + Following(packet[1..]))
  }

  method PrintText(packet: Bytes) returns (out: Bytes)
    ensures out == ToText(packet)
  {
    out := [];
    for i := 0 to |packet|
      invariant i == 0 ==> out == []
      invariant i > 0 ==> ToText(packet) == out + Following(packet[i..])
    {
      assert packet[i..][1..] == packet[i + 1..];
      if i > 0 {
        out := out + [COMMA];
      }
      Regroup(out, Signed(packet[i]), Following(packet[i + 1..]));
      out := out + Signed(packet[i]);
    }
  }

  /** `atoi`, on unbounded integers. */
  function Atoi(text: Bytes): int {
    var s := SkipSpace(text);
    if s == [] then 0
    else if s[0] == MINUS then 0 - Number(s[1..], 10, 0)
    else if s[0] == 0x2B then Number(s[1..], 10, 0)
    else Number(s, 10, 0)
  }

  /** The remainder of C, which has the sign of the dividend. */
  function Remainder(a: int, m: nat): int
    requires m > 0
  {
    if a >= 0 then a % m else -((-a) % m)
  }

  predicate IsFiller(b: byte) {
    b == 0x20 || b == 0x09 || b == 0x0D || b == 0x0A
  }

  predicate IsBlank(s: Bytes) {
    forall b :: b in s ==> IsFiller(b)
  }

  /** What one token adds: nothing if it is blank. */
  function Token(token: Bytes): Bytes {
    if IsBlank(token) then [] else [(Remainder(Atoi(token), 256) + 256) % 256]
  }

  /** A token adds nothing exactly if it is spaces, tabs and line ends only. */
  lemma AddsNothingWhen(token: Bytes)
    ensures Token(token) == []
       <==> forall b :: b in token ==> b as int in {' ' as int, '\t' as int, '\r' as int, '\n' as int}
  {
    if Token(token) == [] {
      forall b | b in token ensures b as int in {' ' as int, '\t' as int, '\r' as int, '\n' as int} {
        assert IsFiller(b);
      }
    } else {
      var b :| b in token && !IsFiller(b);
    }
  }

  /** The tokens between the commas; there is always at least one. */
  function Split(text: Bytes): (r: seq<Bytes>)
    ensures r != []
  {
    match IndexOf(text, [COMMA])
    case None => [text]
    case Some(comma) => [text[..comma]] + Split(text[comma + 1..])
  }

  function Values(value: Bytes -> Bytes, tokens: seq<Bytes>): Bytes {
    if tokens == [] then [] else value(tokens[0]) + Values(value, tokens[1..])
  }

  function FromText(text: Bytes): Bytes {
    Values(Token, Split(text))
  }

  /** How what the text holds from a position on divides at the next comma. */
  ghost predicate Divides(value: Bytes -> Bytes, worth: Bytes -> Bytes, text: Bytes, pos: nat)
    requires pos <= |text|
  {
    match IndexOf(text[pos..], [COMMA])
    case None => worth(text[pos..]) == value(text[pos..|text|])
    case Some(n) => worth(text[pos..]) == value(text[pos..pos + n]) + worth(text[pos + n + 1..])
  }

  /** The loop over the tokens, whatever one token is worth. */
  method ParseEach(value: Bytes -> Bytes, ghost worth: Bytes -> Bytes, text: Bytes) returns (out: Bytes)
    requires forall pos :: 0 <= pos <= |text| ==> Divides(value, worth, text, pos)
    ensures out == worth(text)
  {
    out := [];
    var pos := 0;
    assert text[0..] == text;
    while pos <= |text|
      invariant pos <= |text|
      invariant worth(text) == out + worth(text[pos..])
      decreases |text| - pos
    {
      var found := IndexOf(text[pos..], [COMMA]);
      assert Divides(value, worth, text, pos);
      if found.None? {
        out := out + value(text[pos..|text|]);
        break;
      }
      var comma := pos + found.value;
      Regroup(out, value(text[pos..comma]), worth(text[comma + 1..]));
      out := out + value(text[pos..comma]);
      pos := comma + 1;
    }
  }

  ghost predicate IsWorth(value: Bytes -> Bytes, worth: Bytes -> Bytes) {
    forall text :: worth(text) == Values(value, Split(text))
  }

  method ParseText(text: Bytes) returns (out: Bytes)
    ensures out == FromText(text)
  {
    ghost var worth := (t: Bytes) => Values(Token, Split(t));
    forall pos | 0 <= pos <= |text| ensures Divides(Token, worth, text, pos) {
      SplitsAtComma(Token, worth, text[pos..]);
      NextToken(Token, worth, text, pos);
    }
    out := ParseEach(Token, worth, text);
  }

  lemma SplitsAtComma(value: Bytes -> Bytes, worth: Bytes -> Bytes, text: Bytes)
    requires IsWorth(value, worth)
    ensures Divides(value, worth, text, 0)
  {
    assert text[0..] == text && text[0..|text|] == text;
    match IndexOf(text, [COMMA])
    case Some(n) =>
      var later := Split(text[n + 1..]);
      assert ([text[..n]] + later)[1..] == later;
    case None =>
      assert Values(value, [text]) == value(text) + Values(value, [text][1..]) == value(text) + [];
  }

  lemma NextToken(value: Bytes -> Bytes, worth: Bytes -> Bytes, text: Bytes, pos: nat)
    requires pos <= |text| && Divides(value, worth, text[pos..], 0)
    ensures Divides(value, worth, text, pos)
  {
    var s := text[pos..];
    assert s[0..] == s && s[0..|s|] == s == text[pos..|text|];
    match IndexOf(s, [COMMA])
    case Some(n) =>
      assert s[0..0 + n] == text[pos..pos + n] && s[0 + n + 1..] == text[pos + n + 1..];
    case None =>
  }

  // ----- what the parse does not depend on -----

  lemma CutAtComma(a: Bytes, b: Bytes) returns (first: Bytes, later: Bytes)
    requires COMMA in a
    ensures COMMA !in first && a == first + ([COMMA] + later)
    ensures a + ([COMMA] + b) == first + ([COMMA] + (later + ([COMMA] + b)))
  {
    var n := FirstByte(a, COMMA);
    first, later := a[..n], a[n + 1..];
  }

  lemma {:induction false} SplitJoins(a: Bytes, b: Bytes)
    ensures Split(a + ([COMMA] + b)) == Split(a) + Split(b)
    decreases |a|
  {
    if COMMA in a {
      var first, later := CutAtComma(a, b);
      SplitJoins(later, b);
      SplitAfter(first, later, Split(later));
      SplitAfter(first, later + ([COMMA] + b), Split(later) + Split(b));
      assert [first] + (Split(later) + Split(b)) == [first] + Split(later) + Split(b);
    } else {
      SplitOnce(a, b);
    }
  }

  lemma SplitAfter(first: Bytes, later: Bytes, tokens: seq<Bytes>)
    requires COMMA !in first && Split(later) == tokens
    ensures Split(first + ([COMMA] + later)) == [first] + tokens
  {
    SplitOnce(first, later);
  }

  lemma SplitOnce(a: Bytes, b: Bytes)
    requires COMMA !in a
    ensures Split(a) == [a] && Split(a + ([COMMA] + b)) == [a] + Split(b)
  {
    IndexOfByte(a, [], COMMA);
    assert a + [] == a;
    IndexOfByte(a, [COMMA] + b, COMMA);
    var s := a + ([COMMA] + b);
    assert s[..|a|] == a && s[|a| + 1..] == b;
  }

  lemma {:induction false} ValuesJoin(value: Bytes -> Bytes, a: seq<Bytes>, b: seq<Bytes>)
    ensures Values(value, a + b) == Values(value, a) + Values(value, b)
  {
    if a == [] {
      assert a + b == b;
    } else {
      assert (a + b)[1..] == a[1..] + b;
      ValuesJoin(value, a[1..], b);
    }
  }

  /** Texts joined by a comma parse to their parses joined. */
  lemma FromTextJoins(a: Bytes, b: Bytes)
    ensures FromText(a + ([COMMA] + b)) == FromText(a) + FromText(b)
  {
    SplitJoins(a, b);
    ValuesJoin(Token, Split(a), Split(b));
  }

  lemma OneToken(a: Bytes)
    requires COMMA !in a
    ensures FromText(a) == Token(a)
  {
    SplitOnce(a, []);
    assert Values(Token, [a]) == Token(a) + Values(Token, [a][1..]);
  }

  lemma FirstByte(s: Bytes, b: byte) returns (n: nat)
    requires b in s
    ensures n < |s| && s[n] == b && b !in s[..n]
  {
    n := 0;
    while s[n] != b
      invariant n < |s| && b !in s[..n] && b in s[n..]
      decreases |s| - n
    {
      assert s[n..] == [s[n]] + s[n + 1..];
      n := n + 1;
    }
  }

  /** Blank tokens, at the end, at the start or between others, change nothing. */
  lemma BlankTokensAddNothing(a: Bytes, blank: Bytes, b: Bytes)
    requires IsBlank(blank)
    ensures FromText(a + ([COMMA] + blank)) == FromText(a)
    ensures FromText(blank + ([COMMA] + b)) == FromText(b)
    ensures FromText(a + ([COMMA] + (blank + ([COMMA] + b)))) == FromText(a + ([COMMA] + b))
  {
    assert COMMA !in blank;
    OneToken(blank);
    FromTextJoins(a, blank);
    FromTextJoins(blank, b);
    FromTextJoins(a, b);
    FromTextJoins(a, blank + ([COMMA] + b));
  }

  // ----- round trip -----

  lemma AtoiOfDigits(d: Bytes)
    requires d != [] && AllDigits(d, 10)
    ensures Atoi(d) == Value(d, 10) && Atoi([MINUS] + d) == -Value(d, 10)
  {
    NumberOfDigits([], d, 10);
    assert [] + d == d && Value([], 10) == 0;
    assert IsDigit(d[0], 10);
    AtoiOfNumber(d);
  }

  lemma AtoiOfNumber(d: Bytes)
    requires d != [] && IsDigit(d[0], 10)
    ensures Atoi(d) == Number(d, 10, 0) && Atoi([MINUS] + d) == -(Number(d, 10, 0) as int)
  {
    assert ([MINUS] + d)[1..] == d;
  }

  lemma TokenOf(s: Bytes, c: byte, b: byte)
    requires c in s && !IsFiller(c) && (Atoi(s) == b || Atoi(s) == b - 256)
    ensures Token(s) == [b]
  {
    WrapsTo(Atoi(s), b);
  }

  lemma WrapsTo(v: int, b: byte)
    requires v == b || v == b - 256
    ensures (Remainder(v, 256) + 256) % 256 == b
  {
  }

  lemma SignedToken(b: byte)
    ensures COMMA !in Signed(b) && Token(Signed(b)) == [b]
    ensures 1 <= |Signed(b)| <= 4
    ensures forall c :: c in Signed(b) ==> c == MINUS || 0x30 <= c <= 0x39
  {
    var n := if b > 127 then 256 - b else b;
    var d := Decimal(n);
    DecimalIsShort(n);
    ValueOfDecimal(n);
    AtoiOfDigits(d);
    assert d[0] in d;
    TokenOf(Signed(b), d[0], b);
  }

  /** A byte is printed as the signed number it is. */
  lemma SignedIs(b: byte)
    ensures Atoi(Signed(b)) == if b < 128 then b as int else b as int - 256
  {
    var n := if b > 127 then 256 - b else b;
    ValueOfDecimal(n);
    AtoiOfDigits(Decimal(n));
  }

  /** Any numeral, with or without a minus sign, is read as its value modulo 256. */
  lemma NumeralWraps(d: Bytes)
    requires d != [] && AllDigits(d, 10)
    ensures Token(d) == [Value(d, 10) % 256] && Token([MINUS] + d) == [(-Value(d, 10)) % 256]
  {
    AtoiOfDigits(d);
    assert d[0] in d && d[0] in [MINUS] + d && IsDigit(d[0], 10) && !IsFiller(d[0]);
    RemainderWraps(Value(d, 10));
    RemainderWraps(-Value(d, 10));
  }

  lemma RemainderWraps(a: int)
    ensures (Remainder(a, 256) + 256) % 256 == a % 256
  {
    if a < 0 {
      var n := -a;
      assert n == 256 * (n / 256) + n % 256 && a == 256 * -(n / 256) - n % 256;
    }
  }

  lemma DecimalIsShort(n: nat)
    requires n <= 128
    ensures |Decimal(n)| <= 3
    ensures forall c :: c in Decimal(n) ==> 0x30 <= c <= 0x39
  {
    if n >= 10 {
      assert Decimal(n) == Decimal(n / 10) + [0x30 + n % 10];
      if n >= 100 { assert Decimal(n / 10) == Decimal(n / 100) + [0x30 + n / 10 % 10]; }
    }
  }

  /** Parsing undoes printing, for every byte string, the empty one too. */
  lemma {:induction false} TextRoundTrip(packet: Bytes)
    ensures FromText(ToText(packet)) == packet
  {
    if packet == [] {
      OneToken([]);
    } else {
      SignedToken(packet[0]);
      var rest := packet[1..];
      OneToken(Signed(packet[0]));
      FromTextJoins(Signed(packet[0]), ToText(rest));
      TextRoundTrip(rest);
      assert Following(rest) == if rest == [] then [] else [COMMA] + ToText(rest);
      assert Signed(packet[0]) + [] == Signed(packet[0]);
      assert packet == [packet[0]] + rest;
    }
  }

  lemma FirstToken(packet: Bytes)
    requires packet != []
    ensures Split(ToText(packet))
         == [Signed(packet[0])] + if |packet| == 1 then [] else Split(ToText(packet[1..]))
  {
    var first, rest := packet[0], packet[1..];
    SignedToken(first);
    if rest == [] {
      assert Signed(first) + [] == Signed(first);
      SplitOnce(Signed(first), []);
    } else {
      SplitOnce(Signed(first), ToText(rest));
      assert Following(rest) == [COMMA] + ToText(rest);
    }
  }

  /** The text of a packet has a token for each byte, which is its signed number. */
  lemma {:induction false} TokensAreSigned(packet: Bytes, i: nat)
    requires i < |packet|
    ensures |Split(ToText(packet))| == |packet|
    ensures Atoi(Split(ToText(packet))[i]) == if packet[i] < 128 then packet[i] as int else packet[i] as int - 256
    decreases |packet|
  {
    FirstToken(packet);
    SignedIs(packet[0]);
    if |packet| > 1 {
      var later := Split(ToText(packet[1..]));
      TokensAreSigned(packet[1..], if i == 0 then 0 else i - 1);
      assert ([Signed(packet[0])] + later)[i] == if i == 0 then Signed(packet[0]) else later[i - 1];
    }
  }

  /** The text has only digits, minus signs and commas, and its tokens at most four characters. */
  lemma {:induction false} TextAlphabet(packet: Bytes)
    ensures forall c :: c in ToText(packet) ==> c == MINUS || c == COMMA || 0x30 <= c <= 0x39
    ensures forall t :: t in Split(ToText(packet)) ==> |t| <= 4
    ensures |ToText(packet)| >= 2 * |packet| - 1
  {
    if packet == [] {
      SplitOnce([], []);
    } else {
      var first, rest := packet[0], packet[1..];
      SignedToken(first);
      TextAlphabet(rest);
      SplitOnce(Signed(first), ToText(rest));
      assert Following(rest) == if rest == [] then [] else [COMMA] + ToText(rest);
      assert Signed(first) + [] == Signed(first);
    }
  }

  // ----- the relay's packet -----

  type Stamp = t: Bytes | |t| == 8 witness [0, 0, 0, 0, 0, 0, 0, 0]

  function RelayHeader(length: nat, applianceId: nat, seq_: nat, timestamp: Stamp): (r: Bytes)
    ensures |r| == 40
  {
    [0x5A, 0x5A, 0x01, 0, length % 256, (length / 256) % 256, 32, 0]
    + LittleEndian(4, seq_) + timestamp + LittleEndian(6, applianceId) + Repeat(14, 0)
  }

  function RelayPacket(frame: Bytes, applianceId: nat, seq_: nat, timestamp: Stamp): (r: Bytes)
    ensures |r| == |frame| + 56
  {
    RelayHeader(|frame| + 56, applianceId, seq_, timestamp) + frame + Repeat(16, 0)
  }

  /** `data` written over a buffer at a place. */
  function Splice(s: Bytes, at: nat, data: Bytes): (r: Bytes)
    requires at + |data| <= |s|
    ensures |r| == |s|
  {
    s[..at] + data + s[at + |data|..]
  }

  /** A buffer that is filled up to somewhere and zero after that. */
  function Filled(front: Bytes, length: nat): (r: Bytes)
    requires |front| <= length
    ensures |r| == length
  {
    front + Repeat(length - |front|, 0)
  }

  lemma FillOn(front: Bytes, length: nat, data: Bytes)
    requires |front| + |data| <= length
    ensures Splice(Filled(front, length), |front|, data) == Filled(front + data, length)
  {
    var s := Filled(front, length);
    assert s[..|front|] == front && s[|front| + |data|..] == Repeat(length - |front| - |data|, 0);
  }

  lemma LeaveZero(front: Bytes, length: nat, n: nat)
    requires |front| + n <= length
    ensures Filled(front, length) == Filled(front + Repeat(n, 0), length)
  {
    assert Repeat(length - |front|, 0) == Repeat(n, 0) + Repeat(length - |front| - n, 0);
  }

  /** The packet is filled in place. */
  method BuildRelayPacket(frame: Bytes, applianceId: nat, seq_: nat, timestamp: Stamp) returns (packet: Bytes)
    ensures packet == RelayPacket(frame, applianceId, seq_, timestamp)
  {
    var length := |frame| + 56;
    var a := new byte[length](_ => 0);
    assert a[..] == Filled([], length);
    var start: Bytes := [0x5A, 0x5A, 0x01, 0, length % 256, (length / 256) % 256, 32, 0];
    FillHeader(a, start, 4, seq_, timestamp, 6, applianceId);
    ghost var front := start + LittleEndian(4, seq_) + timestamp + LittleEndian(6, applianceId);
    LeaveZero(front, length, 14);
    CopyInto(a, 40, frame, front + Repeat(14, 0));
    PacketIsFilled(RelayHeader(length, applianceId, seq_, timestamp), frame);
    packet := a[..];
  }

  lemma PacketIsFilled(header: Bytes, frame: Bytes)
    ensures Filled(header + frame, |header| + |frame| + 16) == header + frame + Repeat(16, 0)
  {
  }

  /** The fields of the header that are not zero: its start, two numbers and the timestamp between them. */
  method FillHeader(a: array<byte>, start: Bytes, n: nat, number: nat, timestamp: Bytes, m: nat, id: nat)
    requires |start| + n + |timestamp| + m <= a.Length && a[..] == Filled([], a.Length)
    modifies a
    ensures a[..] == Filled(start + LittleEndian(n, number) + timestamp + LittleEndian(m, id), a.Length)
  {
    assert [] + start == start;
    CopyInto(a, 0, start, []);
    PutNumber(a, |start|, n, number, start);
    CopyInto(a, |start| + n, timestamp, start + LittleEndian(n, number));
    PutNumber(a, |start| + n + |timestamp|, m, id, start + LittleEndian(n, number) + timestamp);
  }

  /** The bytes of a number, least significant first, written at a place in the buffer. */
  method PutNumber(a: array<byte>, at: nat, n: nat, v: nat, ghost front: Bytes)
    requires at == |front| && at + n <= a.Length && a[..] == Filled(front, a.Length)
    modifies a
    ensures a[..] == Filled(front + LittleEndian(n, v), a.Length)
  {
    PutBytes(a, at, n, v);
    assert a[..] == Splice(old(a[..]), at, LittleEndian(n, v));
    FillOn(front, a.Length, LittleEndian(n, v));
  }

  method PutBytes(a: array<byte>, at: nat, n: nat, v: nat)
    requires at + n <= a.Length
    modifies a
    ensures a[at..at + n] == LittleEndian(n, v)
    ensures a[..at] == old(a[..at]) && a[at + n..] == old(a[at + n..])
  {
    var rest := v;
    for i := 0 to n
      invariant LittleEndian(n, v) == a[at..at + i] + LittleEndian(n - i, rest)
      invariant a[..at] == old(a[..at]) && a[at + n..] == old(a[at + n..])
    {
      a[at + i] := rest % 256;
      NextByte(a[at..at + i], n - i, rest);
      rest := rest / 256;
      assert a[at..at + i + 1] == a[at..at + i] + [a[at + i]];
    }
  }

  lemma NextByte(before: Bytes, n: nat, rest: nat)
    requires n > 0
    ensures before + LittleEndian(n, rest) == before + [rest % 256] + LittleEndian(n - 1, rest / 256)
  {
  }

  method CopyInto(a: array<byte>, at: nat, data: Bytes, ghost front: Bytes)
    requires at == |front| && at + |data| <= a.Length && a[..] == Filled(front, a.Length)
    modifies a
    ensures a[..] == Filled(front + data, a.Length)
  {
    for i := 0 to |data|
      invariant a[at..at + i] == data[..i]
      invariant a[..at] == old(a[..at]) && a[at + |data|..] == old(a[at + |data|..])
    {
      a[at + i] := data[i];
    }
    assert a[..] == Splice(old(a[..]), at, data);
    FillOn(front, a.Length, data);
  }

  /** The frame that starts at the first 0xAA and is as long as its length byte says, plus the checksum. */
  function ExtractAa(packet: Bytes): Option<Bytes> {
    match IndexOf(packet, [START])
    case None => None
    case Some(i) =>
      if i + 1 >= |packet| then None
      else
        var length := packet[i + 1] as int + 1;
        if i + length > |packet| then None else Some(packet[i..i + length])
  }

  method FindFrame(packet: Bytes) returns (frame: Option<Bytes>)
    ensures frame == ExtractAa(packet)
  {
    var i := 0;
    while i + 1 < |packet|
      invariant i <= |packet| && START !in packet[..i]
    {
      if packet[i] == START {
        IndexOfByte(packet[..i], packet[i..], START);
        assert packet[..i] + packet[i..] == packet;
        var length := packet[i + 1] as int + 1;
        if i + length > |packet| {
          return None;
        }
        return Some(packet[i..i + length]);
      }
      i := i + 1;
    }
    frame := None;
    LateStart(packet, i);
  }

  lemma LateStart(packet: Bytes, i: nat)
    requires i <= |packet| <= i + 1 && START !in packet[..i]
    ensures ExtractAa(packet) == None
  {
    IndexOfByte(packet[..i], if i < |packet| && packet[i] == START then packet[i..] else [], START);
    if i < |packet| {
      assert packet[..i] + packet[i..] == packet;
      if packet[i] != START {
        assert START !in packet;
        IndexOfByte(packet, [], START);
        assert packet + [] == packet;
      }
    } else {
      assert packet[..i] + [] == packet;
    }
  }

  /** A frame is found exactly if it is what stands at the first 0xAA, as long as its second byte says and whole. */
  lemma FoundWhen(packet: Bytes, frame: Bytes)
    ensures ExtractAa(packet) == Some(frame)
       <==> exists i: nat :: IsFirstFrame(packet, frame, i)
  {
    IndexOfIsFirst(packet, [START]);
    var found := IndexOf(packet, [START]);
    if found.Some? {
      var i := found.value;
      StartsAt(packet, i);
      forall k: nat | k < i ensures packet[k] != 0xAA { StartsAt(packet, k); }
      if ExtractAa(packet) == Some(frame) {
        assert IsFirstFrame(packet, frame, i);
      }
      forall k: nat | IsFirstFrame(packet, frame, k) ensures k == i {
        StartsAt(packet, k);
      }
    } else {
      forall k: nat | k < |packet| ensures packet[k] != 0xAA { StartsAt(packet, k); }
    }
  }

  predicate IsFirstFrame(packet: Bytes, frame: Bytes, i: nat) {
    && |frame| >= 1 && i + |frame| <= |packet| && i + 1 < |packet| && packet[i..i + |frame|] == frame
    && packet[i] == 0xAA && packet[i + 1] as int + 1 == |frame|
    && forall k :: 0 <= k < i ==> packet[k] != 0xAA
  }

  lemma StartsAt(packet: Bytes, i: nat)
    requires i <= |packet|
    ensures [START] <= packet[i..] <==> i < |packet| && packet[i] == 0xAA
  {
  }

  /** Behind a header without 0xAA, a self-delimiting frame is found whole, whatever follows it. */
  lemma FrameIsFound(header: Bytes, frame: Bytes, tail: Bytes)
    requires START !in header && SelfDelimiting(frame)
    ensures ExtractAa(header + frame + tail) == Some(frame)
  {
    var packet := header + frame + tail;
    IndexOfByte(header, frame + tail, START);
    assert header + (frame + tail) == packet;
    assert packet[|header|] == frame[0] && packet[|header| + 1] == frame[1];
    assert packet[|header|..|header| + |frame|] == frame;
  }

  // ----- when the relay's own packets are found again -----

  /** No number in the header has a byte 0xAA: the five tests a caller can make before building a packet. */
  predicate ClearHeader(frame: Bytes, applianceId: nat, seq_: nat, timestamp: Stamp) {
    && (|frame| + 56) % 256 != START && ((|frame| + 56) / 256) % 256 != START
    && START !in LittleEndian(4, seq_) && START !in timestamp && START !in LittleEndian(6, applianceId)
  }

  lemma ClearParts(a: Bytes, b: Bytes, c: Bytes, d: Bytes, e: Bytes)
    ensures START !in a + b + c + d + e <==> START !in a && START !in b && START !in c && START !in d && START !in e
  {
  }

  lemma HeaderIsClearWhen(frame: Bytes, applianceId: nat, seq_: nat, timestamp: Stamp)
    ensures START !in RelayHeader(|frame| + 56, applianceId, seq_, timestamp)
       <==> ClearHeader(frame, applianceId, seq_, timestamp)
  {
    var length := |frame| + 56;
    var start: Bytes := [0x5A, 0x5A, 0x01, 0, length % 256, (length / 256) % 256, 32, 0];
    assert START in start <==> start[4] == START || start[5] == START;
    ClearParts(start, LittleEndian(4, seq_), timestamp, LittleEndian(6, applianceId), Repeat(14, 0));
  }

  /**
   The search begins at the frame in the relay's own packet of it exactly when the header is clear; then
   the frame is found whole.
   */
  lemma RelayPacketIsFound(frame: Bytes, applianceId: nat, seq_: nat, timestamp: Stamp)
    requires SelfDelimiting(frame)
    ensures var packet := RelayPacket(frame, applianceId, seq_, timestamp);
            && (IndexOf(packet, [START]) == Some(40) <==> ClearHeader(frame, applianceId, seq_, timestamp))
            && (ClearHeader(frame, applianceId, seq_, timestamp) ==> ExtractAa(packet) == Some(frame))
  {
    var header := RelayHeader(|frame| + 56, applianceId, seq_, timestamp);
    var packet := RelayPacket(frame, applianceId, seq_, timestamp);
    HeaderIsClearWhen(frame, applianceId, seq_, timestamp);
    if START in header {
      var n := FirstByte(header, START);
      IndexOfByte(header[..n], packet[n..], START);
      assert packet == header[..n] + packet[n..] && packet[n] == START;
    } else {
      IndexOfByte(header, frame + Repeat(16, 0), START);
      assert header + (frame + Repeat(16, 0)) == packet;
      FrameIsFound(header, frame, Repeat(16, 0));
    }
  }

  /** So a frame of 114 bytes, which makes the packet's own length byte 0xAA, is never found. */
  lemma LengthByteMisleads(frame: Bytes, applianceId: nat, seq_: nat, timestamp: Stamp)
    requires |frame| == 114
    ensures ExtractAa(RelayPacket(frame, applianceId, seq_, timestamp)) == Some([START])
  {
    var packet := RelayPacket(frame, applianceId, seq_, timestamp);
    var front: Bytes := [0x5A, 0x5A, 0x01, 0];
    assert packet[..4] == front && packet[4] == START && packet[5] == 0;
    IndexOfByte(front, packet[4..], START);
    assert front + packet[4..] == packet;
    assert packet[4..5] == [START];
  }
}
