/**
 Header lines in any spelling. Names of fields and the word that asks for chunks are written out here and
 compared letter by letter; what a head calls for is read off its lines without lowering or trimming any.
 */
module HttpHeads {
  import opened ByteStrings
  import opened Http
  import opened HttpTheory
  import opened Numerals

  // ----- spellings -----

  /** A letter of a lower-case word, in either case; any other character as it is. */
  predicate IsSpelling(b: byte, c: char) {
    b as int == c as int || ('a' <= c <= 'z' && b as int == c as int - 32)
  }

  predicate Spells(s: Bytes, word: string) {
    |s| == |word| && forall i :: 0 <= i < |s| ==> IsSpelling(s[i], word[i])
  }

  predicate SpelledAt(text: Bytes, n: nat, word: string) {
    n + |word| <= |text| && Spells(text[n..n + |word|], word)
  }

  /** The word somewhere in a text. */
  ghost predicate Mentions(text: Bytes, word: string) {
    exists n: nat :: SpelledAt(text, n, word)
  }

  /** A word whose letters are lower case. */
  predicate IsLowerWord(word: string) {
    forall c :: c in word ==> ' ' < c < '\U{7F}' && !('A' <= c <= 'Z')
  }

  lemma LowerSpells(b: byte, c: char)
    requires ' ' < c < '\U{7F}' && !('A' <= c <= 'Z')
    ensures IsSpelling(b, c) <==> LowerByte(b) as int == c as int
  {
  }

  /** A text spells a word exactly when it is that word in lower case. */
  lemma SpellsWhen(s: Bytes, word: string)
    requires IsLowerWord(word)
    ensures Spells(s, word) <==> Lowercased(s) == Ascii(word)
  {
    if |s| == |word| {
      forall i | 0 <= i < |s| ensures IsSpelling(s[i], word[i]) <==> Lowercased(s)[i] == Ascii(word)[i] {
        assert word[i] in word;
        LowerSpells(s[i], word[i]);
      }
      if Lowercased(s) == Ascii(word) {
        forall i | 0 <= i < |s| ensures IsSpelling(s[i], word[i]) {
          assert Lowercased(s)[i] == Ascii(word)[i];
        }
      }
    }
  }

  lemma FrontIs(s: Bytes, needle: Bytes)
    ensures needle <= s <==> |needle| <= |s| && s[..|needle|] == needle
  {
  }

  lemma LoweredSlice(text: Bytes, n: nat, m: nat)
    requires n + m <= |text|
    ensures Lowercased(text)[n..][..m] == Lowercased(text[n..n + m])
  {
  }

  lemma MentionedAt(text: Bytes, word: string, n: nat)
    requires IsLowerWord(word) && n <= |text|
    ensures Ascii(word) <= Lowercased(text)[n..] <==> SpelledAt(text, n, word)
  {
    FrontIs(Lowercased(text)[n..], Ascii(word));
    if n + |word| <= |text| {
      LoweredSlice(text, n, |word|);
      SpellsWhen(text[n..n + |word|], word);
    }
  }

  /** The search in the lowered text finds the word exactly when it is mentioned. */
  lemma MentionsWhen(text: Bytes, word: string)
    requires IsLowerWord(word)
    ensures IndexOf(Lowercased(text), Ascii(word)).Some? <==> Mentions(text, word)
  {
    var lowered, found := Lowercased(text), IndexOf(Lowercased(text), Ascii(word));
    IndexOfIsFirst(lowered, Ascii(word));
    if found.Some? {
      MentionedAt(text, word, found.value);
    } else {
      forall n: nat ensures !SpelledAt(text, n, word) {
        if n <= |text| { MentionedAt(text, word, n); }
      }
    }
  }

  lemma Words()
    ensures IsLowerWord("transfer-encoding") && IsLowerWord("content-length") && IsLowerWord("chunked")
  {
  }

  // ----- blanks -----

  predicate IsSpaceOrTab(b: byte) {
    b == 0x20 || b == 0x09
  }

  predicate AreBlanks(s: Bytes) {
    forall b :: b in s ==> IsSpaceOrTab(b)
  }

  predicate HasBareEnds(s: Bytes) {
    s == [] || (!IsSpaceOrTab(s[0]) && !IsSpaceOrTab(s[|s| - 1]))
  }

  lemma {:induction false} TrimLeftBlanks(blanks: Bytes, s: Bytes)
    requires AreBlanks(blanks)
    ensures TrimLeft(blanks + s) == TrimLeft(s)
  {
    if blanks == [] {
      assert blanks + s == s;
    } else {
      assert blanks[0] in blanks && (blanks + s)[1..] == blanks[1..] + s;
      TrimLeftBlanks(blanks[1..], s);
    }
  }

  lemma {:induction false} OnlyBlanks(blanks: Bytes)
    requires AreBlanks(blanks)
    ensures TrimLeft(blanks) == [] && TrimRight(blanks) == []
    decreases |blanks|
  {
    if blanks == [] {
    } else {
      assert blanks[0] in blanks && blanks[|blanks| - 1] in blanks;
      OnlyBlanks(blanks[1..]);
      OnlyBlanks(blanks[..|blanks| - 1]);
    }
  }

  /** Trimming takes blanks off both ends, and nothing else. */
  lemma TrimIs(left: Bytes, s: Bytes, right: Bytes)
    requires AreBlanks(left) && AreBlanks(right) && HasBareEnds(s)
    ensures Trim(left + s + right) == s
  {
    assert left + s + right == left + (s + right);
    TrimLeftBlanks(left, s + right);
    if s == [] {
      assert s + right == right;
      OnlyBlanks(right);
    } else {
      assert (s + right)[0] == s[0];
      TrimRightBlanks(s, right);
    }
  }

  lemma {:induction false} TrimLeftParts(s: Bytes) returns (left: Bytes)
    ensures AreBlanks(left) && s == left + TrimLeft(s) && (TrimLeft(s) == [] || !IsBlank(TrimLeft(s)[0]))
  {
    if s != [] && IsBlank(s[0]) {
      var later := TrimLeftParts(s[1..]);
      left := [s[0]] + later;
    } else {
      left := [];
    }
  }

  lemma {:induction false} TrimRightParts(s: Bytes) returns (right: Bytes)
    ensures AreBlanks(right) && s == TrimRight(s) + right
    decreases |s|
  {
    if s != [] && IsBlank(s[|s| - 1]) {
      var before := TrimRightParts(s[..|s| - 1]);
      right := before + [s[|s| - 1]];
      assert s == s[..|s| - 1] + [s[|s| - 1]];
    } else {
      right := [];
    }
  }

  /** What trimming takes off mentions no word. */
  lemma TrimMentions(text: Bytes, word: string)
    requires IsLowerWord(word) && word != ""
    ensures Mentions(Trim(text), word) <==> Mentions(text, word)
  {
    var left := TrimLeftParts(text);
    var right := TrimRightParts(TrimLeft(text));
    assert text == left + Trim(text) + right;
    BlanksMentionNothing(left, Trim(text), right, word);
  }

  lemma BlanksMentionNothing(left: Bytes, s: Bytes, right: Bytes, word: string)
    requires AreBlanks(left) && AreBlanks(right) && IsLowerWord(word) && word != ""
    ensures Mentions(left + s + right, word) <==> Mentions(s, word)
  {
    forall n: nat ensures SpelledAt(s, n, word) ==> SpelledAt(left + s + right, |left| + n, word) {
      MovesOut(left, s, right, word, n);
    }
    forall n: nat ensures SpelledAt(left + s + right, n, word) ==> n >= |left| && SpelledAt(s, n - |left|, word) {
      MovesIn(left, s, right, word, n);
    }
  }

  lemma MovesOut(left: Bytes, s: Bytes, right: Bytes, word: string, n: nat)
    ensures SpelledAt(s, n, word) ==> SpelledAt(left + s + right, |left| + n, word)
  {
    if n + |word| <= |s| {
      assert (left + s + right)[|left| + n..|left| + n + |word|] == s[n..n + |word|];
    }
  }

  lemma MovesIn(left: Bytes, s: Bytes, right: Bytes, word: string, n: nat)
    requires AreBlanks(left) && AreBlanks(right) && IsLowerWord(word) && word != ""
    ensures SpelledAt(left + s + right, n, word) ==> n >= |left| && SpelledAt(s, n - |left|, word)
  {
    if SpelledAt(left + s + right, n, word) {
      WordIsBare((left + s + right)[n..n + |word|], word);
      Inside(left, s, right, n, |word|);
    }
  }

  lemma WordIsBare(s: Bytes, word: string)
    requires IsLowerWord(word) && Spells(s, word) && word != ""
    ensures !IsBlank(s[0]) && !IsBlank(s[|s| - 1])
  {
    assert word[0] in word && word[|word| - 1] in word;
    assert IsSpelling(s[0], word[0]) && IsSpelling(s[|s| - 1], word[|word| - 1]);
  }

  lemma BlankOutside(left: Bytes, s: Bytes, right: Bytes, n: nat)
    requires AreBlanks(left) && AreBlanks(right) && n < |left + s + right|
    ensures n < |left| || n >= |left| + |s| ==> IsBlank((left + s + right)[n])
  {
    if n < |left| {
      assert left[n] in left;
    } else if n >= |left| + |s| {
      assert right[n - |left| - |s|] in right;
    }
  }

  lemma Inside(left: Bytes, s: Bytes, right: Bytes, n: nat, m: nat)
    requires AreBlanks(left) && AreBlanks(right) && m > 0 && n + m <= |left + s + right|
    requires !IsBlank((left + s + right)[n]) && !IsBlank((left + s + right)[n + m - 1])
    ensures |left| <= n && n + m <= |left| + |s| && s[n - |left|..n - |left| + m] == (left + s + right)[n..n + m]
  {
    BlankOutside(left, s, right, n);
    BlankOutside(left, s, right, n + m - 1);
  }

  // ----- header lines -----

  /** A header line in its parts: a name between blanks, a colon, and what follows it; or a line without a colon. */
  datatype Header =
    | Coding(lead: Bytes, name: Bytes, gap: Bytes, text: Bytes)
    | Length(lead: Bytes, name: Bytes, gap: Bytes, left: Bytes, digits: Bytes, right: Bytes)
    | Another(lead: Bytes, name: Bytes, gap: Bytes, text: Bytes)
    | Unnamed(text: Bytes)

  function TextOf(h: Header): Bytes {
    match h
    case Coding(_, _, _, text) => text
    case Length(_, _, _, left, digits, right) => left + digits + right
    case Another(_, _, _, text) => text
    case Unnamed(text) => text
  }

  function LineOf(h: Header): Bytes {
    if h.Unnamed? then h.text else h.lead + h.name + h.gap + [0x3A] + TextOf(h)
  }

  /** Names in any spelling: the coding's, the length's, or neither; the length is a numeral between blanks. */
  predicate IsHeader(h: Header) {
    && LineOf(h) != [] && IsLine(LineOf(h))
    && (if h.Unnamed? then 0x3A !in h.text
        else AreBlanks(h.lead) && AreBlanks(h.gap) && HasBareEnds(h.name) && 0x3A !in h.name)
    && match h
       case Coding(_, name, _, _) => Spells(name, "transfer-encoding")
       case Length(_, name, _, left, digits, right) =>
         && Spells(name, "content-length") && AreBlanks(left) && AreBlanks(right)
         && digits != [] && AreDecimal(digits)
       case Another(_, name, _, _) => !Spells(name, "transfer-encoding") && !Spells(name, "content-length")
       case Unnamed(_) => true
  }

  predicate IsDecimal(b: byte) {
    0x30 <= b <= 0x39
  }

  predicate AreDecimal(s: Bytes) {
    forall b :: b in s ==> IsDecimal(b)
  }

  /** The value of a decimal numeral. */
  function Numeral(digits: Bytes): nat
    requires AreDecimal(digits)
  {
    if digits == [] then 0
    else
      assert digits[|digits| - 1] in digits;
      10 * Numeral(digits[..|digits| - 1]) + (digits[|digits| - 1] as nat - 0x30)
  }

  lemma {:induction false} NumeralIs(digits: Bytes)
    requires AreDecimal(digits)
    ensures AllDigits(digits, 10) && Value(digits, 10) == Numeral(digits)
    decreases |digits|
  {
    if digits == [] {
    } else {
      assert digits[|digits| - 1] in digits;
      NumeralIs(digits[..|digits| - 1]);
    }
  }

  /** What one header does to the mode: a coding sets or clears chunking, a length sets the length. */
  ghost function After(mode: Mode, h: Header): Mode
    requires IsHeader(h)
  {
    match h
    case Coding(_, _, _, text) => mode.(chunked := Mentions(text, "chunked"))
    case Length(_, _, _, _, digits, _) =>
      mode.(length := Some(if Numeral(digits) <= 0xFFFF_FFFF_FFFF_FFFF then Numeral(digits) else 0xFFFF_FFFF_FFFF_FFFF))
    case Another(_, _, _, _) => mode
    case Unnamed(_) => mode
  }

  lemma NameIsFound(h: Header)
    requires IsHeader(h) && !h.Unnamed?
    ensures var line := LineOf(h);
            && IndexOf(line, [COLON]) == Some(|h.lead + h.name + h.gap|)
            && Trim(line[..|h.lead + h.name + h.gap|]) == h.name
            && line[|h.lead + h.name + h.gap| + 1..] == TextOf(h)
  {
    var front := h.lead + h.name + h.gap;
    assert COLON !in front;
    SplitAtColon(front, TextOf(h));
    TrimIs(h.lead, h.name, h.gap);
  }

  lemma SplitAtColon(front: Bytes, text: Bytes)
    requires COLON !in front
    ensures var line := front + [0x3A] + text;
            IndexOf(line, [COLON]) == Some(|front|) && line[..|front|] == front && line[|front| + 1..] == text
  {
    IndexOfByte(front, [COLON] + text, COLON);
    assert front + [0x3A] + text == front + ([COLON] + text);
  }

  lemma NamesDiffer()
    ensures TRANSFER_ENCODING == Ascii("transfer-encoding") && CONTENT_LENGTH == Ascii("content-length")
    ensures CHUNKED == Ascii("chunked") && TRANSFER_ENCODING != CONTENT_LENGTH
  {
    assert TRANSFER_ENCODING[0] != CONTENT_LENGTH[0];
  }

  lemma LengthIsRead(h: Header)
    requires IsHeader(h) && h.Length?
    ensures Strtoul(Trim(TextOf(h)), 10)
         == if Numeral(h.digits) <= 0xFFFF_FFFF_FFFF_FFFF then Numeral(h.digits) else 0xFFFF_FFFF_FFFF_FFFF
  {
    assert h.digits[0] in h.digits && h.digits[|h.digits| - 1] in h.digits;
    TrimIs(h.left, h.digits, h.right);
    NumeralIs(h.digits);
    StrtoulOfDigits(h.digits, 10);
  }

  /** Every header does that to the mode, in whatever case its name and words are, and with any blanks. */
  lemma HeaderIsConsidered(mode: Mode, h: Header)
    requires IsHeader(h)
    ensures Consider(mode, LineOf(h)) == After(mode, h)
  {
    Words();
    NamesDiffer();
    if h.Unnamed? {
      IndexOfByte(h.text, [], COLON);
      assert h.text + [] == h.text;
    } else {
      NameIsFound(h);
      SpellsWhen(h.name, "transfer-encoding");
      SpellsWhen(h.name, "content-length");
      if h.Coding? {
        MentionsWhen(Trim(h.text), "chunked");
        TrimMentions(h.text, "chunked");
      } else if h.Length? {
        LengthIsRead(h);
      }
    }
  }

  // ----- heads -----

  predicate AreAllHeaders(headers: seq<Header>) {
    forall h :: h in headers ==> IsHeader(h)
  }

  /** What a head calls for: the last coding decides on chunking, and the last length on the length. */
  ghost function ModeOf(headers: seq<Header>): Mode
    requires AreAllHeaders(headers)
  {
    if headers == [] then Mode(false, None)
    else After(ModeOf(headers[..|headers| - 1]), headers[|headers| - 1])
  }

  function LinesOf(headers: seq<Header>): seq<Bytes> {
    if headers == [] then [] else LinesOf(headers[..|headers| - 1]) + [LineOf(headers[|headers| - 1])]
  }

  lemma {:induction false} LinesAreHeaders(headers: seq<Header>)
    requires AreAllHeaders(headers)
    ensures AreHeaders(LinesOf(headers)) && Declared(LinesOf(headers)) == ModeOf(headers)
    decreases |headers|
  {
    if headers == [] {
    } else {
      var front, last := headers[..|headers| - 1], headers[|headers| - 1];
      LinesAreHeaders(front);
      ConsiderDeclared(LinesOf(front), LineOf(last));
      HeaderIsConsidered(ModeOf(front), last);
    }
  }

  /** A response as it is sent: a status line, headers, an empty line and a body. */
  function Sent(status: Bytes, headers: seq<Header>, body: Bytes): Bytes {
    status + [0x0D, 0x0A] + Lines(LinesOf(headers)) + [0x0D, 0x0A] + body
  }

  function Lines(lines: seq<Bytes>): Bytes {
    if lines == [] then [] else lines[0] + [0x0D, 0x0A] + Lines(lines[1..])
  }

  lemma {:induction false} LinesAreSent(lines: seq<Bytes>, body: Bytes)
    ensures SendLines(lines) + body == Lines(lines) + [0x0D, 0x0A] + body
  {
    if lines == [] {
      assert Lines(lines) + [0x0D, 0x0A] == [0x0D, 0x0A];
    } else {
      LinesAreSent(lines[1..], body);
      var more := Lines(lines[1..]) + [0x0D, 0x0A] + body;
      assert SendLines(lines) + body == lines[0] + CRLF + (SendLines(lines[1..]) + body);
      assert Lines(lines) + [0x0D, 0x0A] + body == lines[0] + [0x0D, 0x0A] + more;
    }
  }

  lemma SentIs(status: Bytes, headers: seq<Header>, body: Bytes)
    ensures Sent(status, headers, body) == SendResponse(status, LinesOf(headers), body)
  {
    LinesAreSent(LinesOf(headers), body);
    var lines := Lines(LinesOf(headers)) + [0x0D, 0x0A] + body;
    assert Sent(status, headers, body) == status + [0x0D, 0x0A] + lines == status + ([0x0D, 0x0A] + lines);
  }

  /**
   The body of a response is read as its head calls for, in whatever spelling: as chunks if the last transfer
   coding mentions them, else by the last length, else up to the end of the connection.
   */
  lemma HeadDecides(status: Bytes, headers: seq<Header>, body: Bytes, lost: bool)
    requires IsLine(status) && AreAllHeaders(headers)
    ensures ReadResponse(Input(Sent(status, headers, body), lost))
         == if !(Ascii("HTTP/") <= status) then Err(NotHttp)
            else if ModeOf(headers).chunked then ReadChunks(ChunkSize, Input(body, lost)).0
            else match ModeOf(headers).length
                 case Some(n) =>
                   if n <= |body| then Ok(body[..n]) else Err(if lost then ConnectionLost else BodyTruncated)
                 case None => if lost then Err(ConnectionLost) else Ok(body)
  {
    SentIs(status, headers, body);
    LinesAreHeaders(headers);
    ResponseIsRead(status, LinesOf(headers), body, lost);
  }

  /** And as chunks any cutting into chunks is undone, whatever follows the last of them. */
  lemma ChunksAreRead(status: Bytes, headers: seq<Header>, chunks: seq<Chunk>, last: Chunk, more: Bytes, lost: bool)
    requires IsLine(status) && Ascii("HTTP/") <= status && AreAllHeaders(headers) && ModeOf(headers).chunked
    requires AreChunks(chunks, last)
    ensures ReadResponse(Input(Sent(status, headers, SendChunks(chunks, last) + more), lost)) == Ok(Joined(chunks))
  {
    HeadDecides(status, headers, SendChunks(chunks, last) + more, lost);
    ChunksAreJoined(chunks, last, more, lost);
  }

  // ----- heads that break off -----

  lemma {:induction false} HeadersExtend(s: Bytes, more: Bytes, lost: bool, mode: Mode)
    ensures var (read, after) := ReadHeaders(Input(s, lost), mode);
            && (read.Ok? ==> ReadHeaders(Input(s + more, lost), mode) == (read, Input(after.rest + more, lost)))
            && (read.Err? ==> read.error == if lost then ConnectionLost else EndedInHeader)
    decreases |s|
  {
    var (line, after) := ReadLine(Input(s, lost));
    if line.Ok? {
      LineExtends(s, more, lost);
      assert ReadLine(Input(s + more, lost)) == (line, Input(after.rest + more, lost));
      if line.value != [] { HeadersExtend(after.rest, more, lost, Consider(mode, line.value)); }
    }
  }

  /** Of a line that breaks off before what follows it is there, either nothing is read or all of the line. */
  lemma LineBreaksOff(line: Bytes, rest: Bytes, s: Bytes, more: Bytes, lost: bool)
    requires IsLine(line) && s + more == line + (CRLF + rest)
    ensures var (read, after) := ReadLine(Input(s, lost));
            && (read.Err? ==> read.error == if lost then ConnectionLost else EndedInHeader)
            && (read.Ok? ==> read.value == line && after.rest + more == rest)
  {
    if ReadLine(Input(s, lost)).0.Ok? {
      LineExtends(s, more, lost);
      LineIsRead(line, rest, lost);
    }
  }

  lemma HeadersBreakOff(lines: seq<Bytes>, s: Bytes, more: Bytes, lost: bool, mode: Mode)
    requires AreHeaders(lines) && more != [] && s + more == SendLines(lines)
    ensures ReadHeaders(Input(s, lost), mode).0 == Err(if lost then ConnectionLost else EndedInHeader)
  {
    HeadersExtend(s, more, lost, mode);
    HeadersAreRead(mode, lines, [], lost);
    assert SendLines(lines) + [] == SendLines(lines);
  }

  lemma ResponseBreaksOff(status: Bytes, lines: seq<Bytes>, s: Bytes, more: Bytes, lost: bool)
    requires IsLine(status) && Ascii("HTTP/") <= status && AreHeaders(lines)
    requires more != [] && s + more == status + (CRLF + SendLines(lines))
    ensures ReadResponse(Input(s, lost)) == Err(if lost then ConnectionLost else EndedInHeader)
  {
    LineBreaksOff(status, SendLines(lines), s, more, lost);
    var (line, after) := ReadLine(Input(s, lost));
    if line.Ok? { HeadersBreakOff(lines, after.rest, more, lost, Mode(false, None)); }
  }

  /** A head that breaks off anywhere before its empty line ends is an error, and which one says how it ended. */
  lemma HeadIsTruncated(status: Bytes, headers: seq<Header>, n: nat, lost: bool)
    requires IsLine(status) && Ascii("HTTP/") <= status && AreAllHeaders(headers) && n < |Sent(status, headers, [])|
    ensures ReadResponse(Input(Sent(status, headers, [])[..n], lost))
         == Err(if lost then ConnectionLost else EndedInHeader)
  {
    var all, lines := Sent(status, headers, []), LinesOf(headers);
    SentIs(status, headers, []);
    LinesAreHeaders(headers);
    assert SendLines(lines) + [] == SendLines(lines);
    assert all[..n] + all[n..] == all;
    ResponseBreaksOff(status, lines, all[..n], all[n..], lost);
  }

  // ----- numerals -----

  /** Spaces, a sign, and for base 16 perhaps a prefix: how `strtoul` takes them. */
  predicate IsPrefix(prefix: Bytes, base: nat) {
    prefix == [] || (base == 16 && (prefix == [0x30, 0x78] || prefix == [0x30, 0x58]))
  }

  lemma {:induction false} SpacesAreSkipped(spaces: Bytes, s: Bytes)
    requires (forall b :: b in spaces ==> IsSpace(b)) && (s == [] || !IsSpace(s[0]))
    ensures SkipSpace(spaces + s) == s
  {
    if spaces == [] {
      assert spaces + s == s;
    } else {
      assert spaces[0] in spaces && (spaces + s)[1..] == spaces[1..] + s;
      SpacesAreSkipped(spaces[1..], s);
    }
  }

  /**
   The number that `strtoul` reads: spaces are skipped, a minus sign takes the number from 2^64, a prefix is
   taken as one, digits count up to the first byte that is none, and too large a number is the largest.
   */
  lemma StrtoulReads(spaces: Bytes, sign: Bytes, prefix: Bytes, digits: Bytes, rest: Bytes, base: nat)
    requires base == 10 || base == 16
    requires forall b :: b in spaces ==> IsSpace(b)
    requires (sign == [] || sign == [0x2B] || sign == [0x2D]) && IsPrefix(prefix, base)
    requires digits != [] && AllDigits(digits, base) && (rest == [] || !IsDigit(rest[0], base))
    requires base == 16 && prefix == [] && digits == [0x30] ==> rest == [] || (rest[0] != 0x78 && rest[0] != 0x58)
    ensures var n := Value(digits, base);
            Strtoul(spaces + (sign + (prefix + (digits + rest))), base)
            == if n > 0xFFFF_FFFF_FFFF_FFFF then 0xFFFF_FFFF_FFFF_FFFF
               else if sign == [0x2D] && n > 0 then 0x1_0000_0000_0000_0000 - n
               else n
  {
    var unsigned := prefix + (digits + rest);
    assert unsigned[0] == if prefix == [] then digits[0] else 0x30;
    assert digits[0] in digits;
    DigitIsPlain(digits[0], base);
    SignIsTaken(sign, unsigned);
    SpacesAreSkipped(spaces, sign + unsigned);
    PrefixIsTaken(prefix, digits, rest, base);
    StrtoulIs(spaces + (sign + unsigned), sign, unsigned, digits + rest, base);
    NumberStops(digits, rest, base, 0);
    NumberOfDigits([], digits, base);
    assert [] + digits == digits;
  }

  lemma SignIsTaken(sign: Bytes, unsigned: Bytes)
    requires sign == [] || sign == [0x2B] || sign == [0x2D]
    requires unsigned != [] && !IsSpace(unsigned[0]) && unsigned[0] != 0x2B && unsigned[0] != 0x2D
    ensures var s := sign + unsigned;
            && s != [] && !IsSpace(s[0]) && (s[0] == 0x2D <==> sign == [0x2D])
            && (if s[0] == 0x2D || s[0] == 0x2B then s[1..] else s) == unsigned
  {
    if sign == [] {
      assert sign + unsigned == unsigned;
    } else {
      assert (sign + unsigned)[1..] == unsigned;
    }
  }

  lemma StrtoulIs(text: Bytes, sign: Bytes, unsigned: Bytes, number: Bytes, base: nat)
    requires var s := SkipSpace(text);
             && s != [] && (s[0] == 0x2D <==> sign == [0x2D])
             && (if s[0] == 0x2D || s[0] == 0x2B then s[1..] else s) == unsigned
    requires var prefixed := base == 16 && |unsigned| >= 3 && unsigned[0] == 0x30
                             && (unsigned[1] == 0x78 || unsigned[1] == 0x58) && IsDigit(unsigned[2], 16);
             (if prefixed then unsigned[2..] else unsigned) == number
    ensures var n := Number(number, base, 0);
            Strtoul(text, base)
            == if n > 0xFFFF_FFFF_FFFF_FFFF then 0xFFFF_FFFF_FFFF_FFFF
               else if sign == [0x2D] && n > 0 then 0x1_0000_0000_0000_0000 - n
               else n
  {
  }

  lemma PrefixIsTaken(prefix: Bytes, digits: Bytes, rest: Bytes, base: nat)
    requires IsPrefix(prefix, base) && digits != [] && AllDigits(digits, base)
    requires base == 16 && prefix == [] && digits == [0x30] ==> rest == [] || (rest[0] != 0x78 && rest[0] != 0x58)
    ensures var unsigned := prefix + (digits + rest);
            var prefixed := base == 16 && |unsigned| >= 3 && unsigned[0] == 0x30
                            && (unsigned[1] == 0x78 || unsigned[1] == 0x58) && IsDigit(unsigned[2], 16);
            (if prefixed then unsigned[2..] else unsigned) == digits + rest
  {
    var number := digits + rest;
    assert number[0] == digits[0] && digits[0] in digits;
    if prefix == [] {
      assert prefix + number == number;
      if |digits| >= 2 {
        assert number[1] == digits[1] && digits[1] in digits;
        DigitIsPlain(digits[1], base);
      } else if rest != [] {
        assert number[1] == rest[0];
      }
    } else {
      assert (prefix + number)[2..] == number && (prefix + number)[2] == number[0];
      assert (prefix + number)[1] == prefix[1] && (prefix + number)[0] == prefix[0];
    }
  }
}
