/**
 What the HTTP reader gets out of well-formed responses: the chunked coding of section 7.1 of RFC 9112 is
 undone, and the body's length is chosen as section 6.3 of RFC 9112 says.
 */
module HttpTheory {
  import opened ByteStrings
  import opened Http
  import opened Numerals

  // ----- lines -----

  /** No CRLF in it. */
  predicate IsLine(line: Bytes) {
    forall i :: 0 <= i < |line| - 1 ==> !(line[i] == CR && line[i + 1] == LF)
  }

  lemma {:induction false} LineEnds(line: Bytes, rest: Bytes)
    requires IsLine(line)
    ensures IndexOf(line + (CRLF + rest), CRLF) == Some(|line|)
  {
    var s := line + (CRLF + rest);
    if line == [] {
      assert s == CRLF + rest;
    } else {
      assert s[1..] == line[1..] + (CRLF + rest);
      NotHere(line, rest);
      LineEnds(line[1..], rest);
    }
  }

  lemma NotHere(line: Bytes, rest: Bytes)
    requires line != [] && IsLine(line)
    ensures !(CRLF <= line + (CRLF + rest))
  {
    var s := line + (CRLF + rest);
    assert s[0] == line[0];
    assert s[1] == if |line| > 1 then line[1] else CR;
  }

  lemma LineIsRead(line: Bytes, rest: Bytes, lost: bool)
    requires IsLine(line)
    ensures ReadLine(Input(line + (CRLF + rest), lost)) == (Ok(line), Input(rest, lost))
  {
    LineEnds(line, rest);
    var s := line + (CRLF + rest);
    assert s[..|line|] == line && s[|line| + 2..] == rest;
  }

  // ----- sizes -----

  /** `strtoul` reads a string of digits as its value, up to the largest it can return. */
  lemma StrtoulOfDigits(s: Bytes, base: nat)
    requires s != [] && AllDigits(s, base)
    ensures Strtoul(s, base) == if Value(s, base) > ULONG_MAX then ULONG_MAX else Value(s, base)
  {
    DigitIsPlain(s[0], base);
    if |s| >= 2 { DigitIsPlain(s[1], base); }
    PlainNumeral(s, base);
    NumberOfDigits([], s, base);
    assert [] + s == s;
  }

  lemma DigitIsPlain(b: byte, base: nat)
    requires IsDigit(b, base)
    ensures !IsSpace(b) && b != 0x2D && b != 0x2B && b != 0x78 && b != 0x58
  {
  }

  lemma PlainNumeral(s: Bytes, base: nat)
    requires s != [] && !IsSpace(s[0]) && s[0] != 0x2D && s[0] != 0x2B
    requires |s| >= 2 ==> s[1] != 0x78 && s[1] != 0x58
    ensures Strtoul(s, base) == if Number(s, base, 0) > ULONG_MAX then ULONG_MAX else Number(s, base, 0)
  {
  }

  predicate AllBlank(s: Bytes) {
    forall b :: b in s ==> IsBlank(b)
  }

  lemma {:induction false} TrimRightBlanks(s: Bytes, blanks: Bytes)
    requires AllBlank(blanks) && s != [] && !IsBlank(s[|s| - 1])
    ensures TrimRight(s + blanks) == s
    decreases |blanks|
  {
    if blanks == [] {
      assert s + blanks == s;
    } else {
      var t := s + blanks;
      assert t[|t| - 1] == blanks[|blanks| - 1] && blanks[|blanks| - 1] in blanks;
      assert t[..|t| - 1] == s + blanks[..|blanks| - 1];
      TrimRightBlanks(s, blanks[..|blanks| - 1]);
    }
  }

  /** A chunk as it is sent. Its size is any hex numeral; blanks and extensions may follow it. */
  datatype Chunk = Chunk(size: Bytes, blanks: Bytes, extension: Bytes, data: Bytes)

  predicate IsExtension(e: Bytes) {
    e == [] || e[0] == SEMICOLON
  }

  predicate WellSized(c: Chunk) {
    && c.size != [] && AllDigits(c.size, 16) && AllBlank(c.blanks) && IsExtension(c.extension) && IsLine(SizeLine(c))
    && |c.data| == Value(c.size, 16) <= ULONG_MAX
  }

  function SizeLine(c: Chunk): Bytes {
    c.size + c.blanks + c.extension
  }

  function SendChunk(c: Chunk): Bytes {
    SizeLine(c) + (CRLF + (c.data + CRLF))
  }

  lemma SizeIsRead(c: Chunk)
    requires WellSized(c)
    ensures ChunkSize(SizeLine(c)) == |c.data|
  {
    var s := c.size + c.blanks;
    assert SEMICOLON !in s;
    IndexOfByte(s, c.extension, SEMICOLON);
    assert (s + c.extension)[..|s|] == s;
    assert s + [] == s;
    assert c.size[0] in c.size && c.size[|c.size| - 1] in c.size;
    assert TrimLeft(s) == s;
    TrimRightBlanks(c.size, c.blanks);
    StrtoulOfDigits(c.size, 16);
  }

  // ----- chunks -----

  lemma ChunkIsRead(sizeOf: Bytes -> nat, line: Bytes, data: Bytes, rest: Bytes, lost: bool)
    requires IsLine(line) && sizeOf(line) == |data| > 0
    ensures ReadChunk(sizeOf, Input(line + (CRLF + (data + (CRLF + rest))), lost)) == (Ok(Some(data)), Input(rest, lost))
  {
    var afterData := CRLF + rest;
    var afterLine := data + afterData;
    LineIsRead(line, afterLine, lost);
    assert afterLine[..|data|] == data && afterLine[|data|..] == afterData;
    LineIsRead([], rest, lost);
    assert [] + afterData == afterData;
  }

  lemma ChunkThenRest(sizeOf: Bytes -> nat, line: Bytes, data: Bytes, rest: Bytes, lost: bool)
    requires IsLine(line) && sizeOf(line) == |data| > 0
    ensures ReadChunks(sizeOf, Input(line + (CRLF + (data + (CRLF + rest))), lost))
         == Prepend(data, ReadChunks(sizeOf, Input(rest, lost)))
  {
    ChunkIsRead(sizeOf, line, data, rest, lost);
  }

  lemma LastChunkIsRead(sizeOf: Bytes -> nat, line: Bytes, rest: Bytes, lost: bool)
    requires IsLine(line) && sizeOf(line) == 0
    ensures ReadChunk(sizeOf, Input(line + (CRLF + rest), lost)) == (Ok(None), Input(rest, lost))
  {
    LineIsRead(line, rest, lost);
  }

  function SendChunks(chunks: seq<Chunk>, last: Chunk): Bytes {
    if chunks == [] then SizeLine(last) + CRLF else SendChunk(chunks[0]) + SendChunks(chunks[1..], last)
  }

  function Joined(chunks: seq<Chunk>): Bytes {
    if chunks == [] then [] else chunks[0].data + Joined(chunks[1..])
  }

  predicate AreChunks(chunks: seq<Chunk>, last: Chunk) {
    (forall c :: c in chunks ==> WellSized(c) && c.data != []) && WellSized(last) && last.data == []
  }

  lemma SendChunkBefore(c: Chunk, rest: Bytes)
    ensures SendChunk(c) + rest == SizeLine(c) + (CRLF + (c.data + (CRLF + rest)))
  {
  }

  lemma SendChunksSplit(chunks: seq<Chunk>, last: Chunk, rest: Bytes)
    ensures SendChunks(chunks, last) + rest
         == if chunks == [] then SizeLine(last) + (CRLF + rest)
            else
              var more := SendChunks(chunks[1..], last) + rest;
              SizeLine(chunks[0]) + (CRLF + (chunks[0].data + (CRLF + more)))
  {
    if chunks != [] {
      SendChunkBefore(chunks[0], SendChunks(chunks[1..], last) + rest);
      assert SendChunk(chunks[0]) + SendChunks(chunks[1..], last) + rest
          == SendChunk(chunks[0]) + (SendChunks(chunks[1..], last) + rest);
    }
  }

  /** Every cutting of a body into chunks, with any extensions, is undone; trailers are left unread. */
  lemma {:induction false} ChunksAreJoined(chunks: seq<Chunk>, last: Chunk, rest: Bytes, lost: bool)
    requires AreChunks(chunks, last)
    ensures ReadChunks(ChunkSize, Input(SendChunks(chunks, last) + rest, lost)) == (Ok(Joined(chunks)), Input(rest, lost))
  {
    SendChunksSplit(chunks, last, rest);
    if chunks == [] {
      SizeIsRead(last);
      LastChunkIsRead(ChunkSize, SizeLine(last), rest, lost);
    } else {
      var c, more := chunks[0], SendChunks(chunks[1..], last) + rest;
      assert c in chunks;
      SizeIsRead(c);
      ChunkThenRest(ChunkSize, SizeLine(c), c.data, more, lost);
      ChunksAreJoined(chunks[1..], last, rest, lost);
    }
  }

  // ----- truncation -----

  lemma {:induction false} IndexExtends(s: Bytes, more: Bytes, needle: Bytes)
    requires IndexOf(s, needle).Some? && needle != []
    ensures IndexOf(s + more, needle) == IndexOf(s, needle)
  {
    assert needle <= s ==> needle <= s + more;
    if !(needle <= s) {
      assert (s + more)[1..] == s[1..] + more;
      IndexExtends(s[1..], more, needle);
      NotYet(s, more, needle);
    }
  }

  lemma NotYet(s: Bytes, more: Bytes, needle: Bytes)
    requires |needle| <= |s| && !(needle <= s)
    ensures !(needle <= s + more)
  {
    assert (s + more)[..|needle|] == s[..|needle|];
  }

  /** What is read of a stream is read of every longer one, and no more is taken. */
  lemma LineExtends(s: Bytes, more: Bytes, lost: bool)
    requires IndexOf(s, CRLF).Some?
    ensures var n := IndexOf(s, CRLF).value;
            ReadLine(Input(s + more, lost)) == (Ok(s[..n]), Input(s[n + 2..] + more, lost))
  {
    IndexExtends(s, more, CRLF);
    CutExtends(s, more, IndexOf(s, CRLF).value, 2);
  }

  lemma CutExtends(s: Bytes, more: Bytes, n: nat, m: nat)
    requires n + m <= |s|
    ensures (s + more)[..n] == s[..n] && (s + more)[n + m..] == s[n + m..] + more
  {
  }

  lemma ExactExtends(s: Bytes, more: Bytes, count: nat, lost: bool)
    requires count <= |s|
    ensures ReadExact(Input(s + more, lost), count) == (Ok(s[..count]), Input(s[count..] + more, lost))
  {
    CutExtends(s, more, count, 0);
  }

  lemma ChunkExtends(sizeOf: Bytes -> nat, s: Bytes, more: Bytes, lost: bool)
    ensures var (chunk, after) := ReadChunk(sizeOf, Input(s, lost));
            chunk.Ok? ==> ReadChunk(sizeOf, Input(s + more, lost)) == (chunk, Input(after.rest + more, lost))
  {
    var (line, afterLine) := ReadLine(Input(s, lost));
    if line.Ok? {
      LineExtends(s, more, lost);
      assert ReadLine(Input(s + more, lost)) == (line, Input(afterLine.rest + more, lost));
      var size := sizeOf(line.value);
      var (data, afterData) := ReadExact(afterLine, size);
      if size != 0 && data.Ok? {
        ExactExtends(afterLine.rest, more, size, lost);
        if ReadLine(afterData).0.Ok? { LineExtends(afterData.rest, more, lost); }
      }
    }
  }

  lemma {:induction false} ChunksExtend(sizeOf: Bytes -> nat, s: Bytes, more: Bytes, lost: bool)
    ensures var (body, after) := ReadChunks(sizeOf, Input(s, lost));
            body.Ok? ==> ReadChunks(sizeOf, Input(s + more, lost)) == (body, Input(after.rest + more, lost))
    decreases |s|
  {
    var (chunk, after) := ReadChunk(sizeOf, Input(s, lost));
    ChunkExtends(sizeOf, s, more, lost);
    assert chunk.Ok? ==> ReadChunk(sizeOf, Input(s + more, lost)) == (chunk, Input(after.rest + more, lost));
    if chunk.Ok? && chunk.value.Some? {
      ChunksExtend(sizeOf, after.rest, more, lost);
    }
  }

  /** A chunked body that breaks off anywhere before its last chunk is complete is never taken for a whole one. */
  lemma TruncatedChunksAreRefused(chunks: seq<Chunk>, last: Chunk, n: nat, lost: bool)
    requires AreChunks(chunks, last) && n < |SendChunks(chunks, last)|
    ensures ReadChunks(ChunkSize, Input(SendChunks(chunks, last)[..n], lost)).0.Err?
  {
    var all := SendChunks(chunks, last);
    ChunksExtend(ChunkSize, all[..n], all[n..], lost);
    ChunksAreJoined(chunks, last, [], lost);
    assert all[..n] + all[n..] == all && all + [] == all;
  }

  // ----- heads -----

  function SendLines(lines: seq<Bytes>): Bytes {
    if lines == [] then CRLF else lines[0] + (CRLF + SendLines(lines[1..]))
  }

  /** The value of the last line with this field name, however it is spelled. */
  function LastField(lines: seq<Bytes>, name: Bytes): Option<Bytes> {
    if lines == [] then None
    else
      var line := lines[|lines| - 1];
      match IndexOf(line, [COLON])
      case Some(colon) =>
        if Lowercased(Trim(line[..colon])) == name then Some(Trim(line[colon + 1..]))
        else LastField(lines[..|lines| - 1], name)
      case None => LastField(lines[..|lines| - 1], name)
  }

  /** The mode the header lines call for. */
  function Declared(lines: seq<Bytes>): Mode {
    var coding := LastField(lines, TRANSFER_ENCODING);
    var length := LastField(lines, CONTENT_LENGTH);
    Mode(coding.Some? && IndexOf(Lowercased(coding.value), CHUNKED).Some?,
         if length.Some? then Some(Strtoul(length.value, 10)) else None)
  }

  predicate AreHeaders(lines: seq<Bytes>) {
    forall line :: line in lines ==> line != [] && IsLine(line)
  }

  lemma ConsiderDeclared(lines: seq<Bytes>, line: Bytes)
    ensures Consider(Declared(lines), line) == Declared(lines + [line])
  {
    var all := lines + [line];
    assert all[|all| - 1] == line && all[..|all| - 1] == lines;
    assert TRANSFER_ENCODING[0] != CONTENT_LENGTH[0];
  }

  lemma HeaderIsRead(line: Bytes, more: Bytes, lost: bool, mode: Mode)
    requires line != [] && IsLine(line)
    ensures ReadHeaders(Input(line + (CRLF + more), lost), mode) == ReadHeaders(Input(more, lost), Consider(mode, line))
  {
    LineIsRead(line, more, lost);
  }

  function ConsiderAll(mode: Mode, lines: seq<Bytes>): Mode
    decreases |lines|
  {
    if lines == [] then mode else ConsiderAll(Consider(mode, lines[0]), lines[1..])
  }

  lemma {:induction false} ConsiderAllDeclared(before: seq<Bytes>, lines: seq<Bytes>)
    ensures ConsiderAll(Declared(before), lines) == Declared(before + lines)
    decreases |lines|
  {
    if lines == [] {
      assert before + lines == before;
    } else {
      ConsiderDeclared(before, lines[0]);
      ConsiderAllDeclared(before + [lines[0]], lines[1..]);
      assert before + [lines[0]] + lines[1..] == before + lines;
    }
  }

  lemma {:induction false} HeadersAreRead(mode: Mode, lines: seq<Bytes>, rest: Bytes, lost: bool)
    requires AreHeaders(lines)
    ensures ReadHeaders(Input(SendLines(lines) + rest, lost), mode) == (Ok(ConsiderAll(mode, lines)), Input(rest, lost))
    decreases |lines|
  {
    if lines == [] {
      LineIsRead([], rest, lost);
      assert [] + (CRLF + rest) == SendLines(lines) + rest;
    } else {
      var more := SendLines(lines[1..]) + rest;
      assert SendLines(lines) + rest == lines[0] + (CRLF + more);
      assert lines[0] in lines;
      HeaderIsRead(lines[0], more, lost, mode);
      HeadersAreRead(Consider(mode, lines[0]), lines[1..], rest, lost);
    }
  }

  // ----- responses -----

  function SendResponse(status: Bytes, lines: seq<Bytes>, body: Bytes): Bytes {
    status + (CRLF + (SendLines(lines) + body))
  }

  /** The body is read in the mode that the last transfer coding and the last length call for. */
  lemma ResponseIsRead(status: Bytes, lines: seq<Bytes>, body: Bytes, lost: bool)
    requires IsLine(status) && AreHeaders(lines)
    ensures ReadResponse(Input(SendResponse(status, lines, body), lost))
         == if Ascii("HTTP/") <= status then ReadBody(Input(body, lost), Declared(lines)) else Err(NotHttp)
  {
    LineIsRead(status, SendLines(lines) + body, lost);
    HeadersAreRead(Mode(false, None), lines, body, lost);
    ConsiderAllDeclared([], lines);
    assert [] + lines == lines;
  }

  /** A chunked response is its joined chunks, whatever lengths its header declares as well. */
  lemma ChunkedResponse(status: Bytes, lines: seq<Bytes>, chunks: seq<Chunk>, last: Chunk, trailers: Bytes, lost: bool)
    requires IsLine(status) && Ascii("HTTP/") <= status && AreHeaders(lines) && Declared(lines).chunked
    requires AreChunks(chunks, last)
    ensures ReadResponse(Input(SendResponse(status, lines, SendChunks(chunks, last) + trailers), lost)) == Ok(Joined(chunks))
  {
    ResponseIsRead(status, lines, SendChunks(chunks, last) + trailers, lost);
    ChunksAreJoined(chunks, last, trailers, lost);
  }

  /** Without a chunked coding a declared length counts, and a body that falls short of it is refused. */
  lemma LengthResponse(status: Bytes, lines: seq<Bytes>, numeral: Bytes, body: Bytes, lost: bool)
    requires IsLine(status) && Ascii("HTTP/") <= status && AreHeaders(lines) && !Declared(lines).chunked
    requires LastField(lines, CONTENT_LENGTH) == Some(numeral)
    requires numeral != [] && AllDigits(numeral, 10) && Value(numeral, 10) <= ULONG_MAX
    ensures ReadResponse(Input(SendResponse(status, lines, body), lost))
         == if Value(numeral, 10) <= |body| then Ok(body[..Value(numeral, 10)]) else Err(AtEnd(Input(body, lost), BodyTruncated))
  {
    ResponseIsRead(status, lines, body, lost);
    StrtoulOfDigits(numeral, 10);
  }
}
