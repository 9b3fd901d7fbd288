/**
 Reading an HTTP response, on the whole stream of bytes at once: what each line, header and body is,
 whatever fragments the bytes arrive in. `HttpReader` reads the same from a connection, piece by piece.
 */
module Http {
  import opened ByteStrings
  import opened Numerals

  datatype Error =
    | EndedInHeader
    | BodyTruncated
    | ConnectionLost
    | ImplausiblyLarge
    | NotHttp

  datatype Result<+T> = Ok(value: T) | Err(error: Error)

  const CR: byte := 0x0D
  const LF: byte := 0x0A
  const CRLF: Bytes := [CR, LF]
  const SEMICOLON: byte := 0x3B
  const COLON: byte := 0x3A

  // ----- text -----

  predicate IsBlank(b: byte) {
    b == 0x20 || b == 0x09
  }

  function TrimLeft(s: Bytes): (r: Bytes)
    ensures |r| <= |s|
  {
    if s != [] && IsBlank(s[0]) then TrimLeft(s[1..]) else s
  }

  function TrimRight(s: Bytes): (r: Bytes)
    ensures |r| <= |s|
  {
    if s != [] && IsBlank(s[|s| - 1]) then TrimRight(s[..|s| - 1]) else s
  }

  function Trim(s: Bytes): Bytes {
    TrimRight(TrimLeft(s))
  }

  function LowerByte(b: byte): byte {
    if 0x41 <= b <= 0x5A then b + 0x20 else b
  }

  function Lowercased(s: Bytes): (r: Bytes)
    ensures |r| == |s|
  {
    seq(|s|, i requires 0 <= i < |s| => LowerByte(s[i]))
  }

  method Lowercase(value: Bytes) returns (r: Bytes)
    ensures r == Lowercased(value)
  {
    r := value;
    for i := 0 to |r|
      invariant |r| == |value| && r == Lowercased(value)[..i] + value[i..]
    {
      if 0x41 <= r[i] <= 0x5A {
        r := r[i := r[i] - 0x41 + 0x61];
      }
    }
  }

  /** What comes before the first `b`, if there is one. */
  function UpTo(s: Bytes, b: byte): Bytes {
    match IndexOf(s, [b])
    case None => s
    case Some(n) => s[..n]
  }

  // ----- numbers -----

  const ULONG_MAX: nat := 0xFFFF_FFFF_FFFF_FFFF

  /** `strtoul` with a 64-bit `unsigned long`: space, sign and 0x prefix, and too large a number is clamped. */
  function Strtoul(text: Bytes, base: nat): (r: nat)
    ensures r <= ULONG_MAX
  {
    var s := SkipSpace(text);
    var negative := s != [] && s[0] == 0x2D;
    var unsigned := if s != [] && (s[0] == 0x2D || s[0] == 0x2B) then s[1..] else s;
    var prefixed := base == 16 && |unsigned| >= 3 && unsigned[0] == 0x30
                    && (unsigned[1] == 0x78 || unsigned[1] == 0x58) && IsDigit(unsigned[2], 16);
    var n := Number(if prefixed then unsigned[2..] else unsigned, base, 0);
    if n > ULONG_MAX then ULONG_MAX
    else if negative && n > 0 then ULONG_MAX + 1 - n
    else n
  }

  // ----- the stream -----

  /** What a peer has still to send, and whether the connection then fails instead of closing. */
  datatype Input = Input(rest: Bytes, lost: bool)

  function AtEnd(input: Input, otherwise: Error): Error {
    if input.lost then ConnectionLost else otherwise
  }

  /** The bytes before the next CRLF; the rest begins after it. */
  function ReadLine(input: Input): (r: (Result<Bytes>, Input))
    ensures r.0.Ok? ==> |r.1.rest| < |input.rest|
  {
    match IndexOf(input.rest, CRLF)
    case None => (Err(AtEnd(input, EndedInHeader)), input)
    case Some(n) => (Ok(input.rest[..n]), input.(rest := input.rest[n + 2..]))
  }

  function ReadExact(input: Input, count: nat): (r: (Result<Bytes>, Input))
    ensures |r.1.rest| <= |input.rest|
  {
    if count <= |input.rest| then (Ok(input.rest[..count]), input.(rest := input.rest[count..]))
    else (Err(AtEnd(input, BodyTruncated)), input)
  }

  function ReadToEnd(input: Input): Result<Bytes> {
    if input.lost then Err(ConnectionLost) else Ok(input.rest)
  }

  // ----- the body -----

  function ChunkSize(line: Bytes): nat {
    Strtoul(Trim(UpTo(line, SEMICOLON)), 16)
  }

  /** One chunk: its size line, its data and the line that ends it; none for a size of zero. */
  function ReadChunk(sizeOf: Bytes -> nat, input: Input): (r: (Result<Option<Bytes>>, Input))
    ensures r.0.Ok? ==> |r.1.rest| < |input.rest|
  {
    var (line, afterLine) := ReadLine(input);
    if line.Err? then (Err(line.error), input)
    else if sizeOf(line.value) == 0 then (Ok(None), afterLine)
    else
      var (data, afterData) := ReadExact(afterLine, sizeOf(line.value));
      if data.Err? then (Err(data.error), input)
      else
        var (ending, afterEnding) := ReadLine(afterData);
        if ending.Err? then (Err(ending.error), input) else (Ok(Some(data.value)), afterEnding)
  }

  function Prepend(data: Bytes, body: (Result<Bytes>, Input)): (Result<Bytes>, Input) {
    (if body.0.Ok? then Ok(data + body.0.value) else body.0, body.1)
  }

  /** The chunked coding: chunks up to one of size zero; what follows that is of no interest. */
  function ReadChunks(sizeOf: Bytes -> nat, input: Input): (Result<Bytes>, Input)
    decreases |input.rest|
  {
    var (chunk, after) := ReadChunk(sizeOf, input);
    if chunk.Err? then (Err(chunk.error), after)
    else if chunk.value.None? then (Ok([]), after)
    else Prepend(chunk.value.value, ReadChunks(sizeOf, after))
  }

  /** How a body is delimited. Chunked coding goes before a length, and a length before the closing. */
  datatype Mode = Mode(chunked: bool, length: Option<nat>)

  function ReadBody(input: Input, mode: Mode): Result<Bytes> {
    if mode.chunked then ReadChunks(ChunkSize, input).0
    else if mode.length.Some? then ReadExact(input, mode.length.value).0
    else ReadToEnd(input)
  }

  // ----- the head -----

  const TRANSFER_ENCODING: Bytes := Ascii("transfer-encoding")
  const CONTENT_LENGTH: Bytes := Ascii("content-length")
  const CHUNKED: Bytes := Ascii("chunked")

  /** What one header line does to the mode: a later line of the same name overrides an earlier one. */
  function Consider(mode: Mode, line: Bytes): Mode {
    match IndexOf(line, [COLON])
    case None => mode
    case Some(colon) =>
      var name, value := Lowercased(Trim(line[..colon])), Trim(line[colon + 1..]);
      if name == TRANSFER_ENCODING then mode.(chunked := IndexOf(Lowercased(value), CHUNKED).Some?)
      else if name == CONTENT_LENGTH then mode.(length := Some(Strtoul(value, 10)))
      else mode
  }

  function ReadHeaders(input: Input, mode: Mode): (Result<Mode>, Input)
    decreases |input.rest|
  {
    var (line, after) := ReadLine(input);
    if line.Err? then (Err(line.error), after)
    else if line.value == [] then (Ok(mode), after)
    else ReadHeaders(after, Consider(mode, line.value))
  }

  function ReadResponse(input: Input): Result<Bytes> {
    var (status, afterStatus) := ReadLine(input);
    if status.Err? then Err(status.error)
    else if !(Ascii("HTTP/") <= status.value) then Err(NotHttp)
    else
      var (mode, afterHeaders) := ReadHeaders(afterStatus, Mode(false, None));
      if mode.Err? then Err(mode.error) else ReadBody(afterHeaders, mode.value)
  }
}
