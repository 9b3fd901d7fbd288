/**
 The buffered reader of HTTP responses, over a peer that sends its bytes in fragments of its own
 choosing and may never stop. Its outcomes are those of `Http` on any part of the stream, from its start
 and within the limit, that settles them; and it always terminates with a bounded buffer.
 */
module HttpReader {
  import opened ByteStrings
  import opened Http
  import opened HttpTheory
  import opened Numerals
  import HttpHeads

  const CHUNK_SIZE: nat := 4096
  const MAX_RESPONSE: nat := 8388608

  type Fragment = d: Bytes | 0 < |d| <= CHUNK_SIZE witness [0]

  /** What one read of the connection brings. */
  datatype Arrival = Data(data: Fragment) | Closed | Broken

  /** What came of asking for more: data, the end of the stream, or a failure. */
  datatype Filling = More | Ended | Failed(error: Error)

  /** What has come by read number `n`. */
  function Received(arrivals: nat -> Arrival, n: nat): Bytes {
    if n == 0 then []
    else Received(arrivals, n - 1) + if arrivals(n - 1).Data? then arrivals(n - 1).data else []
  }

  lemma {:induction false} ReceivedGrows(arrivals: nat -> Arrival, n: nat, m: nat)
    requires n <= m
    ensures |Received(arrivals, n)| <= |Received(arrivals, m)|
    ensures Received(arrivals, m)[..|Received(arrivals, n)|] == Received(arrivals, n)
    decreases m
  {
    if n < m { ReceivedGrows(arrivals, n, m - 1); }
  }

  /** The peer sends data up to read `end`, no more than the limit; what it does then is left open. */
  ghost predicate SendsUpTo(arrivals: nat -> Arrival, end: nat) {
    (forall i: nat :: i < end ==> arrivals(i).Data?) && |Received(arrivals, end)| <= MAX_RESPONSE
  }

  /** The stream up to read `end`. Unless the peer closes there, what is read must not depend on its end. */
  ghost function StreamUpTo(arrivals: nat -> Arrival, end: nat): Input {
    Input(Received(arrivals, end), !arrivals(end).Closed?)
  }

  class Connection {
    const arrivals: nat -> Arrival
    var clock: nat

    constructor (arrivals: nat -> Arrival)
      ensures this.arrivals == arrivals && clock == 0
    {
      this.arrivals, clock := arrivals, 0;
    }

    method ReadSome() returns (arrival: Arrival)
      modifies this
      ensures arrival == arrivals(old(clock)) && clock == old(clock) + 1
    {
      arrival := arrivals(clock);
      clock := clock + 1;
    }
  }

  class ResponseReader {
    const tls: Connection
    var buffer: Bytes
    var position: nat
    /** Any number of reads within the limit: contents are promised as far as these settle them. */
    ghost const end: nat

    /** The buffer is bounded, and the position within it. */
    ghost predicate Bounded()
      reads this
    {
      position <= |buffer| <= MAX_RESPONSE + CHUNK_SIZE
    }

    /** The buffer is all that has come, and the connection is still good. */
    ghost predicate Valid()
      reads this, tls
    {
      Bounded() && buffer == Received(tls.arrivals, tls.clock) && SendsUpTo(tls.arrivals, end)
    }

    /** No more has been read than up to `end`. */
    ghost predicate Within()
      reads this, tls
    {
      Valid() && tls.clock <= end
    }

    /** The stream is over at `end`, one way or the other. */
    ghost predicate IsOver() {
      !tls.arrivals(end).Data?
    }

    ghost function Unread(): Bytes
      requires Bounded()
      reads this
    {
      buffer[position..]
    }

    /** All that is not consumed yet of the stream up to `end`, whether it has come or not. */
    ghost function Remaining(): Input
      requires Within()
      reads this, tls
    {
      ReceivedGrows(tls.arrivals, tls.clock, end);
      var stream := StreamUpTo(tls.arrivals, end);
      stream.(rest := stream.rest[position..])
    }

    constructor (tls: Connection, ghost end: nat)
      requires tls.clock == 0 && SendsUpTo(tls.arrivals, end)
      ensures Within() && this.tls == tls && this.end == end && position == 0 && buffer == []
      ensures Remaining() == StreamUpTo(tls.arrivals, end)
    {
      this.tls, this.end, buffer, position := tls, end, [], 0;
      new;
    }

    /** Takes in one more fragment, unless there is too much already or nothing more comes. */
    method Fill() returns (filling: Filling)
      requires Valid()
      modifies this`buffer, tls
      ensures Bounded() && old(buffer) <= buffer
      ensures filling.More? ==> Valid() && |buffer| > |old(buffer)|
      ensures filling.More? && old(Within()) && (IsOver() || |old(Unread())| < |old(Remaining()).rest|) ==>
                Within() && Remaining() == old(Remaining())
      ensures !filling.More? ==> buffer == old(buffer)
      ensures filling == Failed(ImplausiblyLarge) <==> |old(buffer)| > MAX_RESPONSE
      ensures !filling.More? && old(Within()) ==>
                && IsOver() && Unread() == old(Remaining()).rest
                && filling == if old(Remaining()).lost then Failed(ConnectionLost) else Ended
    {
      ghost var was := tls.clock;
      if Within() {
        ReceivedGrows(tls.arrivals, tls.clock, end);
      }
      if |buffer| > MAX_RESPONSE {
        return Failed(ImplausiblyLarge);
      }
      var arrival := tls.ReadSome();
      match arrival {
        case Data(data) =>
          buffer := buffer + data;
          filling := More;
          assert tls.arrivals(was).Data?;
        case Closed => filling := Ended;
        case Broken => filling := Failed(ConnectionLost);
      }
    }

    /** What is unread is the front of what remains. */
    lemma UnreadComesFirst() returns (more: Bytes)
      requires Within()
      ensures Remaining().rest == Unread() + more
    {
      ReceivedGrows(tls.arrivals, tls.clock, end);
      var all := Received(tls.arrivals, end);
      more := all[|buffer|..];
      assert all == buffer + more;
    }

    /** Moving on by `count` bytes drops them from what remains. */
    method Consume(count: nat) returns (out: Bytes)
      requires Valid() && position + count <= |buffer|
      modifies this`position
      ensures Valid() && position == old(position) + count
      ensures out == old(Unread())[..count] && Unread() == old(Unread())[count..]
      ensures old(Within()) ==>
                && Within() && count <= |old(Remaining()).rest| && out == old(Remaining()).rest[..count]
                && Remaining() == old(Remaining()).(rest := old(Remaining()).rest[count..])
    {
      if Within() {
        ghost var more := UnreadComesFirst();
        assert (Unread() + more)[..count] == Unread()[..count];
        ghost var all := Received(tls.arrivals, end);
        ReceivedGrows(tls.arrivals, tls.clock, end);
        assert all[position..][count..] == all[position + count..];
      }
      out := buffer[position..position + count];
      position := position + count;
    }

    /** A line that has come is the next one of what remains; if all has come, and no line, there is none. */
    lemma LineSettles()
      requires Within()
      ensures Unread() <= Remaining().rest
      ensures var found, all := IndexOf(Unread(), CRLF), Http.ReadLine(Remaining());
              && (found.Some? ==> found.value + 2 <= |Remaining().rest|)
              && (found.Some? ==> all == (Ok(Unread()[..found.value]),
                                          Remaining().(rest := Remaining().rest[found.value + 2..])))
              && (found.None? && Unread() == Remaining().rest ==>
                    all.0 == Err(if Remaining().lost then ConnectionLost else EndedInHeader))
    {
      var more := UnreadComesFirst();
      if IndexOf(Unread(), CRLF).Some? {
        LineExtends(Unread(), more, Remaining().lost);
        CutExtends(Unread(), more, IndexOf(Unread(), CRLF).value, 2);
      }
    }

    /**
     The next line, however its bytes arrive. A line that is found really is the next one; and a stream
     that holds one, or is over, gives what it would give all at once.
     */
    method ReadLine() returns (line: Result<Bytes>)
      requires Valid()
      modifies this`buffer, this`position, tls
      ensures Bounded() && old(buffer) <= buffer
      ensures line.Ok? ==>
                && Valid() && position == old(position) + |line.value| + 2
                && IndexOf(buffer[old(position)..], CRLF) == Some(|line.value|)
                && line.value == buffer[old(position)..][..|line.value|]
      ensures line.Err? ==> position == old(position)
      ensures old(Within()) && (IsOver() || Http.ReadLine(old(Remaining())).0.Ok?) ==>
                && line == Http.ReadLine(old(Remaining())).0
                && (line.Ok? ==> Within() && Remaining() == Http.ReadLine(old(Remaining())).1)
    {
      ghost var settled := Within() && (IsOver() || Http.ReadLine(Remaining()).0.Ok?);
      while true
        invariant Valid() && position == old(position) && old(buffer) <= buffer
        invariant settled ==> Within() && Remaining() == old(Remaining())
        decreases MAX_RESPONSE + CHUNK_SIZE - |buffer|
      {
        var found := IndexOf(buffer[position..], CRLF);
        if settled { LineSettles(); }
        if found.Some? {
          var taken := Consume(found.value + 2);
          line := Ok(taken[..found.value]);
          return;
        }
        var filling := Fill();
        if !filling.More? {
          return Err(if filling.Ended? then EndedInHeader else filling.error);
        }
      }
    }

    /** The next `count` bytes, however they arrive. */
    method ReadExact(count: nat) returns (out: Result<Bytes>)
      requires Valid()
      modifies this`buffer, this`position, tls
      ensures Bounded() && old(buffer) <= buffer
      ensures out.Ok? ==> Valid() && position == old(position) + count && out.value == buffer[old(position)..position]
      ensures out.Err? ==> position == old(position)
      ensures old(Within()) && (IsOver() || Http.ReadExact(old(Remaining()), count).0.Ok?) ==>
                && out == Http.ReadExact(old(Remaining()), count).0
                && (out.Ok? ==> Within() && Remaining() == Http.ReadExact(old(Remaining()), count).1)
    {
      ghost var settled := Within() && (IsOver() || Http.ReadExact(Remaining(), count).0.Ok?);
      while |buffer| - position < count
        invariant Valid() && position == old(position) && old(buffer) <= buffer
        invariant settled ==> Within() && Remaining() == old(Remaining())
        decreases MAX_RESPONSE + CHUNK_SIZE - |buffer|
      {
        var filling := Fill();
        if !filling.More? {
          return Err(if filling.Ended? then BodyTruncated else filling.error);
        }
      }
      var taken := Consume(count);
      out := Ok(taken);
    }

    /** For a response that the closing of the connection delimits. */
    method ReadToEnd() returns (out: Result<Bytes>)
      requires Valid()
      modifies this`buffer, this`position, tls
      ensures Bounded() && old(buffer) <= buffer
      ensures out.Ok? ==> position == |buffer| && out.value == buffer[old(position)..]
      ensures old(Within()) && (IsOver() || Http.ReadToEnd(old(Remaining())).Ok?) ==>
                out == Http.ReadToEnd(old(Remaining()))
    {
      ghost var settled := Within() && IsOver();
      var filling := More;
      while filling.More?
        invariant Bounded() && position == old(position) && old(buffer) <= buffer
        invariant filling.More? ==> Valid() && (settled ==> Within() && Remaining() == old(Remaining()))
        invariant !filling.More? && settled ==>
                    && Unread() == old(Remaining()).rest
                    && filling == if old(Remaining()).lost then Failed(ConnectionLost) else Ended
        decreases filling.More?, MAX_RESPONSE + CHUNK_SIZE - |buffer|
      {
        filling := Fill();
      }
      if filling.Failed? {
        return Err(filling.error);
      }
      out := Ok(buffer[position..]);
      position := |buffer|;
    }

    method ReadChunk() returns (chunk: Result<Option<Bytes>>)
      requires Valid()
      modifies this`buffer, this`position, tls
      ensures Bounded() && old(buffer) <= buffer
      ensures chunk.Ok? ==> Valid() && position > old(position)
      ensures old(Within()) && (IsOver() || Http.ReadChunk(ChunkSize, old(Remaining())).0.Ok?) ==>
                && chunk == Http.ReadChunk(ChunkSize, old(Remaining())).0
                && (chunk.Ok? ==> Within() && Remaining() == Http.ReadChunk(ChunkSize, old(Remaining())).1)
    {
      var header := ReadLine();
      if header.Err? {
        return Err(header.error);
      }
      var size := ChunkSize(header.value);
      if size == 0 {
        return Ok(None);
      }
      var data := ReadExact(size);
      if data.Err? {
        return Err(data.error);
      }
      var crlf := ReadLine();
      chunk := if crlf.Ok? then Ok(Some(data.value)) else Err(crlf.error);
    }

    /** A chunked body: the result is that of the stream, wherever the fragments were cut. */
    method ReadChunks() returns (body: Result<Bytes>)
      requires Valid()
      modifies this`buffer, this`position, tls
      ensures Bounded() && old(buffer) <= buffer
      ensures old(Within()) && (IsOver() || Http.ReadChunks(ChunkSize, old(Remaining())).0.Ok?) ==>
                body == Http.ReadChunks(ChunkSize, old(Remaining())).0
    {
      var out := [];
      ghost var start := if Within() then Remaining() else Input([], false);
      ghost var whole := Http.ReadChunks(ChunkSize, start);
      ghost var settled := Within() && (IsOver() || whole.0.Ok?);
      ghost var now := start;
      PrependNothing(whole);
      while true
        invariant Valid() && old(buffer) <= buffer
        invariant settled ==> Within() && now == Remaining() && whole == Prepend(out, Http.ReadChunks(ChunkSize, now))
        decreases MAX_RESPONSE + CHUNK_SIZE - position
      {
        NextChunk(ChunkSize, out, now);
        var chunk := ReadChunk();
        if chunk.Err? {
          return Err(chunk.error);
        }
        if chunk.value.None? {
          return Ok(out);
        }
        now := Http.ReadChunk(ChunkSize, now).1;
        out := out + chunk.value.value;
      }
    }

    method ReadBody(mode: Mode) returns (body: Result<Bytes>)
      requires Valid()
      modifies this`buffer, this`position, tls
      ensures Bounded() && old(buffer) <= buffer
      ensures old(Within()) && (IsOver() || Http.ReadBody(old(Remaining()), mode).Ok?) ==>
                body == Http.ReadBody(old(Remaining()), mode)
    {
      if mode.chunked {
        body := ReadChunks();
      } else if mode.length.Some? {
        body := ReadExact(mode.length.value);
      } else {
        body := ReadToEnd();
      }
    }

    /** The header lines up to the empty one: they always end, for each takes two bytes at least. */
    method ReadHeaders() returns (mode: Result<Mode>)
      requires Valid()
      modifies this`buffer, this`position, tls
      ensures Bounded() && old(buffer) <= buffer
      ensures mode.Ok? ==> Valid()
      ensures old(Within()) && (IsOver() || Http.ReadHeaders(old(Remaining()), Mode(false, None)).0.Ok?) ==>
                && mode == Http.ReadHeaders(old(Remaining()), Mode(false, None)).0
                && (mode.Ok? ==> Within() && Remaining() == Http.ReadHeaders(old(Remaining()), Mode(false, None)).1)
    {
      var so := Mode(false, None);
      ghost var start := if Within() then Remaining() else Input([], false);
      ghost var whole := Http.ReadHeaders(start, so);
      ghost var settled := Within() && (IsOver() || whole.0.Ok?);
      while true
        invariant Valid() && old(buffer) <= buffer
        invariant settled ==> Within() && whole == Http.ReadHeaders(Remaining(), so)
        decreases MAX_RESPONSE + CHUNK_SIZE - position
      {
        var line := ReadLine();
        if line.Err? {
          return Err(line.error);
        }
        if line.value == [] {
          return Ok(so);
        }
        so := ConsiderLine(so, line.value);
      }
    }

    /**
     A whole response. Against any peer this ends, with a buffer of at most 8 MiB and a fragment. And any
     part of the stream within 8 MiB that holds a whole response, or is all there is, gives that same
     response in whatever fragments it comes, and whatever the peer does after it.
     */
    method ReadResponse() returns (response: Result<Bytes>)
      requires Valid()
      modifies this`buffer, this`position, tls
      ensures Bounded()
      ensures old(Within()) && (IsOver() || Http.ReadResponse(old(Remaining())).Ok?) ==>
                response == Http.ReadResponse(old(Remaining()))
    {
      var status := ReadLine();
      if status.Err? {
        return status;
      }
      if !(Ascii("HTTP/") <= status.value) {
        return Err(NotHttp);
      }
      var mode := ReadHeaders();
      if mode.Err? {
        return Err(mode.error);
      }
      response := ReadBody(mode.value);
    }
  }

  // ----- whole responses over a fresh connection -----

  method Fetch(tls: Connection, ghost end: nat) returns (body: Result<Bytes>)
    requires tls.clock == 0 && SendsUpTo(tls.arrivals, end)
    modifies tls
    ensures !tls.arrivals(end).Data? || Http.ReadResponse(StreamUpTo(tls.arrivals, end)).Ok? ==>
              body == Http.ReadResponse(StreamUpTo(tls.arrivals, end))
  {
    var reader := new ResponseReader(tls, end);
    body := reader.ReadResponse();
  }

  /**
   A chunked response arrives whole, however it is cut into chunks and these into fragments, and whatever
   lengths its header declares and the peer sends or does behind it.
   */
  method FetchChunked(tls: Connection, ghost end: nat, ghost status: Bytes, ghost lines: seq<Bytes>,
                      ghost chunks: seq<Chunk>, ghost last: Chunk, ghost trailers: Bytes)
    returns (body: Result<Bytes>)
    requires tls.clock == 0 && SendsUpTo(tls.arrivals, end)
    requires IsLine(status) && Ascii("HTTP/") <= status && AreHeaders(lines) && Declared(lines).chunked
    requires AreChunks(chunks, last)
    requires Received(tls.arrivals, end) == SendResponse(status, lines, SendChunks(chunks, last) + trailers)
    modifies tls
    ensures body == Ok(Joined(chunks))
  {
    ChunkedResponse(status, lines, chunks, last, trailers, !tls.arrivals(end).Closed?);
    body := Fetch(tls, end);
  }

  /** So does a response of declared length. */
  method FetchSized(tls: Connection, ghost end: nat, ghost status: Bytes, ghost lines: seq<Bytes>,
                    ghost numeral: Bytes, ghost content: Bytes, ghost more: Bytes)
    returns (body: Result<Bytes>)
    requires tls.clock == 0 && SendsUpTo(tls.arrivals, end)
    requires IsLine(status) && Ascii("HTTP/") <= status && AreHeaders(lines) && !Declared(lines).chunked
    requires LastField(lines, CONTENT_LENGTH) == Some(numeral) && numeral != [] && AllDigits(numeral, 10)
    requires Value(numeral, 10) == |content| <= ULONG_MAX
    requires Received(tls.arrivals, end) == SendResponse(status, lines, content + more)
    modifies tls
    ensures body == Ok(content)
  {
    LengthResponse(status, lines, numeral, content + more, !tls.arrivals(end).Closed?);
    body := Fetch(tls, end);
    assert (content + more)[..|content|] == content;
  }

  /**
   Any response with its head written in any spelling and any case, in whatever fragments: chunks are joined,
   else a length counts, else the body goes up to where the peer closes.
   */
  method FetchSent(tls: Connection, ghost end: nat, ghost status: Bytes, ghost headers: seq<HttpHeads.Header>,
                   ghost content: Bytes)
    returns (body: Result<Bytes>)
    requires tls.clock == 0 && (forall i: nat :: i < end ==> tls.arrivals(i).Data?)
    requires |Received(tls.arrivals, end)| <= 8 * 1024 * 1024
    requires IsLine(status) && Ascii("HTTP/") <= status && HttpHeads.AreAllHeaders(headers)
    requires Received(tls.arrivals, end) == HttpHeads.Sent(status, headers, content)
    modifies tls
    ensures HttpHeads.ModeOf(headers).chunked ==>
              forall chunks, last, more :: AreChunks(chunks, last) && content == SendChunks(chunks, last) + more ==>
                body == Ok(Joined(chunks))
    ensures !HttpHeads.ModeOf(headers).chunked && HttpHeads.ModeOf(headers).length.Some? ==>
              && (HttpHeads.ModeOf(headers).length.value <= |content| ==>
                    body == Ok(content[..HttpHeads.ModeOf(headers).length.value]))
              && (HttpHeads.ModeOf(headers).length.value > |content| && !tls.arrivals(end).Data? ==>
                    body == Err(if tls.arrivals(end).Broken? then ConnectionLost else BodyTruncated))
    ensures !HttpHeads.ModeOf(headers).chunked && HttpHeads.ModeOf(headers).length.None? && !tls.arrivals(end).Data? ==>
              body == if tls.arrivals(end).Broken? then Err(ConnectionLost) else Ok(content)
  {
    ghost var lost := !tls.arrivals(end).Closed?;
    HttpHeads.HeadDecides(status, headers, content, lost);
    ghost var mode := HttpHeads.ModeOf(headers);
    if mode.chunked {
      forall chunks, last, more | AreChunks(chunks, last) && content == SendChunks(chunks, last) + more
        ensures Http.ReadResponse(StreamUpTo(tls.arrivals, end)) == Ok(Joined(chunks))
      {
        HttpHeads.ChunksAreRead(status, headers, chunks, last, more, lost);
      }
    }
    body := Fetch(tls, end);
  }

  method ConsiderLine(so: Mode, line: Bytes) returns (mode: Mode)
    ensures mode == Consider(so, line)
  {
    mode := so;
    var colon := IndexOf(line, [COLON]);
    if colon.Some? {
      var name := Lowercase(Trim(line[..colon.value]));
      var value := Trim(line[colon.value + 1..]);
      if name == TRANSFER_ENCODING {
        var coding := Lowercase(value);
        mode := mode.(chunked := IndexOf(coding, CHUNKED).Some?);
      } else if name == CONTENT_LENGTH {
        mode := mode.(length := Some(Strtoul(value, 10)));
      }
    }
  }

  lemma PrependNothing(body: (Result<Bytes>, Input))
    ensures Prepend([], body) == body
  {
    if body.0.Ok? { assert [] + body.0.value == body.0.value; }
  }

  lemma PrependTwice(a: Bytes, b: Bytes, body: (Result<Bytes>, Input))
    ensures Prepend(a, Prepend(b, body)) == Prepend(a + b, body)
  {
    if body.0.Ok? { Regroup(a, b, body.0.value); }
  }

  /** One more chunk of a body whose front is read already. */
  lemma NextChunk(sizeOf: Bytes -> nat, out: Bytes, input: Input)
    ensures Prepend(out, Http.ReadChunks(sizeOf, input))
         == (var (chunk, after) := Http.ReadChunk(sizeOf, input);
             if chunk.Err? then (Err(chunk.error), after)
             else if chunk.value.None? then (Ok(out), after)
             else Prepend(out + chunk.value.value, Http.ReadChunks(sizeOf, after)))
  {
    var (chunk, after) := Http.ReadChunk(sizeOf, input);
    if chunk.Ok? {
      if chunk.value.None? {
        assert out + [] == out;
      } else {
        PrependTwice(out, chunk.value.value, Http.ReadChunks(sizeOf, after));
      }
    }
  }
}
