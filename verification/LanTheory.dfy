/**
 What a read of the LAN transport takes of the stream, however it is delivered; the calls of a client; and
 when its retry loop succeeds.
 */
module LanTheory {
  import opened ByteStrings
  import opened Cipher
  import opened Layers
  import opened Lan

  // ----- staying aligned -----

  /** How many bytes the envelope or packet at the front of the stream takes, if it is a whole one. */
  function Framed(v3: bool, s: Bytes): (r: Option<nat>)
    ensures r.Some? ==> 6 <= r.value <= |s|
  {
    if |s| < 6 then None
    else
      match BodyLength(v3, s[..6])
      case Err(_) => None
      case Ok(n) => if 6 + n <= |s| then Some(6 + n) else None
  }

  /** The stream is whole envelopes (or V2 packets) one after the other, with any contents. */
  predicate WellFramed(v3: bool, s: Bytes)
    decreases |s|
  {
    s == [] || (Framed(v3, s).Some? && WellFramed(v3, s[Framed(v3, s).value..]))
  }

  lemma FramedPrefix(v3: bool, a: Bytes, b: Bytes)
    requires Framed(v3, a).Some?
    ensures Framed(v3, a + b) == Framed(v3, a)
    ensures (a + b)[Framed(v3, a).value..] == a[Framed(v3, a).value..] + b
  {
    assert (a + b)[..6] == a[..6];
  }

  lemma {:induction false} WellFramedAppends(v3: bool, a: Bytes, b: Bytes)
    requires WellFramed(v3, a) && WellFramed(v3, b)
    ensures WellFramed(v3, a + b)
    decreases |a|
  {
    if a == [] {
      assert a + b == b;
    } else {
      FramedPrefix(v3, a, b);
      WellFramedAppends(v3, a[Framed(v3, a).value..], b);
    }
  }

  /** What is unread starts at an envelope boundary, and the peer only ever delivers whole envelopes. */
  ghost predicate Aligned(v3: bool, line: Line) {
    WellFramed(v3, line.unread) && forall d :: d in line.deliveries ==> WellFramed(v3, d)
  }

  /** Everything the peer has sent or will send that is not read yet. */
  function Stream(line: Line): Bytes {
    line.unread + Concat(line.deliveries)
  }

  lemma ArriveKeeps(v3: bool, line: Line)
    ensures Stream(Arrive(line)) == Stream(line)
    ensures Aligned(v3, line) ==> Aligned(v3, Arrive(line))
  {
    if line.deliveries != [] {
      assert line.deliveries[0] in line.deliveries;
      if Aligned(v3, line) {
        WellFramedAppends(v3, line.unread, line.deliveries[0]);
      }
    }
  }

  /** How much a read that gives up on this line throws away. */
  function Lost(line: Line): nat {
    if line.lossy then |Arrive(line).unread| else 0
  }

  lemma ReadFromTakes(line: Line, n: nat)
    ensures var (after, got) := ReadFrom(line, n);
            match got
            case Some(b) => Stream(line) == b + Stream(after) && Arrive(line).unread == b + after.unread
            case None => Lost(line) < n && Lost(line) <= |Stream(line)| && Stream(after) == Stream(line)[Lost(line)..]
  {
    ArriveKeeps(true, line);
    var now := Arrive(line);
    if n <= |now.unread| {
      assert now.unread == now.unread[..n] + now.unread[n..];
      assert Stream(now) == now.unread[..n] + (now.unread[n..] + Concat(now.deliveries));
    }
  }

  /** How far a read that failed with this error has moved on in the stream. */
  function Skipped(line: Line, e: Error): nat {
    if e == NoResponse then Lost(line)
    else if e == TruncatedPacket then 6 + Lost(ReadFrom(line, 6).0)
    else 6
  }

  /**
   One read of the stream, whatever the deliveries are. A completed read takes the bytes it returns and
   they are one envelope; without a whole header nothing is taken; every other failure takes the header
   and leaves the rest behind. A lossy connection throws away what it has of a part that is not whole.
   */
  lemma ReadTakes(v3: bool, line: Line)
    ensures var (after, outcome) := ReadMessage(v3, line);
            match outcome
            case Ok(e) => Stream(line) == e + Stream(after) && Framed(v3, e) == Some(|e|)
            case Err(e) => Skipped(line, e) <= |Stream(line)| && Stream(after) == Stream(line)[Skipped(line, e)..]
  {
    ReadFromTakes(line, 6);
    var (line1, header) := ReadFrom(line, 6);
    if header.Some? {
      assert Stream(line)[6..] == Stream(line1);
      var body := BodyLength(v3, header.value);
      if body.Ok? {
        RestTakes(v3, header.value, line1, body.value);
      }
    }
  }

  /** After a header: the rest it declares is taken with it, or no more than is lost. */
  lemma RestTakes(v3: bool, header: Bytes, line: Line, n: nat)
    requires |header| == 6 && BodyLength(v3, header) == Ok(n)
    ensures var (after, rest) := ReadFrom(line, n);
            match rest
            case None => Lost(line) <= |Stream(line)| && Stream(after) == (header + Stream(line))[6 + Lost(line)..]
            case Some(r) =>
              header + Stream(line) == header + r + Stream(after) && Framed(v3, header + r) == Some(|header + r|)
  {
    ReadFromTakes(line, n);
    var (after, rest) := ReadFrom(line, n);
    if rest.Some? {
      WholeIsFramed(v3, header, rest.value);
      assert header + rest.value + Stream(after) == header + (rest.value + Stream(after));
    }
  }

  lemma WholeIsFramed(v3: bool, header: Bytes, rest: Bytes)
    requires |header| == 6 && BodyLength(v3, header) == Ok(|rest|)
    ensures Framed(v3, header + rest) == Some(6 + |rest|)
  {
    assert (header + rest)[..6] == header;
  }

  /** The first `n` bytes of a stream are whole messages. */
  predicate IsBoundary(v3: bool, s: Bytes, n: nat)
    decreases n
  {
    n == 0
    || (Framed(v3, s).Some? && Framed(v3, s).value <= n
        && IsBoundary(v3, s[Framed(v3, s).value..], n - Framed(v3, s).value))
  }

  /** Boundaries behind a boundary are those of what is left there, and that is whole messages again. */
  lemma {:induction false} BoundaryAdds(v3: bool, s: Bytes, a: nat, b: nat)
    requires IsBoundary(v3, s, a)
    ensures a <= |s| && (IsBoundary(v3, s, a + b) <==> IsBoundary(v3, s[a..], b))
    ensures WellFramed(v3, s) ==> WellFramed(v3, s[a..])
    decreases a
  {
    if a == 0 {
      assert s[0..] == s;
    } else {
      var n := Framed(v3, s).value;
      BoundaryAdds(v3, s[n..], a - n, b);
      assert s[n..][a - n..] == s[a..];
    }
  }

  /** Within its first message a stream has no boundary, and behind it one. */
  lemma FirstBoundary(v3: bool, s: Bytes, n: nat)
    requires Framed(v3, s).Some?
    ensures 0 < n < Framed(v3, s).value ==> !IsBoundary(v3, s, n)
    ensures n == Framed(v3, s).value ==> IsBoundary(v3, s, n)
  {
  }

  /** How many bytes of the stream a read takes. */
  function Taken(v3: bool, line: Line): nat {
    ReadTakes(v3, line);
    |Stream(line)| - |Stream(ReadMessage(v3, line).0)|
  }

  /**
   What decides, before a read, whether it is cut off: of the next message something has come, but less
   than a header on a lossy connection, or a header and, with one more delivery, less than the whole.
   */
  predicate ComesInPart(v3: bool, line: Line) {
    var now := Arrive(line);
    && now.unread != []
    && if |now.unread| < 6 then line.lossy
       else Framed(v3, Stream(line)).Some? && |Arrive(now).unread| < Framed(v3, Stream(line)).value
  }

  /** A read gives up on a message that has come in part: it has its header, or has lost of it what came. */
  predicate CutsOff(v3: bool, line: Line) {
    var outcome := ReadMessage(v3, line).1;
    outcome == Err(TruncatedPacket) || (outcome == Err(NoResponse) && Lost(line) > 0)
  }

  /** A header that has come is that of the message at the front of the stream. */
  lemma HeaderIsFront(v3: bool, line: Line)
    requires |Arrive(line).unread| >= 6
    ensures |Stream(line)| >= 6 && Arrive(line).unread[..6] == Stream(line)[..6]
  {
    ArriveKeeps(v3, line);
  }

  lemma FirstIsFramed(v3: bool, s: Bytes)
    requires WellFramed(v3, s) && s != []
    ensures Framed(v3, s).Some? && BodyLength(v3, s[..6]) == Ok(Framed(v3, s).value - 6)
  {
  }

  lemma SomeIsThere(line: Line)
    requires Arrive(line).unread != []
    ensures Stream(line) != []
  {
    ArriveKeeps(true, line);
  }

  /** What has come when the body is read: all that two deliveries bring, but for the header. */
  lemma BodyArrives(line: Line)
    requires |Arrive(line).unread| >= 6
    ensures var line1 := ReadFrom(line, 6).0;
            Arrive(line1).unread == Arrive(Arrive(line)).unread[6..] && line1.lossy == line.lossy
  {
    var now := Arrive(line);
    if now.deliveries != [] {
      assert (now.unread + now.deliveries[0])[6..] == now.unread[6..] + now.deliveries[0];
    }
  }

  /** Of whole messages a read is cut off exactly when the next one comes in part. */
  lemma CutsOffWhen(v3: bool, line: Line)
    requires WellFramed(v3, Stream(line))
    ensures CutsOff(v3, line) <==> ComesInPart(v3, line)
    ensures !CutsOff(v3, line) ==> var outcome := ReadMessage(v3, line).1; outcome.Ok? || outcome.error == NoResponse
  {
    if |Arrive(line).unread| >= 6 {
      HeaderIsFront(v3, line);
      FirstIsFramed(v3, Stream(line));
      BodyArrives(line);
    }
  }

  /** How much a read takes: nothing, one whole message, or, if it is cut off, a part of one. */
  lemma TakesWhole(v3: bool, line: Line)
    requires WellFramed(v3, Stream(line))
    ensures var whole, taken := Framed(v3, Stream(line)), Taken(v3, line);
            if ComesInPart(v3, line) then whole.Some? && 0 < taken < whole.value
            else taken == 0 || (whole.Some? && taken == whole.value)
  {
    CutsOffWhen(v3, line);
    ReadTakes(v3, line);
    var (after, outcome) := ReadMessage(v3, line);
    if outcome.Ok? {
      FramedPrefix(v3, outcome.value, Stream(after));
    } else if ComesInPart(v3, line) {
      SomeIsThere(line);
      FirstIsFramed(v3, Stream(line));
      if |Arrive(line).unread| >= 6 { BodyArrives(line); }
    }
  }

  /**
   On a stream of whole messages, however they are delivered, a read ends on a boundary exactly when the
   next message does not come in part. What is left then is whole messages, and a read that failed
   there has found and taken nothing.
   */
  lemma ReadEndsOnBoundaryWhen(v3: bool, line: Line)
    requires WellFramed(v3, Stream(line))
    ensures IsBoundary(v3, Stream(line), Taken(v3, line)) <==> !ComesInPart(v3, line)
    ensures var (after, outcome) := ReadMessage(v3, line);
            !ComesInPart(v3, line) ==>
              && WellFramed(v3, Stream(after))
              && (outcome.Ok? || (outcome.error == NoResponse && Stream(after) == Stream(line)))
  {
    TakesWhole(v3, line);
    CutsOffWhen(v3, line);
    ReadTakes(v3, line);
    var taken := Taken(v3, line);
    if Framed(v3, Stream(line)).Some? { FirstBoundary(v3, Stream(line), taken); }
    if !ComesInPart(v3, line) {
      BoundaryAdds(v3, Stream(line), taken, 0);
    }
  }

  /**
   One such: an envelope that is delivered as six, two and two bytes is given up after its header, and what
   is left of it is no envelope.
   */
  lemma CutOffLeavesBoundary() returns (line: Line)
    ensures WellFramed(true, Stream(line)) && |line.deliveries| == 3
    ensures ReadMessage(true, line).1 == Err(TruncatedPacket) && !WellFramed(true, Stream(ReadMessage(true, line).0))
    ensures ComesInPart(true, line) && !IsBoundary(true, Stream(line), Taken(true, line))
  {
    var header: Bytes := [0x83, 0x70, 0, 2, 0x20, 3];
    line := Line([], [header, [0, 0], [0, 0]], [], [], false);
    var rest: Bytes := [0, 0] + [0, 0];
    assert line.deliveries[1..] == [[0, 0], [0, 0]] && line.deliveries[1..][1..] == [[0, 0]];
    assert Stream(line) == header + rest by {
      assert Concat([[0, 0]]) == [0, 0];
      assert Concat([[0, 0], [0, 0]]) == rest;
    }
    WholeIsFramed(true, header, rest);
    var (line1, got) := ReadFrom(line, 6);
    assert [] + header == header && header[6..] == [];
    var (line2, more) := ReadFrom(line1, 4);
    assert line2.unread == [0, 0] && line2.deliveries == [[0, 0]];
    CutsOffWhen(true, line);
    ReadEndsOnBoundaryWhen(true, line);
  }

  /**
   A peer that delivers whole envelopes keeps the reader on a boundary: a read then completes or
   finds nothing there at all.
   */
  lemma ReadStaysAligned(v3: bool, line: Line)
    requires Aligned(v3, line)
    ensures var (after, outcome) := ReadMessage(v3, line);
            Aligned(v3, after) && (outcome.Ok? || (outcome.error == NoResponse && Arrive(line).unread == []))
  {
    ArriveKeeps(v3, line);
    var now := Arrive(line);
    if now.unread != [] {
      var n := Framed(v3, now.unread).value;
      var (line1, header) := ReadFrom(line, 6);
      assert header == Some(now.unread[..6]);
      var later := Arrive(line1);
      var more := if line1.deliveries == [] then [] else line1.deliveries[0];
      assert later.unread == now.unread[6..] + more;
      var (line2, rest) := ReadFrom(line1, n - 6);
      assert line2.unread == now.unread[n..] + more;
      if line1.deliveries != [] {
        assert line1.deliveries[0] in line1.deliveries;
      }
      WellFramedAppends(v3, now.unread[n..], more);
    }
  }

  /** Whole messages do not come in part. */
  lemma WholeIsNotInPart(v3: bool, line: Line)
    requires Aligned(v3, line)
    ensures !ComesInPart(v3, line)
  {
    ArriveKeeps(v3, line);
    var now := Arrive(line);
    if now.unread != [] {
      FramedPrefix(v3, now.unread, Concat(now.deliveries));
    }
  }

  // ----- runs -----

  /** The calls a client makes between connecting and closing. */
  datatype Op =
    | Login
    | Send(frame: Bytes)
    | Change(setting: Setting)

  datatype Setting =
    | Reset
    | Retries(retries: int)
    | Credentials(token: Bytes, key: Bytes)

  function Changed(s: Session, setting: Setting): Session {
    match setting
    case Reset => s.(localKey := [])
    case Retries(n) => s.(retries := if n > 0 then n else 1)
    case Credentials(token, key) => s.(token := token, key := key, localKey := [])
  }

  function Apply(p: Suite, s: Session, op: Op): Session {
    match op
    case Login => Authenticate(p, s).0
    case Send(frame) => SendFrame(p, s, frame).0
    case Change(setting) => Changed(s, setting)
  }

  function Run(p: Suite, s: Session, ops: seq<Op>): Session
    decreases |ops|
  {
    if ops == [] then s else Run(p, Apply(p, s, ops[0]), ops[1..])
  }

  /** No call swaps V3 credentials for V2 ones or back. */
  predicate StaysOn(v3: bool, ops: seq<Op>) {
    forall op :: op in ops && op.Change? ==> Keeps(v3, op.setting)
  }

  predicate Keeps(v3: bool, setting: Setting) {
    setting.Credentials? ==> (setting.token != [] && setting.key != [] <==> v3)
  }

  lemma AttemptStaysAligned(p: Suite, s: Session, packet: Bytes)
    requires Aligned(s.IsV3(), s.line)
    ensures var (after, outcome) := SendOnce(p, s, packet);
            Aligned(s.IsV3(), after.line) && after.IsV3() == s.IsV3()
  {
    var (line1, sent) := WriteTo(s.line, Request(p, s.IsV3(), s.localKey, packet)(s.packetId));
    assert Aligned(s.IsV3(), line1);
    ReadStaysAligned(s.IsV3(), line1);
  }

  lemma LoginStaysAligned(p: Suite, s: Session)
    requires Aligned(s.IsV3(), s.line)
    ensures var (after, outcome) := Authenticate(p, s);
            Aligned(s.IsV3(), after.line) && after.IsV3() == s.IsV3()
  {
    if s.IsV3() && |s.token| == 64 && |s.key| == 32 {
      var (line1, sent) := WriteTo(s.line, EncodeHandshakeRequest(s.packetId, s.token));
      assert Aligned(true, line1);
      ReadStaysAligned(true, line1);
    }
  }

  // ----- the retry loop -----

  /** The state when attempt `i` begins, if all before it were made. */
  function Before<S>(attempt: S -> (S, Result<Bytes>), s: S, i: nat): S
    decreases i
  {
    if i == 0 then s else Before(attempt, attempt(s).0, i - 1)
  }

  function Outcome<S>(attempt: S -> (S, Result<Bytes>), s: S, i: nat): Result<Bytes> {
    attempt(Before(attempt, s, i)).1
  }

  /** Attempt `i` is the one the loop ends on. */
  ghost predicate EndsOn<S>(attempt: S -> (S, Result<Bytes>), s: S, n: nat, i: nat) {
    i < n && (forall j: nat :: j < i ==> Worthwhile(Outcome(attempt, s, j)))
    && (i == n - 1 || !Worthwhile(Outcome(attempt, s, i)))
  }

  lemma {:induction false} RetriesEndOn<S>(attempt: S -> (S, Result<Bytes>), s: S, n: nat) returns (last: nat)
    requires n > 0
    ensures EndsOn(attempt, s, n, last)
    ensures Retry(attempt, s, n) == (Before(attempt, s, last + 1), Outcome(attempt, s, last))
    decreases n
  {
    var (s1, outcome) := attempt(s);
    assert Before(attempt, s, 1) == Before(attempt, s1, 0) == s1;
    if Worthwhile(outcome) && n > 1 {
      var later := RetriesEndOn(attempt, s1, n - 1);
      last := later + 1;
      forall j: nat | j < last
        ensures Worthwhile(Outcome(attempt, s, j))
      {
        if j > 0 { assert Outcome(attempt, s, j) == Outcome(attempt, s1, j - 1); }
      }
    } else {
      last := 0;
    }
  }

  /**
   The loop succeeds exactly when some attempt within the limit does and no write failed before it;
   the reply is then that of the first attempt that got one.
   */
  lemma RetriesSucceedWhen<S>(attempt: S -> (S, Result<Bytes>), s: S, n: nat)
    requires n > 0
    ensures Retry(attempt, s, n).1.Ok?
       <==> exists i: nat :: i < n && Outcome(attempt, s, i).Ok?
                          && forall j: nat :: j < i ==> Outcome(attempt, s, j) != Err(CommandNotSent)
    ensures forall i: nat :: i < n && Outcome(attempt, s, i).Ok?
                          && (forall j: nat :: j < i ==> Worthwhile(Outcome(attempt, s, j)))
                         ==> Retry(attempt, s, n) == (Before(attempt, s, i + 1), Outcome(attempt, s, i))
  {
    var last := RetriesEndOn(attempt, s, n);
    forall i: nat | i < n && Outcome(attempt, s, i).Ok?
                  && forall j: nat :: j < i ==> Outcome(attempt, s, j) != Err(CommandNotSent)
      ensures Outcome(attempt, s, last).Ok?
    {
      assert i < last ==> Worthwhile(Outcome(attempt, s, i));
      assert last < i ==> !Worthwhile(Outcome(attempt, s, last)) && Outcome(attempt, s, last) != Err(CommandNotSent);
    }
    forall i: nat | i < n && Outcome(attempt, s, i).Ok?
                  && forall j: nat :: j < i ==> Worthwhile(Outcome(attempt, s, j))
      ensures i == last
    {
      assert i < last ==> Worthwhile(Outcome(attempt, s, i));
    }
  }

  /** With authentication in place, a send succeeds exactly when an attempt does and no write failed first. */
  lemma SendSucceedsWhen(p: Suite, s: Session, frame: Bytes)
    requires s.Authenticated()
    ensures var attempt := Sender(p, EncodePacket(p, s.deviceId, frame, s.timestamp));
            (SendFrame(p, s, frame).1.Ok?
             <==> exists i: nat :: i < s.retries && Outcome(attempt, s, i).Ok?
                                && forall j: nat :: j < i ==> Outcome(attempt, s, j) != Err(CommandNotSent))
  {
    RetriesSucceedWhen(Sender(p, EncodePacket(p, s.deviceId, frame, s.timestamp)), s, s.retries);
  }
}
