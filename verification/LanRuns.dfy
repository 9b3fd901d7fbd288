/**
 Whole runs of the LAN transport, call by call taken apart into single steps: one handshake, one attempt
 at a command, one change of a setting. Every command is written under a session key that a handshake
 earlier in the run was answered with, and a run stays on envelope boundaries exactly as long as no
 message comes in part when it reads.
 */
module LanRuns {
  import opened ByteStrings
  import opened Cipher
  import opened Layers
  import opened Lan
  import opened LanTheory
  import opened LanWrites
  import Wire

  datatype Step = Greet | Try(packet: Bytes) | Adjust(setting: Setting)

  function Take(p: Suite, s: Session, step: Step): Session {
    match step
    case Greet => Authenticate(p, s).0
    case Try(packet) => SendOnce(p, s, packet).0
    case Adjust(setting) => Changed(s, setting)
  }

  /** What a step writes, if it writes. */
  function Posted(p: Suite, s: Session, step: Step): Option<Bytes> {
    match step
    case Greet =>
      if s.IsV3() && |s.token| == 64 && |s.key| == 32 then Some(EncodeHandshakeRequest(s.packetId, s.token)) else None
    case Try(packet) => Some(Request(p, s.IsV3(), s.localKey, packet)(s.packetId))
    case Adjust(_) => None
  }

  /** Whether the next write is accepted. */
  predicate Accepts(s: Session) {
    s.line.accepts != [] && s.line.accepts[0]
  }

  /** What a step reads, if its write is accepted: the outcome of reading one message. */
  function Fetched(p: Suite, s: Session, step: Step): Option<Result<Bytes>> {
    match Posted(p, s, step)
    case None => None
    case Some(data) => if Accepts(s) then Some(ReadMessage(s.IsV3(), WriteTo(s.line, data).0).1) else None
  }

  // ----- the steps of a call -----

  /** How many attempts the retry loop makes. */
  function Attempts<S>(attempt: S -> (S, Result<Bytes>), s: S, n: nat): (r: nat)
    requires n > 0
    ensures 0 < r <= n
    decreases n
  {
    var (s1, outcome) := attempt(s);
    if Worthwhile(outcome) && n > 1 then 1 + Attempts(attempt, s1, n - 1) else 1
  }

  function Tries(packet: Bytes, n: nat): (r: seq<Step>)
    ensures |r| == n && forall i :: 0 <= i < n ==> r[i] == Try(packet)
  {
    seq(n, _ => Try(packet))
  }

  function SendSteps(login: Session -> (Session, Result<()>), attempt: Session -> (Session, Result<Bytes>), s: Session,
                     packet: Bytes): seq<Step>
  {
    if s.Authenticated() then Tries(packet, Attempts(attempt, s, s.retries))
    else
      var (s1, ready) := login(s);
      [Greet] + if ready.Err? then [] else Tries(packet, Attempts(attempt, s1, s1.retries))
  }

  function Steps(p: Suite, s: Session, op: Op): seq<Step> {
    match op
    case Login => [Greet]
    case Send(frame) =>
      var packet := EncodePacket(p, s.deviceId, frame, s.timestamp);
      SendSteps(Handshaker(p), Sender(p, packet), s, packet)
    case Change(setting) => [Adjust(setting)]
  }

  function RunSteps(p: Suite, s: Session, ops: seq<Op>): seq<Step>
    decreases |ops|
  {
    if ops == [] then [] else Steps(p, s, ops[0]) + RunSteps(p, Apply(p, s, ops[0]), ops[1..])
  }

  function Taker(p: Suite): (Session, Step) -> Session {
    (s: Session, step: Step) => Take(p, s, step)
  }

  /** The states a run goes through, one more than its steps. */
  function Path(take: (Session, Step) -> Session, s: Session, steps: seq<Step>): (r: seq<Session>)
    ensures |r| == |steps| + 1 && r[0] == s
    decreases |steps|
  {
    if steps == [] then [s] else [s] + Path(take, take(s, steps[0]), steps[1..])
  }

  function Last(path: seq<Session>): Session
    requires path != []
  {
    path[|path| - 1]
  }

  lemma {:induction false} PathSteps(take: (Session, Step) -> Session, s: Session, steps: seq<Step>, i: nat)
    requires i < |steps|
    ensures Path(take, s, steps)[i + 1] == take(Path(take, s, steps)[i], steps[i])
    decreases |steps|
  {
    if i == 0 {
    } else {
      PathSteps(take, take(s, steps[0]), steps[1..], i - 1);
    }
  }

  /** What every step keeps, the path keeps. */
  lemma {:induction false} PathKeeps(take: (Session, Step) -> Session, inv: Session -> bool, s: Session,
                                     steps: seq<Step>, i: nat)
    requires i <= |steps| && inv(s)
    requires forall now: Session, step :: step in steps && inv(now) ==> inv(take(now, step))
    ensures inv(Path(take, s, steps)[i])
    decreases |steps|
  {
    if i == 0 {
    } else {
      assert steps[0] in steps;
      PathKeeps(take, inv, take(s, steps[0]), steps[1..], i - 1);
    }
  }

  lemma {:induction false} PathAppends(take: (Session, Step) -> Session, s: Session, a: seq<Step>, b: seq<Step>)
    ensures var first := Path(take, s, a);
            Path(take, s, a + b) == first[..|a|] + Path(take, Last(first), b)
    decreases |a|
  {
    if a == [] {
      assert a + b == b;
    } else {
      assert (a + b)[0] == a[0] && (a + b)[1..] == a[1..] + b;
      PathAppends(take, take(s, a[0]), a[1..], b);
    }
  }

  /** A call comes to what its steps come to, and its attempts are made in authenticated states only. */
  ghost predicate Unfolds(take: (Session, Step) -> Session, s: Session, after: Session, steps: seq<Step>) {
    var path := Path(take, s, steps);
    Last(path) == after && forall i :: 0 <= i < |steps| && steps[i].Try? ==> path[i].Authenticated()
  }

  lemma UnfoldsOn(take: (Session, Step) -> Session, s: Session, s1: Session, after: Session, a: seq<Step>, b: seq<Step>)
    requires Unfolds(take, s, s1, a) && Unfolds(take, s1, after, b)
    ensures Unfolds(take, s, after, a + b)
  {
    PathAppends(take, s, a, b);
    var first, later, whole := Path(take, s, a), Path(take, s1, b), Path(take, s, a + b);
    forall i | 0 <= i < |a + b| && (a + b)[i].Try?
      ensures whole[i].Authenticated()
    {
      assert whole[i] == if i < |a| then first[i] else later[i - |a|];
    }
  }

  /** The steps taken are those of the attempts, and attempts leave the session authenticated. */
  ghost predicate TriesAs(take: (Session, Step) -> Session, packet: Bytes,
                          attempt: Session -> (Session, Result<Bytes>))
  {
    forall s: Session :: take(s, Try(packet)) == attempt(s).0 && (s.Authenticated() ==> attempt(s).0.Authenticated())
  }

  lemma {:induction false} RetryUnfolds(take: (Session, Step) -> Session, packet: Bytes,
                                        attempt: Session -> (Session, Result<Bytes>), s: Session, n: nat)
    requires n > 0 && s.Authenticated() && TriesAs(take, packet, attempt)
    ensures Unfolds(take, s, Retry(attempt, s, n).0, Tries(packet, Attempts(attempt, s, n)))
    decreases n
  {
    var (s1, outcome) := attempt(s);
    OneTry(take, packet, s);
    if Worthwhile(outcome) && n > 1 {
      RetryUnfolds(take, packet, attempt, s1, n - 1);
      UnfoldsOn(take, s, s1, Retry(attempt, s1, n - 1).0, [Try(packet)], Tries(packet, Attempts(attempt, s1, n - 1)));
      assert [Try(packet)] + Tries(packet, Attempts(attempt, s1, n - 1)) == Tries(packet, Attempts(attempt, s, n));
    } else {
      assert Tries(packet, 1) == [Try(packet)];
    }
  }

  lemma OneTry(take: (Session, Step) -> Session, packet: Bytes, s: Session)
    requires s.Authenticated()
    ensures Unfolds(take, s, take(s, Try(packet)), [Try(packet)])
  {
    OneStep(take, s, Try(packet));
  }

  lemma OneStep(take: (Session, Step) -> Session, s: Session, step: Step)
    ensures Path(take, s, [step]) == [s, take(s, step)]
  {
    assert Path(take, take(s, step), []) == [take(s, step)];
    assert [step][1..] == [];
  }

  lemma TakerTries(p: Suite, packet: Bytes)
    ensures TriesAs(Taker(p), packet, Sender(p, packet))
  {
    forall s: Session
      ensures Taker(p)(s, Try(packet)) == Sender(p, packet)(s).0
      ensures s.Authenticated() ==> Sender(p, packet)(s).0.Authenticated()
    {
      AttemptWrites(p, s, packet);
    }
  }

  lemma SendUnfolds(derives: (Session, Bytes) -> bool, take: (Session, Step) -> Session, packet: Bytes,
                    login: Session -> (Session, Result<()>), attempt: Session -> (Session, Result<Bytes>), s: Session)
    requires LogsIn(derives, login) && TriesAs(take, packet, attempt)
    requires take(s, Greet) == login(s).0
    ensures Unfolds(take, s, LoginAndRetry(login, attempt, s).0, SendSteps(login, attempt, s, packet))
  {
    if s.Authenticated() {
      RetryUnfolds(take, packet, attempt, s, s.retries);
    } else {
      var (s1, ready) := login(s);
      OneStep(take, s, Greet);
      if ready.Ok? {
        RetryUnfolds(take, packet, attempt, s1, s1.retries);
        var tries := Tries(packet, Attempts(attempt, s1, s1.retries));
        UnfoldsOn(take, s, s1, Retry(attempt, s1, s1.retries).0, [Greet], tries);
      } else {
        assert [Greet] + [] == [Greet];
      }
    }
  }

  lemma ApplyUnfolds(p: Suite, s: Session, op: Op)
    ensures Unfolds(Taker(p), s, Apply(p, s, op), Steps(p, s, op))
  {
    match op
    case Login => OneStep(Taker(p), s, Greet);
    case Send(frame) =>
      var packet := EncodePacket(p, s.deviceId, frame, s.timestamp);
      TakerTries(p, packet);
      HandshakerLogsIn(p);
      SendUnfolds(Deriving(p), Taker(p), packet, Handshaker(p), Sender(p, packet), s);
    case Change(setting) => OneStep(Taker(p), s, Adjust(setting));
  }

  /** A run comes to what its steps come to, and every attempt in it is made in an authenticated state. */
  lemma {:induction false} RunUnfolds(p: Suite, s: Session, ops: seq<Op>)
    ensures Unfolds(Taker(p), s, Run(p, s, ops), RunSteps(p, s, ops))
    decreases |ops|
  {
    if ops == [] {
      assert Path(Taker(p), s, []) == [s];
    } else {
      var s1 := Apply(p, s, ops[0]);
      ApplyUnfolds(p, s, ops[0]);
      RunUnfolds(p, s1, ops[1..]);
      UnfoldsOn(Taker(p), s, s1, Run(p, s1, ops[1..]), Steps(p, s, ops[0]), RunSteps(p, s1, ops[1..]));
    }
  }

  // ----- what single steps do -----

  /** The steps that give up the session key. */
  predicate Forgets(step: Step) {
    step.Adjust? && !step.setting.Retries?
  }

  /** A session key is given up, or new from the reply that this very handshake read, or as it was. */
  ghost predicate MovesKey(derives: (Session, Bytes) -> bool, s: Session, step: Step, after: Session) {
    && (if Forgets(step) then after.localKey == []
        else if after.localKey != s.localKey then step == Greet && |s.token| == 64 && derives(s, after.localKey)
        else true)
    && ((step.Adjust? && step.setting.Credentials?) || (after.token == s.token && after.key == s.key))
  }

  lemma StepMovesKey(p: Suite, s: Session, step: Step)
    ensures MovesKey(Deriving(p), s, step, Take(p, s, step))
  {
    match step
    case Greet => LoginWrites(p, s);
    case Try(packet) => AttemptWrites(p, s, packet);
    case Adjust(_) =>
  }

  function Written(p: Suite, s: Session, step: Step): seq<Write> {
    match Posted(p, s, step) case None => [] case Some(data) => [Write(data, Accepts(s))]
  }

  /** The log grows by what is posted, and in V3 every write has moved the packet id on by one. */
  ghost predicate MovesLog(written: seq<Write>, s: Session, after: Session) {
    && after.line.log == s.line.log + written
    && after.packetId == Advanced(s, |written|)
  }

  lemma GreetingIsWritten(p: Suite, s: Session)
    ensures Greeting(s, Authenticate(p, s).1) == Written(p, s, Greet)
  {
    var (line1, sent) := WriteTo(s.line, EncodeHandshakeRequest(s.packetId, s.token));
    ReadKeepsLog(true, line1);
  }

  lemma TryIsWritten(p: Suite, s: Session, packet: Bytes)
    ensures Only(Request(p, s.IsV3(), s.localKey, packet), s, SendOnce(p, s, packet).1) == Written(p, s, Try(packet))
  {
    var request := Request(p, s.IsV3(), s.localKey, packet);
    var (line1, sent) := WriteTo(s.line, request(s.packetId));
    ReplyIsNoWrite(p, s.(line := line1, packetId := Advanced(s, 1)));
  }

  lemma StepMovesLog(p: Suite, s: Session, step: Step)
    ensures MovesLog(Written(p, s, step), s, Take(p, s, step))
  {
    match step
    case Greet =>
      LoginWrites(p, s);
      GreetingIsWritten(p, s);
    case Try(packet) =>
      AttemptWrites(p, s, packet);
      TryIsWritten(p, s, packet);
    case Adjust(_) =>
  }

  /** What is left of the stream once this much of it has been taken. */
  predicate Follows(rest: Bytes, stream: Bytes) {
    |rest| <= |stream| && stream[|stream| - |rest|..] == rest
  }

  /** The stream is taken from its front: by a completed read, exactly the envelope it returned. */
  ghost predicate MovesStream(fetched: Option<Result<Bytes>>, s: Session, after: Session) {
    && Follows(Stream(after.line), Stream(s.line))
    && (fetched.None? ==> Stream(after.line) == Stream(s.line))
    && (fetched.Some? && fetched.value.Ok? ==> Stream(s.line) == fetched.value.value + Stream(after.line))
  }

  lemma ReadMovesStream(v3: bool, s: Session, line: Line, after: Session)
    requires Stream(line) == Stream(s.line) && after.line == ReadMessage(v3, line).0
    ensures MovesStream(Some(ReadMessage(v3, line).1), s, after)
  {
    ReadTakes(v3, line);
  }

  lemma StepMovesStream(p: Suite, s: Session, step: Step)
    ensures MovesStream(Fetched(p, s, step), s, Take(p, s, step))
  {
    var posted, after := Posted(p, s, step), Take(p, s, step);
    if posted.Some? && Accepts(s) {
      StepReads(p, s, step);
      ReadMovesStream(s.IsV3(), s, WriteTo(s.line, posted.value).0, after);
    } else {
      StepReadsNothing(p, s, step);
    }
  }

  lemma StepReads(p: Suite, s: Session, step: Step)
    requires Posted(p, s, step).Some? && Accepts(s)
    ensures Take(p, s, step).line == ReadMessage(s.IsV3(), WriteTo(s.line, Posted(p, s, step).value).0).0
  {
  }

  lemma StepReadsNothing(p: Suite, s: Session, step: Step)
    requires Posted(p, s, step).Some? ==> !Accepts(s)
    ensures Stream(Take(p, s, step).line) == Stream(s.line)
  {
  }

  // ----- where session keys come from -----

  /** The session key of state `j` was derived from the reply that step `i` read, and kept since. */
  ghost predicate Source(derives: (Session, Bytes) -> bool, path: seq<Session>, steps: seq<Step>, i: nat, j: nat)
    requires |path| == |steps| + 1 && j < |path|
  {
    && i < j && steps[i] == Greet && |path[i].token| == 64 && derives(path[i], path[j].localKey)
    && (forall k :: i < k < j ==> !Forgets(steps[k]))
    && path[j].token == path[i].token && path[j].key == path[i].key
  }

  /** A session that began without a key has one only from a handshake it was answered since. */
  lemma {:induction false} KeyHasSource(derives: (Session, Bytes) -> bool, path: seq<Session>, steps: seq<Step>, j: nat)
    returns (i: nat)
    requires |path| == |steps| + 1 && j < |path|
    requires forall k :: 0 <= k < |steps| ==> MovesKey(derives, path[k], steps[k], path[k + 1])
    requires path[0].localKey == [] && path[j].localKey != []
    ensures Source(derives, path, steps, i, j)
  {
    assert MovesKey(derives, path[j - 1], steps[j - 1], path[j]);
    if path[j].localKey != path[j - 1].localKey {
      i := j - 1;
    } else {
      i := KeyHasSource(derives, path, steps, j - 1);
    }
  }

  // ----- whole runs -----

  predicate StepsKeep(v3: bool, steps: seq<Step>) {
    forall step :: step in steps && step.Adjust? ==> Keeps(v3, step.setting)
  }

  lemma CallStepsKeep(p: Suite, v3: bool, s: Session, op: Op)
    requires op.Change? ==> Keeps(v3, op.setting)
    ensures StepsKeep(v3, Steps(p, s, op))
  {
  }

  lemma {:induction false} RunStepsKeep(p: Suite, v3: bool, s: Session, ops: seq<Op>)
    requires StaysOn(v3, ops)
    ensures StepsKeep(v3, RunSteps(p, s, ops))
    decreases |ops|
  {
    if ops == [] {
    } else {
      assert ops[0] in ops;
      CallStepsKeep(p, v3, s, ops[0]);
      RunStepsKeep(p, v3, Apply(p, s, ops[0]), ops[1..]);
    }
  }

  lemma StepStaysOn(p: Suite, s: Session, step: Step)
    requires step.Adjust? ==> Keeps(s.IsV3(), step.setting)
    ensures Take(p, s, step).IsV3() == s.IsV3()
  {
    StepMovesKey(p, s, step);
  }

  function StaysAs(v3: bool): Session -> bool {
    (now: Session) => now.IsV3() == v3
  }

  lemma PathStaysOn(p: Suite, s: Session, steps: seq<Step>, i: nat)
    requires i <= |steps| && StepsKeep(s.IsV3(), steps)
    ensures Path(Taker(p), s, steps)[i].IsV3() == s.IsV3()
  {
    var stays := StaysAs(s.IsV3());
    forall now: Session, step | step in steps && stays(now)
      ensures stays(Taker(p)(now, step))
    {
      StepStaysOn(p, now, step);
    }
    PathKeeps(Taker(p), stays, s, steps, i);
  }

  /** The packet id counts the writes since the start. */
  predicate Counts(start: Session, now: Session) {
    && |now.line.log| >= |start.line.log|
    && now.packetId == Advance(start.packetId, |now.line.log| - |start.line.log|)
  }

  lemma CountOn(start: Session, before: Session, after: Session, written: seq<Write>)
    requires before.IsV3() && start.IsV3() && Counts(start, before) && MovesLog(written, before, after)
    ensures Counts(start, after)
  {
    AdvancedAdds(start, before, |before.line.log| - |start.line.log|, |written|);
  }

  lemma StepCounts(p: Suite, start: Session, s: Session, step: Step)
    requires s.IsV3() && start.IsV3() && Counts(start, s)
    ensures Counts(start, Take(p, s, step))
  {
    StepMovesLog(p, s, step);
    CountOn(start, s, Take(p, s, step), Written(p, s, step));
  }

  lemma PathMovesLog(p: Suite, s: Session, steps: seq<Step>, i: nat)
    requires i < |steps|
    ensures var path := Path(Taker(p), s, steps); MovesLog(Written(p, path[i], steps[i]), path[i], path[i + 1])
  {
    PathSteps(Taker(p), s, steps, i);
    StepMovesLog(p, Path(Taker(p), s, steps)[i], steps[i]);
  }

  function CountsFrom(start: Session): Session -> bool {
    (now: Session) => now.IsV3() && Counts(start, now)
  }

  lemma PathCounts(p: Suite, s: Session, steps: seq<Step>, i: nat)
    requires i <= |steps| && s.IsV3() && StepsKeep(true, steps)
    ensures Counts(s, Path(Taker(p), s, steps)[i])
  {
    var counts := CountsFrom(s);
    forall now: Session, step | step in steps && counts(now)
      ensures counts(Taker(p)(now, step))
    {
      StepStaysOn(p, now, step);
      StepCounts(p, s, now, step);
    }
    PathKeeps(Taker(p), counts, s, steps, i);
  }

  function FollowsFrom(stream: Bytes): Session -> bool {
    (now: Session) => Follows(Stream(now.line), stream)
  }

  /** The stream of every state is what is left of the stream at the start. */
  lemma PathMovesStream(p: Suite, s: Session, steps: seq<Step>, i: nat)
    requires i <= |steps|
    ensures Follows(Stream(Path(Taker(p), s, steps)[i].line), Stream(s.line))
  {
    var follows := FollowsFrom(Stream(s.line));
    forall now: Session, step | step in steps && follows(now)
      ensures follows(Taker(p)(now, step))
    {
      StepMovesStream(p, now, step);
      FollowsOn(Stream(Take(p, now, step).line), Stream(now.line), Stream(s.line));
    }
    PathKeeps(Taker(p), follows, s, steps, i);
  }

  lemma FollowsOn(c: Bytes, b: Bytes, a: Bytes)
    requires Follows(c, b) && Follows(b, a)
    ensures Follows(c, a)
  {
  }

  /** The reply to the handshake of state `now` is the next part of the stream. */
  predicate IsNextInStream(start: Session, now: Session) {
    var at, reply := |Stream(start.line)| - |Stream(now.line)|, HandshakeReply(now);
    && reply.Ok? && at >= 0 && at + |reply.value| <= |Stream(start.line)|
    && Stream(start.line)[at..at + |reply.value|] == reply.value
  }

  lemma ReplyIsInStream(start: Session, now: Session)
    requires HandshakeReply(now).Ok? && Follows(Stream(now.line), Stream(start.line))
    ensures Accepts(now) && IsNextInStream(start, now)
  {
    ReadTakes(true, WriteTo(now.line, EncodeHandshakeRequest(now.packetId, now.token)).0);
    FrontIsSlice(Stream(start.line), Stream(now.line), HandshakeReply(now).value);
  }

  lemma FrontIsSlice(start: Bytes, now: Bytes, e: Bytes)
    requires Follows(now, start) && |e| <= |now| && now[..|e|] == e
    ensures var at := |start| - |now|; start[at..at + |e|] == e
  {
    assert start[|start| - |now|..][..|e|] == e;
  }

  /**
   The attempt that is step `j` of a run is made under a session key that an earlier step of it, a
   handshake that was accepted, was answered with: the reply is a part of the stream, and its hash is
   right under the key then and now in force. Nothing has given that key up in between.
   */
  ghost predicate IsAnswered(p: Suite, path: seq<Session>, steps: seq<Step>, j: nat)
    requires |path| == |steps| + 1 && j < |path|
  {
    exists i: nat :: Source(Deriving(p), path, steps, i, j) && Accepts(path[i]) && IsNextInStream(path[0], path[i])
  }

  lemma TryIsAnswered(p: Suite, s: Session, steps: seq<Step>, j: nat)
    requires s.localKey == [] && j < |steps| && Path(Taker(p), s, steps)[j].localKey != []
    ensures IsAnswered(p, Path(Taker(p), s, steps), steps, j)
  {
    var path := Path(Taker(p), s, steps);
    forall k | 0 <= k < |steps|
      ensures MovesKey(Deriving(p), path[k], steps[k], path[k + 1])
    {
      PathSteps(Taker(p), s, steps, k);
      StepMovesKey(p, path[k], steps[k]);
    }
    var i := KeyHasSource(Deriving(p), path, steps, j);
    PathMovesStream(p, s, steps, i);
    ReplyIsInStream(s, path[i]);
  }

  /** A handshake as an appliance reads it off the wire: its id and its token. */
  predicate ReadsGreeting(e: Bytes, id: nat, token: Bytes) {
    |e| >= 8 && e[5] == 0 && Wire.High(e[6..8]) == id && e[8..] == token
  }

  /** A command as an appliance reads it: it opens to its id, the packet, and a filler made from the id. */
  predicate ReadsCommand(p: Suite, localKey: Bytes, e: Bytes, id: nat, packet: Bytes) {
    Wire.OpenRequest(p, localKey, e)
    == Some(Wire.Request(id, packet, Repeat((14 - |packet| % 16) % 16, (31 * id + 7) % 256)))
  }

  /** What a step posts carries an id that counts the writes before it. */
  predicate IsNumbered(p: Suite, start: Session, now: Session, step: Step)
    requires |now.line.log| >= |start.line.log|
  {
    var posted, id := Posted(p, now, step), (start.packetId + |now.line.log| - |start.line.log|) % 0x10000;
    posted.Some? ==>
      match step
      case Greet => ReadsGreeting(posted.value, id, now.token)
      case Try(packet) => ReadsCommand(p, now.localKey, posted.value, id, packet)
      case Adjust(_) => false
  }

  lemma GreetingReads(packetId: PacketId, token: Bytes)
    ensures ReadsGreeting(EncodeHandshakeRequest(packetId, token), packetId, token)
  {
    Wire.HandshakeIsLaid(packetId, token);
  }

  lemma CommandReads(p: Suite, packetId: PacketId, localKey: Bytes, packet: Bytes)
    requires |localKey| == 32
    ensures ReadsCommand(p, localKey, Request(p, true, localKey, packet)(packetId), packetId, packet)
  {
    var e, padByte := Request(p, true, localKey, packet)(packetId), (31 * packetId + 7) % 256;
    RequestIsSealed(p, packetId, localKey, packet, padByte);
    SealedReads(p, packetId, localKey, packet, padByte, e);
  }

  lemma RequestIsSealed(p: Suite, packetId: PacketId, localKey: Bytes, packet: Bytes, padByte: byte)
    requires padByte as int == (31 * packetId + 7) % 256
    ensures Request(p, true, localKey, packet)(packetId) == EncodeEncryptedRequest(p, packetId, localKey, packet, padByte)
  {
  }

  lemma SealedReads(p: Suite, packetId: PacketId, localKey: Bytes, packet: Bytes, padByte: byte, e: Bytes)
    requires |localKey| == 32 && e == EncodeEncryptedRequest(p, packetId, localKey, packet, padByte)
    ensures Wire.OpenRequest(p, localKey, e)
         == Some(Wire.Request(packetId, packet, Repeat((14 - |packet| % 16) % 16, padByte)))
  {
    assert packetId % 0x10000 == packetId;
    Wire.RequestIsOpened(p, packetId, localKey, packet, padByte);
  }

  lemma StepIsNumbered(p: Suite, start: Session, now: Session, step: Step)
    requires now.IsV3() && Counts(start, now) && (step.Try? ==> |now.localKey| == 32)
    ensures IsNumbered(p, start, now, step)
  {
    match step
    case Greet => GreetingReads(now.packetId, now.token);
    case Try(packet) => CommandReads(p, now.packetId, now.localKey, packet);
    case Adjust(_) =>
  }

  lemma AnsweredKeyIsLong(p: Suite, path: seq<Session>, steps: seq<Step>, j: nat)
    requires |path| == |steps| + 1 && j < |path| && IsAnswered(p, path, steps, j)
    ensures |path[j].localKey| == 32
  {
    var i: nat :| Source(Deriving(p), path, steps, i, j) && Accepts(path[i]) && IsNextInStream(path[0], path[i]);
  }

  /**
   Every run of a V3 session that began without a session key. What it writes is what its steps post, in
   order, and an appliance reads the ids off it one apart; and every command among that is sealed under a key
   that an earlier handshake of the run was answered with.
   */
  lemma RunIsAccounted(p: Suite, s: Session, ops: seq<Op>)
    requires s.IsV3() && s.localKey == [] && StaysOn(true, ops)
    ensures var steps := RunSteps(p, s, ops);
            var path := Path(Taker(p), s, steps);
            && Last(path) == Run(p, s, ops)
            && (forall i: nat :: i < |steps| ==>
                  Counts(s, path[i]) && path[i + 1].line.log == path[i].line.log + Written(p, path[i], steps[i]))
            && (forall j: nat :: j < |steps| && steps[j].Try? ==> path[j].IsV3() && IsAnswered(p, path, steps, j))
            && (forall i: nat :: i < |steps| ==> IsNumbered(p, s, path[i], steps[i]))
  {
    var steps := RunSteps(p, s, ops);
    var path := Path(Taker(p), s, steps);
    RunUnfolds(p, s, ops);
    RunStepsKeep(p, true, s, ops);
    forall i: nat | i < |steps|
      ensures Counts(s, path[i]) && path[i + 1].line.log == path[i].line.log + Written(p, path[i], steps[i])
    {
      PathMovesLog(p, s, steps, i);
      PathCounts(p, s, steps, i);
    }
    forall j: nat | j < |steps| && steps[j].Try?
      ensures path[j].IsV3() && IsAnswered(p, path, steps, j)
    {
      PathStaysOn(p, s, steps, j);
      TryIsAnswered(p, s, steps, j);
    }
    forall i: nat | i < |steps|
      ensures Counts(s, path[i]) && IsNumbered(p, s, path[i], steps[i])
    {
      PathStaysOn(p, s, steps, i);
      PathCounts(p, s, steps, i);
      if steps[i].Try? { AnsweredKeyIsLong(p, path, steps, i); }
      StepIsNumbered(p, s, path[i], steps[i]);
    }
  }

  // ----- staying on envelope boundaries -----

  /** A step that reads while the next message comes in part. */
  predicate Cut(p: Suite, s: Session, step: Step) {
    var posted := Posted(p, s, step);
    posted.Some? && Accepts(s) && ComesInPart(s.IsV3(), WriteTo(s.line, posted.value).0)
  }

  function Position(start: Session, now: Session): int {
    |Stream(start.line)| - |Stream(now.line)|
  }

  /** The run has taken whole messages of its stream. */
  predicate OnBoundary(start: Session, now: Session) {
    Position(start, now) >= 0 && IsBoundary(start.IsV3(), Stream(start.line), Position(start, now))
  }

  lemma ReadEndsOn(s: Session, line: Line, after: Session)
    requires WellFramed(s.IsV3(), Stream(s.line)) && Stream(line) == Stream(s.line)
    requires after.line == ReadMessage(s.IsV3(), line).0
    ensures OnBoundary(s, after) <==> !ComesInPart(s.IsV3(), line)
    ensures !ComesInPart(s.IsV3(), line) ==> WellFramed(s.IsV3(), Stream(after.line))
  {
    ReadEndsOnBoundaryWhen(s.IsV3(), line);
  }

  lemma StepEndsOnBoundaryWhen(p: Suite, s: Session, step: Step)
    requires WellFramed(s.IsV3(), Stream(s.line))
    ensures OnBoundary(s, Take(p, s, step)) <==> !Cut(p, s, step)
    ensures !Cut(p, s, step) ==> WellFramed(s.IsV3(), Stream(Take(p, s, step).line))
  {
    var posted := Posted(p, s, step);
    if posted.Some? && Accepts(s) {
      StepReads(p, s, step);
      ReadEndsOn(s, WriteTo(s.line, posted.value).0, Take(p, s, step));
    } else {
      StepReadsNothing(p, s, step);
    }
  }

  /** Behind a boundary of the run's stream, a step ends on one exactly when it ends on one of what is left. */
  lemma OnFromBoundary(start: Session, now: Session, after: Session)
    requires OnBoundary(start, now) && now.IsV3() == start.IsV3()
    requires Follows(Stream(now.line), Stream(start.line)) && Follows(Stream(after.line), Stream(now.line))
    ensures OnBoundary(start, after) <==> OnBoundary(now, after)
  {
    BoundaryAdds(start.IsV3(), Stream(start.line), Position(start, now), Position(now, after));
  }

  predicate NoneCut(p: Suite, s: Session, steps: seq<Step>, n: nat)
    requires n <= |steps|
  {
    forall k: nat :: k < n ==> !Cut(p, Path(Taker(p), s, steps)[k], steps[k])
  }

  lemma NextOnBoundaryWhen(p: Suite, s: Session, steps: seq<Step>, i: nat)
    requires i < |steps| && StepsKeep(s.IsV3(), steps)
    requires var now := Path(Taker(p), s, steps)[i]; OnBoundary(s, now) && WellFramed(s.IsV3(), Stream(now.line))
    ensures var path := Path(Taker(p), s, steps);
            && (OnBoundary(s, path[i + 1]) <==> !Cut(p, path[i], steps[i]))
            && (!Cut(p, path[i], steps[i]) ==> WellFramed(s.IsV3(), Stream(path[i + 1].line)))
  {
    var path := Path(Taker(p), s, steps);
    PathStaysOn(p, s, steps, i);
    PathSteps(Taker(p), s, steps, i);
    PathMovesStream(p, s, steps, i);
    StepMovesStream(p, path[i], steps[i]);
    StepEndsOnBoundaryWhen(p, path[i], steps[i]);
    OnFromBoundary(s, path[i], path[i + 1]);
  }

  lemma {:induction false} PathStaysFramed(p: Suite, s: Session, steps: seq<Step>, i: nat)
    requires i <= |steps| && StepsKeep(s.IsV3(), steps) && WellFramed(s.IsV3(), Stream(s.line))
    requires NoneCut(p, s, steps, i)
    ensures var now := Path(Taker(p), s, steps)[i]; OnBoundary(s, now) && WellFramed(s.IsV3(), Stream(now.line))
  {
    if i == 0 {
    } else {
      PathStaysFramed(p, s, steps, i - 1);
      NextOnBoundaryWhen(p, s, steps, i - 1);
    }
  }

  /**
   Over any stream of whole messages with arbitrary contents, delivered in arbitrary pieces: up to the first
   step that is cut the position is on a boundary of the stream after every step of every run, successful
   or not, and that step ends off every boundary.
   */
  lemma RunStaysFramed(p: Suite, s: Session, ops: seq<Op>, i: nat)
    requires StaysOn(s.IsV3(), ops) && WellFramed(s.IsV3(), Stream(s.line))
    requires i <= |RunSteps(p, s, ops)| && NoneCut(p, s, RunSteps(p, s, ops), i)
    ensures var steps := RunSteps(p, s, ops);
            var path := Path(Taker(p), s, steps);
            && OnBoundary(s, path[i]) && WellFramed(s.IsV3(), Stream(path[i].line))
            && (i < |steps| ==> (OnBoundary(s, path[i + 1]) <==> !Cut(p, path[i], steps[i])))
  {
    var steps := RunSteps(p, s, ops);
    RunStepsKeep(p, s.IsV3(), s, ops);
    PathStaysFramed(p, s, steps, i);
    if i < |steps| { NextOnBoundaryWhen(p, s, steps, i); }
  }

  /** So a run is on boundaries throughout exactly when none of its steps is cut. */
  lemma RunStaysOnBoundariesWhen(p: Suite, s: Session, ops: seq<Op>)
    requires StaysOn(s.IsV3(), ops) && WellFramed(s.IsV3(), Stream(s.line))
    ensures var steps := RunSteps(p, s, ops);
            (forall i: nat :: i <= |steps| ==> OnBoundary(s, Path(Taker(p), s, steps)[i]))
            <==> NoneCut(p, s, steps, |steps|)
    ensures NoneCut(p, s, RunSteps(p, s, ops), |RunSteps(p, s, ops)|) ==> OnBoundary(s, Run(p, s, ops))
  {
    var steps := RunSteps(p, s, ops);
    RunUnfolds(p, s, ops);
    if NoneCut(p, s, steps, |steps|) {
      forall i: nat | i <= |steps| ensures OnBoundary(s, Path(Taker(p), s, steps)[i]) {
        RunStaysFramed(p, s, ops, i);
      }
    } else {
      var k := FirstCut(p, s, steps, |steps|);
      RunStaysFramed(p, s, ops, k);
    }
  }

  lemma {:induction false} FirstCut(p: Suite, s: Session, steps: seq<Step>, n: nat) returns (k: nat)
    requires n <= |steps| && !NoneCut(p, s, steps, n)
    ensures k < n && NoneCut(p, s, steps, k) && Cut(p, Path(Taker(p), s, steps)[k], steps[k])
  {
    if NoneCut(p, s, steps, n - 1) {
      k := n - 1;
    } else {
      k := FirstCut(p, s, steps, n - 1);
    }
  }

  lemma StepIsWhole(p: Suite, s: Session, step: Step)
    requires Aligned(s.IsV3(), s.line)
    ensures !Cut(p, s, step) && Aligned(s.IsV3(), Take(p, s, step).line)
  {
    var posted := Posted(p, s, step);
    if posted.Some? && Accepts(s) {
      var line := WriteTo(s.line, posted.value).0;
      assert Aligned(s.IsV3(), line);
      ReadStaysAligned(s.IsV3(), line);
      WholeIsNotInPart(s.IsV3(), line);
    }
    match step
    case Greet => LoginStaysAligned(p, s);
    case Try(packet) => AttemptStaysAligned(p, s, packet);
    case Adjust(_) =>
  }

  lemma {:induction false} PathIsWhole(p: Suite, s: Session, steps: seq<Step>, i: nat)
    requires i <= |steps| && StepsKeep(s.IsV3(), steps) && Aligned(s.IsV3(), s.line)
    ensures var path := Path(Taker(p), s, steps);
            Aligned(s.IsV3(), path[i].line) && (i < |steps| ==> !Cut(p, path[i], steps[i]))
  {
    var path := Path(Taker(p), s, steps);
    PathStaysOn(p, s, steps, i);
    if i > 0 {
      PathIsWhole(p, s, steps, i - 1);
      PathStaysOn(p, s, steps, i - 1);
      PathSteps(Taker(p), s, steps, i - 1);
      StepIsWhole(p, path[i - 1], steps[i - 1]);
    }
    if i < |steps| { StepIsWhole(p, path[i], steps[i]); }
  }

  /** A peer that delivers whole messages never has a read cut off: its runs stay on boundaries to the end. */
  lemma WholeDeliveriesAreNotCut(p: Suite, s: Session, ops: seq<Op>)
    requires StaysOn(s.IsV3(), ops) && Aligned(s.IsV3(), s.line)
    ensures NoneCut(p, s, RunSteps(p, s, ops), |RunSteps(p, s, ops)|)
    ensures Aligned(s.IsV3(), Run(p, s, ops).line)
  {
    var steps := RunSteps(p, s, ops);
    RunUnfolds(p, s, ops);
    RunStepsKeep(p, s.IsV3(), s, ops);
    forall k: nat | k < |steps|
      ensures !Cut(p, Path(Taker(p), s, steps)[k], steps[k])
    {
      PathIsWhole(p, s, steps, k);
    }
    PathIsWhole(p, s, steps, |steps|);
  }

  // ----- replies -----

  /**
   A reply is returned only from a whole message, taken off the front of the stream, that opens: in V3 under
   the session key to a packet, and the packet to the frame.
   */
  lemma ReplyIsOpened(p: Suite, s: Session, packet: Bytes) returns (e: Bytes)
    requires SendOnce(p, s, packet).1.Ok?
    ensures Stream(s.line) == e + Stream(SendOnce(p, s, packet).0.line)
    ensures var inner := if s.IsV3() then DecodeEncryptedResponse(p, s.localKey, e) else Some(e);
            inner.Some? && DecodePacket(p, inner.value) == Some(SendOnce(p, s, packet).1.value)
  {
    var line1 := WriteTo(s.line, Request(p, s.IsV3(), s.localKey, packet)(s.packetId)).0;
    ReadTakes(s.IsV3(), line1);
    e := ReadMessage(s.IsV3(), line1).1.value;
  }
}
