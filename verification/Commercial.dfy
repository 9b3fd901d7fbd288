/**
 Controls of commercial units: ids high byte first, a value, and a terminator behind each. Values are real
 numbers here; temperatures travel in half degrees above forty below zero.
 */
module Commercial {
  import opened ByteStrings
  import opened Tlv
  import opened Frame

  type ControlId = n: nat | n < 0x10000

  const TARGET_TEMPERATURE: ControlId := 0x0003
  const TERMINATOR: byte := 0xFF

  type Controls = map<ControlId, real>

  type Item = (ControlId, real)

  // ----- values -----

  /** The conversion of a floating-point number to `int`: toward zero. */
  function Truncate(x: real): int {
    if x >= 0.0 then x.Floor else -((-x).Floor)
  }

  function EncodeControl(id: ControlId, value: real): byte {
    (if id == TARGET_TEMPERATURE then Truncate(2.0 * value + 80.0) else Truncate(value)) % 256
  }

  function DecodeControl(id: ControlId, data: Bytes): Option<real> {
    if data == [] then None
    else if id == TARGET_TEMPERATURE then Some(data[0] as real / 2.0 - 40.0)
    else Some(data[0] as real)
  }

  /** The values a control can hold: half degrees from -40 to 87.5, or whole numbers that fit a byte. */
  predicate Exact(id: ControlId, value: real) {
    var units := if id == TARGET_TEMPERATURE then 2.0 * value + 80.0 else value;
    units == units.Floor as real && 0 <= units.Floor < 256
  }

  lemma ControlRoundTrip(id: ControlId, value: real)
    ensures DecodeControl(id, [EncodeControl(id, value)]) == Some(value) <==> Exact(id, value)
  {
    var units := if id == TARGET_TEMPERATURE then 2.0 * value + 80.0 else value;
    var sent: int := EncodeControl(id, value);
    if Exact(id, value) {
      assert Truncate(units) == units.Floor;
    }
    if DecodeControl(id, [EncodeControl(id, value)]) == Some(value) {
      assert units == sent as real;
    }
  }

  // ----- building -----

  function ControlEntry(item: Item): Entry {
    Entry([item.0 / 256, item.0 % 256, 1], [EncodeControl(item.0, item.1), TERMINATOR])
  }

  function ControlEntries(items: seq<Item>): (r: seq<Entry>)
    ensures |r| == |items|
  {
    if items == [] then [] else [ControlEntry(items[0])] + ControlEntries(items[1..])
  }

  function ControlPayload(items: seq<Item>): Bytes {
    Lay(Joined(), ControlEntries(items))
  }

  function ControlFrame(items: seq<Item>, messageId: byte): Bytes {
    WrapCommand(DEVICE_TYPE_CC, FRAME_TYPE_CONTROL, ControlPayload(items), messageId)
  }

  method BuildControlFrame(items: seq<Item>, messageId: byte) returns (frame: Bytes)
    ensures frame == ControlFrame(items, messageId)
  {
    var payload: Bytes := [];
    for i := 0 to |items|
      invariant ControlPayload(items) == payload + ControlPayload(items[i..])
    {
      assert items[i..][1..] == items[i + 1..];
      PayloadSplit(items[i..]);
      Regroup(payload, Joined()(ControlEntry(items[i])), ControlPayload(items[i + 1..]));
      var encoded := EncodeControl(items[i].0, items[i].1);
      payload := payload + ([items[i].0 / 256, items[i].0 % 256, 1] + [encoded, TERMINATOR]);
    }
    assert payload == ControlPayload(items);
    frame := BuildCommand(DEVICE_TYPE_CC, FRAME_TYPE_CONTROL, payload, messageId);
  }

  lemma PayloadSplit(items: seq<Item>)
    requires items != []
    ensures ControlPayload(items) == Joined()(ControlEntry(items[0])) + ControlPayload(items[1..])
  {
    assert ControlEntries(items)[1..] == ControlEntries(items[1..]);
  }

  // ----- parsing -----

  /** What follows the header: the value and its terminator, or two bytes that are skipped if it is empty. */
  function Terminated(): byte -> nat {
    (size: byte) => if size == 0 then 2 else size as nat + 1
  }

  function Record(): (Controls, Entry) -> Controls {
    (controls: Controls, e: Entry) =>
      if |e.head| != 3 || e.head[2] == 0 || |e.data| < e.head[2] as int then controls
      else
        var id := 256 * e.head[0] as int + e.head[1] as int;
        match DecodeControl(id, e.data[..e.head[2]])
        case None => controls
        case Some(value) => controls[id := value]
  }

  /** The walk has no count: the length of the body bounds it. */
  function ParseFrame(frame: Bytes, before: Controls): Option<Controls> {
    if |frame| < 17 || frame[0] != 0xAA then None
    else Some(Fold(Record(), before, Walk(Headed(3, Terminated()), Body(frame), |Body(frame)|).0))
  }

  /** The loop of the parser. Every step takes five bytes at least, so it ends on any input. */
  method ParseControlFrame(frame: Bytes, before: Controls) returns (controls: Option<Controls>)
    ensures controls == ParseFrame(frame, before)
  {
    if |frame| < 17 || frame[0] != 0xAA {
      return None;
    }
    var p := frame[10..|frame| - 1];
    var out := Collect(Record(), before, p, Headed(3, Terminated()));
    OutcomeIsFold(Record(), before, Headed(3, Terminated()), p, |p|);
    controls := Some(out);
  }

  method Collect<S>(update: (S, Entry) -> S, before: S, p: Bytes, ghost layout: Layout) returns (out: S)
    requires layout == Headed(3, Terminated())
    ensures out == Outcome(update, before, layout, p, |p|).0
  {
    out := before;
    var pos := 0;
    ghost var left := |p|;
    assert p[0..] == p;
    while pos + 5 <= |p|
      invariant pos <= |p| && left >= |p| - pos
      invariant Outcome(update, before, layout, p, |p|) == Outcome(update, out, layout, p[pos..], left)
      decreases |p| - pos
    {
      var e, next := EntryAt(3, Terminated(), p, pos);
      if e.None? {
        return;
      }
      out := update(out, e.value);
      pos := next;
      left := left - 1;
    }
    TooShort(p, pos);
  }

  lemma TooShort(p: Bytes, pos: nat)
    requires pos <= |p|
    ensures |p| < pos + 5 ==> Headed(3, Terminated())(p[pos..]) == None
  {
  }

  // ----- a request read back -----

  lemma {:induction false} ControlEntriesFit(items: seq<Item>)
    ensures forall e :: e in ControlEntries(items) ==> IsHeaded(3, Terminated())(e)
    ensures |ControlPayload(items)| == 5 * |items|
  {
    if items == [] {
    } else {
      ControlEntriesFit(items[1..]);
      PayloadSplit(items);
    }
  }

  function Updated(controls: Controls, items: seq<Item>): Controls
    decreases |items|
  {
    if items == [] then controls else Updated(controls[items[0].0 := items[0].1], items[1..])
  }

  lemma ControlIsRecorded(controls: Controls, item: Item)
    requires Exact(item.0, item.1)
    ensures Record()(controls, ControlEntry(item)) == controls[item.0 := item.1]
  {
    ControlRoundTrip(item.0, item.1);
    var e := ControlEntry(item);
    assert e.data[..e.head[2]] == [EncodeControl(item.0, item.1)];
    assert 256 * (item.0 / 256) + item.0 % 256 == item.0;
  }

  lemma {:induction false} ControlsAreRecorded(controls: Controls, items: seq<Item>)
    requires forall item :: item in items ==> Exact(item.0, item.1)
    ensures Fold(Record(), controls, ControlEntries(items)) == Updated(controls, items)
    decreases |items|
  {
    if items == [] {
    } else {
      assert items[0] in items;
      ControlIsRecorded(controls, items[0]);
      ControlsAreRecorded(controls[items[0].0 := items[0].1], items[1..]);
      assert ControlEntries(items)[1..] == ControlEntries(items[1..]);
    }
  }

  /** The walk of a request stops before its message id and CRC: two bytes are no entry. */
  lemma ControlsAreWalked(items: seq<Item>, trailer: Bytes)
    requires |trailer| == 2
    ensures var body := ControlPayload(items) + trailer;
            Walk(Headed(3, Terminated()), body, |body|).0 == ControlEntries(items)
  {
    ControlEntriesFit(items);
    HeadedCodes(3, Terminated());
    var body := ControlPayload(items) + trailer;
    LongestIsWalk(Headed(3, Terminated()), Joined(), IsHeaded(3, Terminated()), ControlEntries(items), trailer, |body|);
  }

  lemma BodyOfControls(items: seq<Item>, messageId: byte) returns (trailer: Bytes)
    ensures |trailer| == 2 && |ControlFrame(items, messageId)| == 13 + |ControlPayload(items)|
    ensures ControlFrame(items, messageId)[0] == 0xAA
    ensures Body(ControlFrame(items, messageId)) == ControlPayload(items) + trailer
  {
    CommandHasZeroResidue(DEVICE_TYPE_CC, FRAME_TYPE_CONTROL, ControlPayload(items), messageId);
    trailer := Body(ControlFrame(items, messageId))[|ControlPayload(items)|..];
  }

  /** Every request of at least one control with exact values is read back whole; an empty one is refused. */
  lemma ControlsSurvive(items: seq<Item>, messageId: byte, before: Controls)
    requires forall item :: item in items ==> Exact(item.0, item.1)
    ensures ParseFrame(ControlFrame(items, messageId), before)
         == if items == [] then None else Some(Updated(before, items))
  {
    var trailer := BodyOfControls(items, messageId);
    ControlEntriesFit(items);
    ControlsAreWalked(items, trailer);
    ControlsAreRecorded(before, items);
  }

  // ----- the request by offsets -----

  /** Five bytes a control: its id, high byte first, the length one, the value and the terminator. */
  lemma {:induction false} ControlsAreLaid(items: seq<Item>, i: nat)
    requires i < |items|
    ensures |ControlPayload(items)| == 5 * |items|
    ensures ControlPayload(items)[5 * i..5 * i + 5]
         == [items[i].0 / 256, items[i].0 % 256, 1, EncodeControl(items[i].0, items[i].1), 0xFF]
    decreases i
  {
    ControlEntriesFit(items);
    PayloadSplit(items);
    var first, later := Joined()(ControlEntry(items[0])), ControlPayload(items[1..]);
    if i == 0 {
      assert (first + later)[..5] == first;
    } else {
      ControlsAreLaid(items[1..], i - 1);
      SliceBehind(first, later, 5 * (i - 1), 5 * (i - 1) + 5);
    }
  }

  lemma SliceBehind(a: Bytes, b: Bytes, n: nat, m: nat)
    requires n <= m <= |b|
    ensures (a + b)[|a| + n..|a| + m] == b[n..m]
  {
    assert (a + b)[|a|..] == b;
    assert forall k :: n <= k < m ==> (a + b)[|a| + k] == b[k];
  }

  /** A setpoint travels in half degrees above forty below zero, under the id three. */
  lemma SetpointIsSent(halfDegrees: byte)
    ensures EncodeControl(0x0003, halfDegrees as real / 2.0 - 40.0) == halfDegrees
    ensures DecodeControl(0x0003, [halfDegrees]) == Some(halfDegrees as real / 2.0 - 40.0)
  {
    assert 2.0 * (halfDegrees as real / 2.0 - 40.0) + 80.0 == halfDegrees as real;
  }

  /** A step of the parser: five bytes if the value is empty, else its size and four, if so many are left. */
  lemma StepIs(p: Bytes)
    ensures Headed(3, Terminated())(p)
         == if |p| < 5 then None
            else if p[2] == 0 then Some((Entry(p[..3], p[3..5]), p[5..]))
            else if |p| < 4 + p[2] as nat then None
            else Some((Entry(p[..3], p[3..4 + p[2] as nat]), p[4 + p[2] as nat..]))
  {
  }

  /** What a step records: the value under its id, high byte first, if it can be decoded. */
  lemma EntryIsRecorded(controls: Controls, e: Entry)
    requires |e.head| == 3 && |e.data| == if e.head[2] == 0 then 2 else e.head[2] as nat + 1
    ensures Record()(controls, e)
         == if e.head[2] == 0 then controls
            else controls[256 * e.head[0] as int + e.head[1] as int :=
                            if e.head[0] == 0 && e.head[1] == 3 then e.data[0] as real / 2.0 - 40.0 else e.data[0] as real]
  {
  }
}
