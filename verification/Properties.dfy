/**
 The property channel: values of sixteen-bit ids, each encoded in its own way. A set request has a
 three-byte header before each value, a response a fourth byte of flags.
 */
module Properties {
  import opened ByteStrings
  import opened Tlv
  import opened Frame

  const SWING_UD_ANGLE: Id := 0x0009
  const SWING_LR_ANGLE: Id := 0x000A
  const BREEZELESS: Id := 0x0018
  const BUZZER: Id := 0x001A
  const SELF_CLEAN: Id := 0x0039
  const BREEZE_AWAY: Id := 0x0042
  const BREEZE_CONTROL: Id := 0x0043
  const RATE_SELECT: Id := 0x0048
  const FRESH_AIR: Id := 0x004B
  const CASCADE: Id := 0x0059
  const FLASH: Id := 0x0067
  const OUT_SILENT: Id := 0x00CD
  const IECO: Id := 0x00E3

  predicate Supported(id: Id) {
    || id == BREEZE_AWAY || id == BREEZE_CONTROL || id == BREEZELESS || id == BUZZER || id == CASCADE
    || id == FLASH || id == FRESH_AIR || id == IECO || id == OUT_SILENT || id == RATE_SELECT
    || id == SELF_CLEAN || id == SWING_LR_ANGLE || id == SWING_UD_ANGLE
  }

  function Flag(value: int): byte {
    if value != 0 then 1 else 0
  }

  /** The bytes a property expects; an `int` is cut to its low byte. */
  function EncodeProperty(id: Id, value: int): (r: Bytes)
    ensures |r| <= 13
  {
    if !Supported(id) then []
    else if id == BREEZE_AWAY then [if value != 0 then 2 else 1]
    else if id == CASCADE then [Flag(value), value % 256]
    else if id == FRESH_AIR then [Flag(value), value % 256, 0xFF]
    else if id == IECO then [0, 1, Flag(value)] + Repeat(10, 0)
    else if id == OUT_SILENT then [if value != 0 then 3 else 0]
    else [value % 256]
  }

  function DecodeProperty(id: Id, data: Bytes): Option<int> {
    if !Supported(id) || data == [] || id == BUZZER then None
    else if id == BREEZELESS || id == FLASH || id == SELF_CLEAN then Some(if data[0] != 0 then 1 else 0)
    else if id == BREEZE_AWAY then Some(if data[0] == 2 then 1 else 0)
    else if id == CASCADE || id == FRESH_AIR then
      if |data| < 2 then None else Some(if data[0] != 0 then data[1] as int else 0)
    else if id == IECO then
      if |data| < 2 then None else Some(if data[1] != 0 then 1 else 0)
    else if id == OUT_SILENT then Some(if data[0] == 3 then 1 else 0)
    else Some(data[0] as int)
  }

  /** The values a property can hold and give back. */
  predicate Representable(id: Id, value: int) {
    if !Supported(id) || id == BUZZER then false
    else if id == BREEZELESS || id == FLASH || id == SELF_CLEAN || id == BREEZE_AWAY || id == OUT_SILENT then 0 <= value <= 1
    else if id == IECO then value == 1
    else 0 <= value < 256
  }

  /**
   A value survives encoding and decoding exactly when it is representable. Of the two layouts of IECO the
   second byte of a request is the one a response keeps its switch in, so it always reads as on.
   */
  lemma PropertyRoundTrip(id: Id, value: int)
    ensures DecodeProperty(id, EncodeProperty(id, value)) == Some(value) <==> Representable(id, value)
  {
    if Supported(id) && id != BUZZER {
      assert EncodeProperty(id, value) != [];
    }
  }

  // ----- building -----

  type Item = (Id, int)

  /** An entry of a set request: the id, low byte first, and the length of its value. */
  function SetEntry(item: Item): Entry {
    var data := EncodeProperty(item.0, item.1);
    Entry([item.0 % 256, item.0 / 256, |data|], data)
  }

  function SetEntries(items: seq<Item>): (r: seq<Entry>)
    ensures |r| == |items|
  {
    if items == [] then [] else [SetEntry(items[0])] + SetEntries(items[1..])
  }

  const SET_PROPERTIES: byte := 0xB0
  const PROPERTIES: byte := 0xB1

  function SetPayload(items: seq<Item>): Bytes {
    [SET_PROPERTIES, |items| % 256] + Lay(Joined(), SetEntries(items))
  }

  function SetFrame(items: seq<Item>, messageId: byte): Bytes {
    WrapCommand(DEVICE_TYPE_AC, FRAME_TYPE_CONTROL, SetPayload(items), messageId)
  }

  method BuildSetFrame(items: seq<Item>, messageId: byte) returns (frame: Bytes)
    ensures frame == SetFrame(items, messageId)
  {
    var payload: Bytes := [SET_PROPERTIES, |items| % 256];
    for i := 0 to |items|
      invariant SetPayload(items) == payload + Lay(Joined(), SetEntries(items[i..]))
    {
      var item := items[i];
      assert items[i..][1..] == items[i + 1..];
      var encoded := EncodeProperty(item.0, item.1);
      EntriesSplit(items[i..]);
      Regroup(payload, Joined()(SetEntry(item)), Lay(Joined(), SetEntries(items[i + 1..])));
      payload := payload + ([item.0 % 256, item.0 / 256, |encoded|] + encoded);
    }
    assert payload == SetPayload(items);
    frame := BuildCommand(DEVICE_TYPE_AC, FRAME_TYPE_CONTROL, payload, messageId);
  }

  lemma EntriesSplit(items: seq<Item>)
    requires items != []
    ensures Lay(Joined(), SetEntries(items)) == Joined()(SetEntry(items[0])) + Lay(Joined(), SetEntries(items[1..]))
  {
  }

  // ----- parsing -----

  /** The value an entry of a response reports: none if it is empty, was refused, or cannot be decoded. */
  function Reported(e: Entry): Option<Item>
    requires |e.head| == 4
  {
    var id := IdOf(e);
    if e.data == [] || (e.head[2] / 16) % 2 == 1 then None
    else
      match DecodeProperty(id, e.data)
      case None => None
      case Some(value) => Some((id, value))
  }

  type Values = map<Id, int>

  function Record(): (Values, Entry) -> Values {
    (values: Values, e: Entry) =>
      if |e.head| == 4 && Reported(e).Some? then values[Reported(e).value.0 := Reported(e).value.1] else values
  }

  /** What a response adds to the values known before; none if it is no such response. */
  function ParseFrame(frame: Bytes, before: Values): Option<Values> {
    if |frame| < 13 || frame[0] != 0xAA then None
    else
      var payload := Body(frame);
      if payload[0] != PROPERTIES && payload[0] != SET_PROPERTIES then None
      else Some(Fold(Record(), before, Walk(Headed(4, Plain()), payload[2..], payload[1]).0))
  }

  method ParsePropertiesFrame(frame: Bytes, before: Values) returns (values: Option<Values>)
    ensures values == ParseFrame(frame, before)
  {
    if |frame| < 13 || frame[0] != 0xAA {
      return None;
    }
    var payload := frame[10..|frame| - 1];
    if payload[0] != PROPERTIES && payload[0] != SET_PROPERTIES {
      return None;
    }
    var out, pos := WalkFold(Record(), before, 4, payload[2..], payload[1]);
    values := Some(out);
  }

  // ----- what a parse finds -----

  /** A parse folds the longest run of entries in bounds, however the count and the lengths were set. */
  lemma ParseIsFold(frame: Bytes, before: Values) returns (entries: seq<Entry>, rest: Bytes)
    requires ParseFrame(frame, before).Some?
    ensures Body(frame)[2..] == Lay(Joined(), entries) + rest
    ensures IsLongest(Headed(4, Plain()), IsHeaded(4, Plain()), entries, rest, Body(frame)[1])
    ensures ParseFrame(frame, before).value == Fold(Record(), before, entries)
  {
    HeadedCodes(4, Plain());
    WalkIsLongest(Headed(4, Plain()), Joined(), IsHeaded(4, Plain()), Body(frame)[2..], Body(frame)[1]);
    var walked := Walk(Headed(4, Plain()), Body(frame)[2..], Body(frame)[1]);
    entries, rest := walked.0, walked.1;
  }

  predicate Reports(e: Entry, id: Id) {
    |e.head| == 4 && Reported(e).Some? && Reported(e).value.0 == id
  }

  /** What the last entry that reports an id says. */
  function LastReport(entries: seq<Entry>, id: Id): Option<int>
    decreases |entries|
  {
    if entries == [] then None
    else
      var last := entries[|entries| - 1];
      if Reports(last, id) then Some(Reported(last).value.1) else LastReport(entries[..|entries| - 1], id)
  }

  /** The last entry that reports an id gives its value, and an id that none reports keeps what it had. */
  lemma {:induction false} LastReportWins(before: Values, entries: seq<Entry>, id: Id)
    ensures var after, last := Fold(Record(), before, entries), LastReport(entries, id);
            && (id in after <==> last.Some? || id in before)
            && (last.Some? ==> after[id] == last.value)
            && (last.None? && id in before ==> after[id] == before[id])
    decreases |entries|
  {
    if entries == [] {
    } else {
      var front, last := entries[..|entries| - 1], entries[|entries| - 1];
      LastReportWins(before, front, id);
      FoldAppends(Record(), before, front, [last]);
      assert front + [last] == entries && [last][1..] == [];
    }
  }

  // ----- a request read back -----

  /** A device's response for an entry of a request: the same with a byte of clear flags. */
  function Confirm(e: Entry): Entry
    requires |e.head| == 3
  {
    Entry([e.head[0], e.head[1], 0, e.head[2]], e.data)
  }

  function ConfirmAll(entries: seq<Entry>): (r: seq<Entry>)
    requires forall e :: e in entries ==> |e.head| == 3
    ensures |r| == |entries|
  {
    if entries == [] then [] else [Confirm(entries[0])] + ConfirmAll(entries[1..])
  }

  /** The entries of a request frame. */
  function Requested(frame: Bytes): seq<Entry>
    requires |frame| >= 13
  {
    Walk(Headed(3, Plain()), Body(frame)[2..], Body(frame)[1]).0
  }

  function Response(kind: byte, entries: seq<Entry>, messageId: byte): Bytes {
    WrapCommand(DEVICE_TYPE_AC, FRAME_TYPE_QUERY, [kind, |entries| % 256] + Lay(Joined(), entries), messageId)
  }

  lemma {:induction false} SetEntriesFit(items: seq<Item>)
    ensures forall e :: e in SetEntries(items) ==> IsHeaded(3, Plain())(e) && |e.head| == 3
  {
    if items == [] {
    } else {
      SetEntriesFit(items[1..]);
    }
  }

  /** A request is read back, by the layout of requests, as the entries it was built from. */
  lemma RequestIsRead(items: seq<Item>, messageId: byte)
    requires |items| < 256
    ensures |SetFrame(items, messageId)| >= 13 && Requested(SetFrame(items, messageId)) == SetEntries(items)
  {
    var entries, count := SetEntries(items), |items| % 256;
    var rest := CountedBody(DEVICE_TYPE_AC, FRAME_TYPE_CONTROL, SET_PROPERTIES, count, Lay(Joined(), entries), messageId);
    SetEntriesFit(items);
    EntriesAreWalked(3, entries, rest, Body(SetFrame(items, messageId)));
  }

  lemma ResponseIsFolded(kind: byte, entries: seq<Entry>, messageId: byte, before: Values)
    requires kind == PROPERTIES || kind == SET_PROPERTIES
    requires |entries| < 256 && forall e :: e in entries ==> IsHeaded(4, Plain())(e)
    ensures ParseFrame(Response(kind, entries, messageId), before) == Some(Fold(Record(), before, entries))
  {
    var count := |entries| % 256;
    var rest := CountedBody(DEVICE_TYPE_AC, FRAME_TYPE_QUERY, kind, count, Lay(Joined(), entries), messageId);
    EntriesAreWalked(4, entries, rest, Body(Response(kind, entries, messageId)));
  }

  function Updated(values: Values, items: seq<Item>): Values
    decreases |items|
  {
    if items == [] then values else Updated(values[items[0].0 := items[0].1], items[1..])
  }

  lemma ConfirmedIsReported(item: Item)
    requires Representable(item.0, item.1)
    ensures Reported(Confirm(SetEntry(item))) == Some(item)
  {
    PropertyRoundTrip(item.0, item.1);
    assert item.0 % 256 + 256 * (item.0 / 256) == item.0;
  }

  lemma {:induction false} ConfirmedIsRecorded(values: Values, items: seq<Item>)
    requires forall item :: item in items ==> Representable(item.0, item.1)
    ensures forall e :: e in SetEntries(items) ==> |e.head| == 3
    ensures Fold(Record(), values, ConfirmAll(SetEntries(items))) == Updated(values, items)
    ensures forall e :: e in ConfirmAll(SetEntries(items)) ==> IsHeaded(4, Plain())(e)
    decreases |items|
  {
    SetEntriesFit(items);
    if items == [] {
    } else {
      var first := items[0];
      assert first in items;
      ConfirmedIsReported(first);
      ConfirmedIsRecorded(values[first.0 := first.1], items[1..]);
      assert SetEntries(items)[1..] == SetEntries(items[1..]);
      assert ConfirmAll(SetEntries(items))[1..] == ConfirmAll(SetEntries(items[1..]));
    }
  }

  /** A device that confirms every entry of a set request, with clear flags, is understood to have done so. */
  lemma ConfirmedSetIsParsed(items: seq<Item>, kind: byte, messageId: byte, replyId: byte, before: Values)
    requires |items| < 256 && forall item :: item in items ==> Representable(item.0, item.1)
    requires kind == PROPERTIES || kind == SET_PROPERTIES
    ensures var frame := SetFrame(items, messageId);
            && |frame| >= 13 && (forall e :: e in Requested(frame) ==> |e.head| == 3)
            && ParseFrame(Response(kind, ConfirmAll(Requested(frame)), replyId), before) == Some(Updated(before, items))
  {
    RequestIsRead(items, messageId);
    ConfirmedIsRecorded(before, items);
    ResponseIsFolded(kind, ConfirmAll(SetEntries(items)), replyId, before);
  }

  // ----- what a set request means -----

  /** A set request, read by the layout of each property: switches, and values that come with one. */
  function SetMeaning(id: Id, data: Bytes): Option<int> {
    if id == 0x0042 then
      if data == [2] then Some(1) else if data == [1] then Some(0) else None
    else if id == 0x0059 then
      if |data| == 2 && (data[0] == 1 <==> data[1] != 0) && data[0] <= 1 then Some(data[1] as int) else None
    else if id == 0x004B then
      if |data| == 3 && (data[0] == 1 <==> data[1] != 0) && data[0] <= 1 && data[2] == 0xFF then Some(data[1] as int) else None
    else if id == 0x00E3 then
      if |data| == 13 && data[..2] == [0, 1] && data[2] <= 1 && data[3..] == Repeat(10, 0) then Some(data[2] as int) else None
    else if id == 0x00CD then
      if data == [3] then Some(1) else if data == [0] then Some(0) else None
    else if id in {0x0009, 0x000A, 0x0018, 0x001A, 0x0039, 0x0043, 0x0048, 0x0067} then
      if |data| == 1 then Some(data[0] as int) else None
    else None
  }

  /** Every value a property can be set to is what its request means, buzzer and switches turned off included. */
  lemma RequestMeans(id: Id, value: int)
    requires Supported(id) && 0 <= value < 256
    requires id in {0x0042, 0x00E3, 0x00CD} ==> value <= 1
    ensures SetMeaning(id, EncodeProperty(id, value)) == Some(value)
  {
    if id == IECO {
      var data := EncodeProperty(id, value);
      assert data[3..] == Repeat(10, 0) && data[..2] == [0, 1];
    }
  }

  /** Exactly the ids of the channel have a value. */
  lemma RequestIsEmptyWhen(id: Id, value: int)
    ensures EncodeProperty(id, value) == []
       <==> id !in {0x0042, 0x0043, 0x0018, 0x001A, 0x0059, 0x0067, 0x004B, 0x00E3, 0x00CD, 0x0048, 0x0039, 0x000A, 0x0009}
  {
    if Supported(id) {
      assert |EncodeProperty(id, value)| > 0;
    }
  }

  /** An entry of a request: the id, low byte first, the length of the value, and the value. */
  lemma EntryIsLaid(item: Item)
    ensures var e := SetEntry(item);
            && |e.head| == 3 && e.head[0] as int + 256 * e.head[1] as int == item.0 && e.head[2] as int == |e.data|
            && e.data == EncodeProperty(item.0, item.1)
  {
  }

  /** The payload of a request: its kind, the number of entries, and the entries one behind the other. */
  lemma PayloadIsLaid(items: seq<Item>)
    ensures SetPayload(items)[..2] == [0xB0, |items| % 256]
    ensures SetPayload(items)[2..] == Laid(items)
  {
    LaidIs(items);
  }

  function Laid(items: seq<Item>): Bytes {
    if items == [] then []
    else
      var data := EncodeProperty(items[0].0, items[0].1);
      [items[0].0 % 256, items[0].0 / 256, |data|] + data + Laid(items[1..])
  }

  lemma {:induction false} LaidIs(items: seq<Item>)
    ensures Lay(Joined(), SetEntries(items)) == Laid(items)
  {
    if items == [] {
    } else {
      EntriesSplit(items);
      LaidIs(items[1..]);
    }
  }

  // ----- what a report means -----

  /** What an appliance reports of a property, by its own layout; none if there is too little, or nothing to report. */
  function ReportMeaning(id: Id, data: Bytes): Option<int> {
    if data == [] then None
    else if id in {0x0018, 0x0067, 0x0039} then Some(if data[0] == 0 then 0 else 1)
    else if id == 0x0042 then Some(if data[0] == 2 then 1 else 0)
    else if id in {0x0059, 0x004B} then
      if |data| == 1 then None else Some(if data[0] == 0 then 0 else data[1] as int)
    else if id == 0x00E3 then
      if |data| == 1 then None else Some(if data[1] == 0 then 0 else 1)
    else if id == 0x00CD then Some(if data[0] == 3 then 1 else 0)
    else if id in {0x0043, 0x0048, 0x0009, 0x000A} then Some(data[0] as int)
    else None
  }

  /** An entry counts unless the appliance refuses it, and then for what it reports. */
  lemma ReportIsRecorded(values: Values, e: Entry)
    requires |e.head| == 4
    ensures var id := e.head[0] as int + 256 * e.head[1] as int;
            Record()(values, e)
            == if (e.head[2] / 16) % 2 == 1 || ReportMeaning(id, e.data).None? then values
               else values[id := ReportMeaning(id, e.data).value]
  {
  }
}
