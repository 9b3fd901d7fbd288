/**
 Capability replies: what an appliance can do, accumulated over one reply or two. Most capabilities write
 one field; some write several, and two write a field only if their value is long enough.
 */
module Capabilities {
  import opened ByteStrings
  import opened Tlv
  import opened Frame

  const CAPABILITIES: byte := 0xB5

  const SWING_UD_ANGLE: Id := 0x0009
  const SWING_LR_ANGLE: Id := 0x000A
  const BREEZELESS: Id := 0x0018
  const SMART_EYE: Id := 0x0030
  const WIND_ON_ME: Id := 0x0032
  const WIND_OFF_ME: Id := 0x0033
  const SELF_CLEAN: Id := 0x0039
  const BREEZE_AWAY: Id := 0x0042
  const BREEZE_CONTROL: Id := 0x0043
  const RATE_SELECT: Id := 0x0048
  const FRESH_AIR: Id := 0x004B
  const CASCADE: Id := 0x0059
  const FLASH: Id := 0x0067
  const AUX_FAN_SPEED_CONTROL: Id := 0x0093
  const AUX_HEAT_FAN_SPEED_CONTROL: Id := 0x0094
  const OUT_SILENT: Id := 0x00CD
  const PRESET_IECO: Id := 0x00E3
  const FAN_SPEED_CONTROL: Id := 0x0210
  const PRESET_ECO: Id := 0x0212
  const PRESET_FREEZE_PROTECTION: Id := 0x0213
  const MODES: Id := 0x0214
  const SWING_MODES: Id := 0x0215
  const ENERGY: Id := 0x0216
  const FILTER_REMIND: Id := 0x0217
  const AUX_ELECTRIC_HEAT: Id := 0x0219
  const PRESET_TURBO: Id := 0x021A
  const ANION: Id := 0x021E
  const HUMIDITY: Id := 0x021F
  const FAHRENHEIT: Id := 0x0222
  const DISPLAY_CONTROL: Id := 0x0224
  const TEMPERATURES: Id := 0x0225
  const BUZZER: Id := 0x022C

  /** The capabilities that write one flag, which bears their name. */
  type Sole = id: Id | id in SOLE witness ANION

  const SOLE: set<Id> :=
    {SWING_UD_ANGLE, SWING_LR_ANGLE, BREEZELESS, SMART_EYE, WIND_ON_ME, WIND_OFF_ME, SELF_CLEAN, BREEZE_AWAY,
     BREEZE_CONTROL, FRESH_AIR, CASCADE, FLASH, AUX_FAN_SPEED_CONTROL, AUX_HEAT_FAN_SPEED_CONTROL, OUT_SILENT,
     PRESET_ECO, PRESET_FREEZE_PROTECTION, AUX_ELECTRIC_HEAT, ANION, FAHRENHEIT, DISPLAY_CONTROL, BUZZER}

  datatype Field =
    | Flagged(capability: Sole)
    | Rate(rate: RateField)
    | Ieco(ieco: IecoField)
    | Fan(fan: FanField)
    | Mode(mode: ModeField)
    | Swing(swing: SwingField)
    | Energy(energy: EnergyField)
    | Filter(filter: FilterField)
    | Turbo(turbo: TurboField)
    | Humidity(humidity: HumidityField)
    | Limit(limit: LimitField)

  datatype RateField = TwoLevels | FiveLevels
  datatype IecoField = Start | End
  datatype FanField = AnyFan | Silent | Low | Medium | High | AutoFan | Custom
  datatype ModeField = Heat | Cool | Dry | Auto | AuxHeat | Aux
  datatype SwingField = Horizontal | Vertical
  datatype EnergyField = Stats | Setting | Bcd
  datatype FilterField = Notice | Clean
  datatype TurboField = TurboHeat | TurboCool
  datatype HumidityField = AutoSet | ManualSet
  datatype LimitField = CoolMin | CoolMax | AutoMin | AutoMax | HeatMin | HeatMax | Decimals

  /** The fields a struct has been given since it was made: a flag is 0 or 1, a limit counts half degrees. */
  type Fields = map<Field, byte>

  /** A struct starts with no capability and limits of 16 and 30 degrees. */
  function Value(c: Fields, f: Field): byte {
    if f in c then c[f]
    else match f
      case Limit(CoolMin) | Limit(AutoMin) | Limit(HeatMin) => 32
      case Limit(CoolMax) | Limit(AutoMax) | Limit(HeatMax) => 60
      case _ => 0
  }

  function Flag(b: bool): byte {
    if b then 1 else 0
  }

  /** Whether the first byte of its value says that the appliance has a capability of one flag. */
  predicate Holds(id: Sole, v0: byte) {
    if id == FAHRENHEIT then v0 == 0
    else if id == DISPLAY_CONTROL then v0 in {1, 2, 100}
    else if id == FLASH then v0 in {1, 2, 3, 4}
    else if id == OUT_SILENT then v0 in {1, 3}
    else if id == PRESET_ECO then v0 in {1, 2}
    else v0 == 1
  }

  /** What an entry writes. */
  function Writes(id: Id, value: Bytes): Fields
    requires value != []
  {
    var v0 := value[0];
    if id in SOLE then map[Flagged(id) := Flag(Holds(id, v0))]
    else if id == RATE_SELECT then map[Rate(TwoLevels) := Flag(v0 == 1), Rate(FiveLevels) := Flag(v0 in {2, 3})]
    else if id == PRESET_IECO then map[Ieco(Start) := v0] + if |value| > 1 then map[Ieco(End) := value[1]] else map[]
    else if id == FAN_SPEED_CONTROL then FanSpeeds(v0)
    else if id == MODES then Modes(v0)
    else if id == SWING_MODES then
      map[Swing(Horizontal) := Flag(v0 in {1, 3}), Swing(Vertical) := Flag(v0 in {0, 1})]
    else if id == ENERGY then
      map[Energy(Stats) := Flag(v0 in {2, 3, 4, 5}), Energy(Setting) := Flag(v0 in {3, 5}),
          Energy(Bcd) := Flag(v0 in {2, 3})]
    else if id == FILTER_REMIND then
      map[Filter(Notice) := Flag(v0 in {1, 2, 4}), Filter(Clean) := Flag(v0 in {3, 4})]
    else if id == PRESET_TURBO then
      map[Turbo(TurboHeat) := Flag(v0 in {1, 3}), Turbo(TurboCool) := Flag(v0 in {0, 1})]
    else if id == HUMIDITY then
      map[Humidity(AutoSet) := Flag(v0 in {1, 2}), Humidity(ManualSet) := Flag(v0 in {2, 3})]
    else if id == TEMPERATURES && |value| >= 6 then Limits(value)
    else map[]
  }

  function FanSpeeds(v: byte): Fields {
    map[Fan(AnyFan) := 1, Fan(Silent) := Flag(v in {6, 9}), Fan(Low) := Flag(v in {3, 4, 5, 6, 7, 9}),
        Fan(Medium) := Flag(v in {5, 6, 7}), Fan(High) := Flag(v in {3, 4, 5, 6, 7, 9}),
        Fan(AutoFan) := Flag(v in {4, 5, 6, 9}), Fan(Custom) := Flag(v == 1)]
  }

  function Modes(v: byte): Fields {
    map[Mode(Heat) := Flag(v in {1, 2, 4, 6, 7, 9, 10, 11, 12, 13}),
        Mode(Cool) := Flag(v in {0, 1, 3, 4, 5, 6, 7, 8, 9, 11, 13, 14, 15}),
        Mode(Dry) := Flag(v in {0, 1, 5, 6, 9, 11, 13, 14, 15}), Mode(Auto) := Flag(v in {0, 1, 2, 7, 8, 9, 13, 14}),
        Mode(AuxHeat) := Flag(v == 9), Mode(Aux) := Flag(v in {9, 10, 11, 13, 14, 15})]
  }

  /** Behind six limits a seventh byte, if it is there, says whether decimals are; without it they are. */
  function Limits(value: Bytes): Fields
    requires |value| >= 6
  {
    map[Limit(CoolMin) := value[0], Limit(CoolMax) := value[1], Limit(AutoMin) := value[2], Limit(AutoMax) := value[3],
        Limit(HeatMin) := value[4], Limit(HeatMax) := value[5], Limit(Decimals) := Flag(|value| == 6 || value[6] != 0)]
  }

  /** What is known of an appliance, and whether it has more to say. */
  datatype Known = Known(fields: Fields, additional: bool)

  /** What an entry makes of the fields; an empty one says nothing. */
  function Noted(): (Fields, Entry) -> Fields {
    (c: Fields, e: Entry) => if |e.head| < 2 || e.data == [] then c else c + Writes(IdOf(e), e.data)
  }

  /** The byte before the last of what the walk leaves, if it leaves two, says whether there is more. */
  function SaysMore(rest: Bytes, before: bool): bool {
    if |rest| > 1 then rest[|rest| - 2] != 0 else before
  }

  function Listed(frame: Bytes): (seq<Entry>, Bytes)
    requires |frame| >= 13
  {
    Walk(Headed(3, Plain()), Body(frame)[2..], Body(frame)[1])
  }

  predicate IsReply(frame: Bytes) {
    |frame| >= 13 && frame[0] == 0xAA && Body(frame)[0] == CAPABILITIES
  }

  function Parse(frame: Bytes, known: Known): Option<Known> {
    if !IsReply(frame) then None
    else
      var (entries, rest) := Listed(frame);
      Some(Known(Fold(Noted(), known.fields, entries), SaysMore(rest, known.additional)))
  }

  method ParseCapabilitiesFrame(frame: Bytes, known: Known) returns (now: Option<Known>)
    ensures now == Parse(frame, known)
  {
    if |frame| < 13 || frame[0] != 0xAA {
      return None;
    }
    var payload := frame[10..|frame| - 1];
    if payload[0] != CAPABILITIES {
      return None;
    }
    var fields, pos := WalkFold(Noted(), known.fields, 3, payload[2..], payload[1]);
    ghost var rest := payload[2..][pos..];
    assert |rest| == |payload| - 2 - pos && (|rest| > 1 ==> rest[|rest| - 2] == payload[|payload| - 2]);
    var additional := known.additional;
    if |payload| > 2 + pos + 1 {
      additional := payload[|payload| - 2] != 0;
    }
    now := Some(Known(fields, additional));
  }

  // ----- who writes what -----

  /** The one capability that writes a field. */
  function WriterOf(f: Field): Id {
    match f
    case Flagged(id) => id
    case Rate(_) => RATE_SELECT
    case Ieco(_) => PRESET_IECO
    case Fan(_) => FAN_SPEED_CONTROL
    case Mode(_) => MODES
    case Swing(_) => SWING_MODES
    case Energy(_) => ENERGY
    case Filter(_) => FILTER_REMIND
    case Turbo(_) => PRESET_TURBO
    case Humidity(_) => HUMIDITY
    case Limit(_) => TEMPERATURES
  }

  /** And the size its value must have for that. */
  function SizeFor(f: Field): nat {
    if f == Ieco(End) then 2 else if f.Limit? then 6 else 1
  }

  predicate Sets(e: Entry, f: Field) {
    |e.head| >= 2 && IdOf(e) == WriterOf(f) && |e.data| >= SizeFor(f)
  }

  lemma FanIsWritten(v: byte, fan: FanField)
    ensures Fan(fan) in FanSpeeds(v)
  {
    match fan
    case AnyFan => case Silent => case Low => case Medium => case High => case AutoFan => case Custom =>
  }

  lemma ModeIsWritten(v: byte, mode: ModeField)
    ensures Mode(mode) in Modes(v)
  {
    match mode
    case Heat => case Cool => case Dry => case Auto => case AuxHeat => case Aux =>
  }

  lemma LimitIsWritten(value: Bytes, limit: LimitField)
    requires |value| >= 6
    ensures Limit(limit) in Limits(value)
  {
    match limit
    case CoolMin => case CoolMax => case AutoMin => case AutoMax => case HeatMin => case HeatMax => case Decimals =>
  }

  lemma WriterSuffices(value: Bytes, f: Field)
    requires |value| >= SizeFor(f)
    ensures f in Writes(WriterOf(f), value)
  {
    match f
    case Flagged(_) =>
    case Rate(rate) => match rate { case TwoLevels => case FiveLevels => }
    case Ieco(ieco) => match ieco { case Start => case End => }
    case Fan(fan) => FanIsWritten(value[0], fan);
    case Mode(mode) => ModeIsWritten(value[0], mode);
    case Swing(swing) => match swing { case Horizontal => case Vertical => }
    case Energy(energy) => match energy { case Stats => case Setting => case Bcd => }
    case Filter(filter) => match filter { case Notice => case Clean => }
    case Turbo(turbo) => match turbo { case TurboHeat => case TurboCool => }
    case Humidity(humidity) => match humidity { case AutoSet => case ManualSet => }
    case Limit(limit) => LimitIsWritten(value, limit);
  }

  lemma WriterIsNeeded(id: Id, value: Bytes, f: Field)
    requires value != [] && f in Writes(id, value)
    ensures id == WriterOf(f) && |value| >= SizeFor(f)
  {
  }

  /** The switch writes a field from the entries of its writer that are long enough, and from no others. */
  lemma WriterWrites(id: Id, value: Bytes, f: Field)
    requires value != []
    ensures f in Writes(id, value) <==> id == WriterOf(f) && |value| >= SizeFor(f)
  {
    if f in Writes(id, value) {
      WriterIsNeeded(id, value, f);
    } else if |value| >= SizeFor(f) {
      WriterSuffices(value, f);
    }
  }

  /** The switch has a case for an id. */
  ghost predicate HasCase(id: Id) {
    exists f :: WriterOf(f) == id
  }

  /** An entry is empty, its id has no case, or it is of too few temperatures. */
  ghost predicate IsIdle(e: Entry) {
    |e.head| < 2 || e.data == [] || !HasCase(IdOf(e)) || (IdOf(e) == TEMPERATURES && |e.data| < 6)
  }

  // ----- what replies come to -----

  /** The value of the last entry that sets a field. */
  function LastSetting(entries: seq<Entry>, f: Field): Option<byte>
    decreases |entries|
  {
    if entries == [] then None
    else
      var last := entries[|entries| - 1];
      if Sets(last, f) then Some(SetTo(last, f)) else LastSetting(entries[..|entries| - 1], f)
  }

  function SetTo(e: Entry, f: Field): byte
    requires Sets(e, f)
  {
    WriterWrites(IdOf(e), e.data, f);
    Writes(IdOf(e), e.data)[f]
  }

  function OrElse(o: Option<byte>, otherwise: byte): byte {
    if o.Some? then o.value else otherwise
  }

  lemma NotedSets(c: Fields, e: Entry, f: Field)
    ensures Value(Noted()(c, e), f) == if Sets(e, f) then SetTo(e, f) else Value(c, f)
  {
    if |e.head| >= 2 && e.data != [] {
      WriterWrites(IdOf(e), e.data, f);
    }
  }

  /** Entries leave a field as the last of them that sets it says, or as it was if none does. */
  lemma {:induction false} LastSettingWins(c: Fields, entries: seq<Entry>, f: Field)
    ensures Value(Fold(Noted(), c, entries), f) == OrElse(LastSetting(entries, f), Value(c, f))
    decreases |entries|
  {
    if entries == [] {
    } else {
      var front, last := entries[..|entries| - 1], entries[|entries| - 1];
      LastSettingWins(c, front, f);
      FoldAppends(Noted(), c, front, [last]);
      assert front + [last] == entries && [last][1..] == [];
      NotedSets(Fold(Noted(), c, front), last, f);
    }
  }

  lemma {:induction false} LastSettingOfTwo(a: seq<Entry>, b: seq<Entry>, f: Field)
    ensures LastSetting(a + b, f) == if LastSetting(b, f).Some? then LastSetting(b, f) else LastSetting(a, f)
    decreases |b|
  {
    if b == [] {
      assert a + b == a;
    } else {
      var n := |a + b|;
      assert (a + b)[n - 1] == b[|b| - 1] && (a + b)[..n - 1] == a + b[..|b| - 1];
      LastSettingOfTwo(a, b[..|b| - 1], f);
    }
  }

  lemma {:induction false} UnsetWhenNoneSets(entries: seq<Entry>, f: Field)
    ensures LastSetting(entries, f).None? <==> forall e :: e in entries ==> !Sets(e, f)
    decreases |entries|
  {
    if entries == [] {
    } else {
      var front, last := entries[..|entries| - 1], entries[|entries| - 1];
      UnsetWhenNoneSets(front, f);
      assert front + [last] == entries;
    }
  }

  /** Any reply, well formed or not, is the longest run of entries in bounds; in it the last setting wins. */
  lemma ReplyIsRead(frame: Bytes, known: Known) returns (entries: seq<Entry>, rest: Bytes)
    requires IsReply(frame)
    ensures Body(frame)[2..] == Lay(Joined(), entries) + rest
    ensures IsLongest(Headed(3, Plain()), IsHeaded(3, Plain()), entries, rest, Body(frame)[1])
    ensures var now := Parse(frame, known).value.fields;
            forall f :: Value(now, f) == OrElse(LastSetting(entries, f), Value(known.fields, f))
    ensures Parse(frame, known).value.additional == if |rest| < 2 then known.additional else frame[|frame| - 3] != 0
  {
    HeadedCodes(3, Plain());
    WalkIsLongest(Headed(3, Plain()), Joined(), IsHeaded(3, Plain()), Body(frame)[2..], Body(frame)[1]);
    var walked := Listed(frame);
    entries, rest := walked.0, walked.1;
    var now := Parse(frame, known).value.fields;
    forall f ensures Value(now, f) == OrElse(LastSetting(entries, f), Value(known.fields, f)) {
      LastSettingWins(known.fields, entries, f);
    }
    RestEnds(frame, Lay(Joined(), entries), rest);
  }

  lemma RestEnds(frame: Bytes, laid: Bytes, rest: Bytes)
    requires |frame| >= 13 && Body(frame)[2..] == laid + rest
    ensures |rest| >= 2 ==> rest[|rest| - 2] == frame[|frame| - 3]
  {
    if |rest| >= 2 {
      var n := |frame| - 13;
      assert Body(frame)[2..][n - 2] == frame[|frame| - 3] && (laid + rest)[n - 2] == rest[|rest| - 2];
    }
  }

  /** A field that no long enough entry of its own capability sets is as it was before the reply. */
  lemma FieldSurvives(frame: Bytes, known: Known, f: Field)
    requires IsReply(frame)
    requires forall e :: e in Listed(frame).0 && |e.head| >= 2 && IdOf(e) == WriterOf(f) ==> |e.data| < SizeFor(f)
    ensures Value(Parse(frame, known).value.fields, f) == Value(known.fields, f)
  {
    LastSettingWins(known.fields, Listed(frame).0, f);
    UnsetWhenNoneSets(Listed(frame).0, f);
  }

  /** Six bytes of temperatures claim decimals, whatever they are; with fewer nothing is said at all. */
  lemma SixLimitsClaimDecimals(c: Fields, e: Entry)
    requires |e.head| >= 2 && IdOf(e) == TEMPERATURES
    ensures |e.data| == 6 ==> Value(Noted()(c, e), Limit(Decimals)) == 1
    ensures |e.data| < 6 ==> Noted()(c, e) == c
  {
    if |e.data| < 6 { IdleWhen(e); }
  }

  // ----- fan speeds -----

  predicate IsSpeed(fan: FanField) {
    !fan.AnyFan? && !fan.Custom?
  }

  /** An appliance that reported nothing about its fan does the usual four speeds. */
  predicate Supports(c: Fields, speed: FanField)
    requires IsSpeed(speed)
  {
    if Value(c, Fan(AnyFan)) == 0 then !speed.Silent? else Value(c, Fan(speed)) == 1 || Value(c, Fan(Custom)) == 1
  }

  /** The first byte of the last entry about the fan. */
  function LastFan(entries: seq<Entry>): Option<byte>
    decreases |entries|
  {
    if entries == [] then None
    else
      var last := entries[|entries| - 1];
      if Sets(last, Fan(AnyFan)) then Some(last.data[0]) else LastFan(entries[..|entries| - 1])
  }

  lemma {:induction false} FanIsSetAtOnce(entries: seq<Entry>, fan: FanField)
    ensures match LastFan(entries)
            case None => LastSetting(entries, Fan(fan)) == None
            case Some(v) => Fan(fan) in FanSpeeds(v) && LastSetting(entries, Fan(fan)) == Some(FanSpeeds(v)[Fan(fan)])
    decreases |entries|
  {
    if entries == [] {
    } else {
      var last := entries[|entries| - 1];
      if Sets(last, Fan(fan)) {
        FanIsWritten(last.data[0], fan);
      } else {
        FanIsSetAtOnce(entries[..|entries| - 1], fan);
      }
    }
  }

  /** The last entry about the fan alone decides which speeds there are; custom speed stands for all of them. */
  lemma LastFanDecides(c: Fields, entries: seq<Entry>, speed: FanField)
    requires IsSpeed(speed)
    ensures Supports(Fold(Noted(), c, entries), speed)
       <==> match LastFan(entries)
            case None => Supports(c, speed)
            case Some(v) => v == 1 || (Fan(speed) in FanSpeeds(v) && FanSpeeds(v)[Fan(speed)] == 1)
  {
    LastSettingWins(c, entries, Fan(AnyFan));
    LastSettingWins(c, entries, Fan(speed));
    LastSettingWins(c, entries, Fan(Custom));
    FanIsSetAtOnce(entries, AnyFan);
    FanIsSetAtOnce(entries, speed);
    FanIsSetAtOnce(entries, Custom);
  }

  // ----- two replies -----

  function AfterBoth(first: Bytes, second: Bytes, known: Known): Known
    requires IsReply(first) && IsReply(second)
  {
    Parse(second, Parse(first, known).value).value
  }

  /** After two replies a field is as the last entry of the second says that sets it, or else of the first. */
  lemma LaterReplyWins(first: Bytes, second: Bytes, known: Known, f: Field)
    requires IsReply(first) && IsReply(second)
    ensures var entries := Listed(first).0 + Listed(second).0;
            Value(AfterBoth(first, second, known).fields, f) == OrElse(LastSetting(entries, f), Value(known.fields, f))
    ensures Value(AfterBoth(first, second, known).fields, f)
         == OrElse(LastSetting(Listed(second).0, f), OrElse(LastSetting(Listed(first).0, f), Value(known.fields, f)))
  {
    var a, b := Listed(first).0, Listed(second).0;
    LastSettingWins(known.fields, a, f);
    LastSettingWins(Parse(first, known).value.fields, b, f);
    LastSettingOfTwo(a, b, f);
  }

  predicate SameEitherWay(first: Bytes, second: Bytes, known: Known, f: Field)
    requires IsReply(first) && IsReply(second)
  {
    Value(AfterBoth(first, second, known).fields, f) == Value(AfterBoth(second, first, known).fields, f)
  }

  predicate AgreeOn(a: seq<Entry>, b: seq<Entry>, f: Field) {
    var x, y := LastSetting(a, f), LastSetting(b, f);
    x.Some? && y.Some? ==> x == y
  }

  lemma SameWhenAgreed(first: Bytes, second: Bytes, known: Known, f: Field)
    requires IsReply(first) && IsReply(second)
    ensures SameEitherWay(first, second, known, f) <==> AgreeOn(Listed(first).0, Listed(second).0, f)
  {
    LaterReplyWins(first, second, known, f);
    LaterReplyWins(second, first, known, f);
  }

  /** The order of two replies makes no difference exactly when they agree on every field that both set. */
  lemma OrderIsFreeWhen(first: Bytes, second: Bytes, known: Known)
    requires IsReply(first) && IsReply(second)
    ensures (forall f :: SameEitherWay(first, second, known, f))
       <==> (forall f :: AgreeOn(Listed(first).0, Listed(second).0, f))
  {
    forall f
      ensures SameEitherWay(first, second, known, f) <==> AgreeOn(Listed(first).0, Listed(second).0, f)
    {
      SameWhenAgreed(first, second, known, f);
    }
  }

  // ----- entries that say nothing -----

  lemma IdleWritesNothing(id: Id, value: Bytes)
    requires value != [] && (HasCase(id) ==> id == TEMPERATURES && |value| < 6)
    ensures Writes(id, value) == map[]
  {
    forall f ensures f !in Writes(id, value) {
      WriterWrites(id, value, f);
      assert WriterOf(f) == id ==> HasCase(id);
    }
  }

  lemma WritesSome(id: Id, value: Bytes) returns (f: Field)
    requires value != [] && HasCase(id) && (id == TEMPERATURES ==> |value| >= 6)
    ensures f in Writes(id, value)
  {
    f :| WriterOf(f) == id;
    if f == Ieco(End) { f := Ieco(Start); }
    WriterWrites(id, value, f);
  }

  /** An entry changes no struct exactly when it is idle. */
  lemma IdleWhen(e: Entry)
    ensures IsIdle(e) <==> forall c :: Noted()(c, e) == c
  {
    if IsIdle(e) {
      if |e.head| >= 2 && e.data != [] { IdleWritesNothing(IdOf(e), e.data); }
      assert forall c: Fields :: c + map[] == c;
    } else {
      var f := WritesSome(IdOf(e), e.data);
      var b := Writes(IdOf(e), e.data)[f];
      var c: Fields := map[f := if b == 0 then 1 else 0];
      assert Noted()(c, e)[f] == b && c[f] != b;
    }
  }

  /** A reply of entries, behind which a byte says whether there is more. */
  function Reply(entries: seq<Entry>, more: byte): Bytes {
    WrapCommand(DEVICE_TYPE_AC, FRAME_TYPE_QUERY, [CAPABILITIES, |entries| % 256] + Lay(Joined(), entries), more)
  }

  lemma ReplyIsListed(entries: seq<Entry>, more: byte) returns (rest: Bytes)
    requires |entries| < 256 && forall e :: e in entries ==> IsHeaded(3, Plain())(e)
    ensures IsReply(Reply(entries, more)) && Listed(Reply(entries, more)) == (entries, rest)
    ensures |rest| == 2 && rest[0] == more
  {
    var count := |entries| % 256;
    rest := CountedBody(DEVICE_TYPE_AC, FRAME_TYPE_QUERY, CAPABILITIES, count, Lay(Joined(), entries), more);
    EntriesAreWalked(3, entries, rest, Body(Reply(entries, more)));
  }

  /** An idle entry, of an unknown id and any length say, has no influence on those before and after it. */
  lemma IdleIsSteppedOver(known: Known, a: seq<Entry>, idle: Entry, b: seq<Entry>, more: byte)
    requires |a| + |b| < 255 && IsIdle(idle)
    requires forall e :: e in a + [idle] + b ==> IsHeaded(3, Plain())(e)
    ensures Parse(Reply(a + [idle] + b, more), known).Some?
    ensures Parse(Reply(a + [idle] + b, more), known) == Parse(Reply(a + b, more), known)
  {
    var rest := ReplyIsListed(a + [idle] + b, more);
    forall e | e in a + b ensures IsHeaded(3, Plain())(e) {
      assert e in a + [idle] + b;
    }
    rest := ReplyIsListed(a + b, more);
    IdleWhen(idle);
    IdleEntryIsSkipped(Noted(), known.fields, a, idle, b);
  }
}
