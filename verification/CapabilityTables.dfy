/**
 The tables of the capabilities the other way round: for each value an appliance reports, what it can do. Ids
 and values are written out, and none of the switch's own tables is used.
 */
module CapabilityTables {
  import opened ByteStrings
  import opened Tlv
  import opened Capabilities

  function ModesFor(v: byte): set<ModeField> {
    match v
    case 0 => {Cool, Dry, Auto}
    case 1 => {Heat, Cool, Dry, Auto}
    case 2 => {Heat, Auto}
    case 3 => {Cool}
    case 4 => {Heat, Cool}
    case 5 => {Cool, Dry}
    case 6 => {Heat, Cool, Dry}
    case 7 => {Heat, Cool, Auto}
    case 8 => {Cool, Auto}
    case 9 => {Heat, Cool, Dry, Auto, AuxHeat, Aux}
    case 10 => {Heat, Aux}
    case 11 => {Heat, Cool, Dry, Aux}
    case 12 => {Heat}
    case 13 => {Heat, Cool, Dry, Auto, Aux}
    case 14 => {Cool, Dry, Auto, Aux}
    case 15 => {Cool, Dry, Aux}
    case _ => {}
  }

  function FansFor(v: byte): set<FanField> {
    match v
    case 1 => {AnyFan, Custom}
    case 3 => {AnyFan, Low, High}
    case 4 => {AnyFan, Low, High, AutoFan}
    case 5 => {AnyFan, Low, Medium, High, AutoFan}
    case 6 => {AnyFan, Silent, Low, Medium, High, AutoFan}
    case 7 => {AnyFan, Low, Medium, High}
    case 9 => {AnyFan, Silent, Low, High, AutoFan}
    case _ => {AnyFan}
  }

  /** Whether the value of a capability of one flag says that it is there. */
  function FlagFor(id: Id, v: byte): Option<bool> {
    if id in {0x0009, 0x000A, 0x0018, 0x0030, 0x0032, 0x0033, 0x0039, 0x0042, 0x0043, 0x004B, 0x0059, 0x0093} then Some(v == 1)
    else if id in {0x0094, 0x0213, 0x0219, 0x021E, 0x022C} then Some(v == 1)
    else if id == 0x0067 then Some(1 <= v <= 4)
    else if id == 0x00CD then Some(v == 1 || v == 3)
    else if id == 0x0212 then Some(v == 1 || v == 2)
    else if id == 0x0222 then Some(v == 0)
    else if id == 0x0224 then Some(v == 1 || v == 2 || v == 100)
    else None
  }

  /** The fields of the smaller groups that a value of a capability says are there. */
  function GroupFor(id: Id, v: byte): set<Field> {
    match (id, v)
    case (0x0048, 1) => {Rate(TwoLevels)}
    case (0x0048, 2) => {Rate(FiveLevels)}
    case (0x0048, 3) => {Rate(FiveLevels)}
    case (0x0215, 0) => {Swing(Vertical)}
    case (0x0215, 1) => {Swing(Horizontal), Swing(Vertical)}
    case (0x0215, 3) => {Swing(Horizontal)}
    case (0x0216, 2) => {Energy(Stats), Energy(Bcd)}
    case (0x0216, 3) => {Energy(Stats), Energy(Setting), Energy(Bcd)}
    case (0x0216, 4) => {Energy(Stats)}
    case (0x0216, 5) => {Energy(Stats), Energy(Setting)}
    case (0x0217, 1) => {Filter(Notice)}
    case (0x0217, 2) => {Filter(Notice)}
    case (0x0217, 3) => {Filter(Clean)}
    case (0x0217, 4) => {Filter(Notice), Filter(Clean)}
    case (0x021A, 0) => {Turbo(TurboCool)}
    case (0x021A, 1) => {Turbo(TurboHeat), Turbo(TurboCool)}
    case (0x021A, 3) => {Turbo(TurboHeat)}
    case (0x021F, 1) => {Humidity(AutoSet)}
    case (0x021F, 2) => {Humidity(AutoSet), Humidity(ManualSet)}
    case (0x021F, 3) => {Humidity(ManualSet)}
    case _ => {}
  }

  lemma ModesAre(v: byte, mode: ModeField)
    ensures Mode(mode) in Modes(v) && Modes(v)[Mode(mode)] == if mode in ModesFor(v) then 1 else 0
  {
    match mode
    case Heat => case Cool => case Dry => case Auto => case AuxHeat => case Aux =>
  }

  lemma FansAre(v: byte, fan: FanField)
    ensures Fan(fan) in FanSpeeds(v) && FanSpeeds(v)[Fan(fan)] == if fan in FansFor(v) then 1 else 0
  {
    match fan
    case AnyFan => case Silent => case Low => case Medium => case High => case AutoFan => case Custom =>
  }

  /** An entry of the modes says of each mode whether the appliance has it. */
  lemma ModesAreReported(c: Fields, e: Entry, mode: ModeField)
    requires |e.head| == 3 && e.head[..2] == [0x14, 0x02] && e.data != []
    ensures Value(Noted()(c, e), Mode(mode)) == if mode in ModesFor(e.data[0]) then 1 else 0
  {
    ModesAre(e.data[0], mode);
    IdIs(e, 0x14, 0x02);
  }

  lemma FansAreReported(c: Fields, e: Entry, fan: FanField)
    requires |e.head| == 3 && e.head[..2] == [0x10, 0x02] && e.data != []
    ensures Value(Noted()(c, e), Fan(fan)) == if fan in FansFor(e.data[0]) then 1 else 0
  {
    FansAre(e.data[0], fan);
    IdIs(e, 0x10, 0x02);
  }

  lemma IdIs(e: Entry, low: byte, high: byte)
    requires |e.head| == 3 && e.head[..2] == [low, high]
    ensures IdOf(e) == low as int + 256 * high as int
  {
    assert e.head[0] == e.head[..2][0] && e.head[1] == e.head[..2][1];
  }

  /** An entry of a capability of one flag sets just that flag. */
  lemma FlagIsReported(c: Fields, e: Entry)
    requires |e.head| == 3 && e.data != [] && FlagFor(IdOf(e), e.data[0]).Some?
    ensures IdOf(e) in SOLE
    ensures Noted()(c, e) == c[Flagged(IdOf(e)) := if FlagFor(IdOf(e), e.data[0]).value then 1 else 0]
  {
    FlagsAre(IdOf(e), e.data[0]);
  }

  lemma FlagsAre(id: Id, v: byte)
    ensures FlagFor(id, v).Some? <==> id in SOLE
    ensures id in SOLE ==> (Holds(id, v) <==> FlagFor(id, v) == Some(true))
  {
  }

  predicate IsGroup(f: Field) {
    f.Rate? || f.Swing? || f.Energy? || f.Filter? || f.Turbo? || f.Humidity?
  }

  /** An entry of a smaller group says of each of its fields whether it is there. */
  lemma GroupIsReported(c: Fields, e: Entry, f: Field)
    requires |e.head| == 3 && e.data != [] && IsGroup(f) && IdOf(e) == WriterOf(f)
    ensures Value(Noted()(c, e), f) == if f in GroupFor(IdOf(e), e.data[0]) then 1 else 0
  {
    GroupsAre(e.data, f);
  }

  lemma GroupsAre(value: Bytes, f: Field)
    requires value != [] && IsGroup(f)
    ensures f in Writes(WriterOf(f), value)
    ensures Writes(WriterOf(f), value)[f] == if f in GroupFor(WriterOf(f), value[0]) then 1 else 0
  {
    match f
    case Rate(rate) => match rate { case TwoLevels => case FiveLevels => }
    case Swing(swing) => match swing { case Horizontal => case Vertical => }
    case Energy(energy) => match energy { case Stats => case Setting => case Bcd => }
    case Filter(filter) => match filter { case Notice => case Clean => }
    case Turbo(turbo) => match turbo { case TurboHeat => case TurboCool => }
    case Humidity(humidity) => match humidity { case AutoSet => case ManualSet => }
  }

  /** Which capability sets which group, and what the two of a fixed layout report byte by byte. */
  lemma GroupsAreOf()
    ensures forall x :: WriterOf(Rate(x)) == 0x0048
    ensures forall x :: WriterOf(Swing(x)) == 0x0215
    ensures forall x :: WriterOf(Energy(x)) == 0x0216
    ensures forall x :: WriterOf(Filter(x)) == 0x0217
    ensures forall x :: WriterOf(Turbo(x)) == 0x021A
    ensures forall x :: WriterOf(Humidity(x)) == 0x021F
  {
  }

  /** An appliance that has reported nothing has no flags and limits of 16 and 30 degrees. */
  lemma NothingReported(f: Field)
    ensures Value(map[], f) == match f
      case Limit(CoolMin) => 2 * 16
      case Limit(AutoMin) => 2 * 16
      case Limit(HeatMin) => 2 * 16
      case Limit(CoolMax) => 2 * 30
      case Limit(AutoMax) => 2 * 30
      case Limit(HeatMax) => 2 * 30
      case _ => 0
  {
  }

  /** Six limits in half degrees, cooling, automatic and heating, the lower before the upper. */
  lemma LimitsAreReported(c: Fields, e: Entry)
    requires |e.head| == 3 && e.head[..2] == [0x25, 0x02] && |e.data| >= 6
    ensures var now := Noted()(c, e);
            && Value(now, Limit(CoolMin)) == e.data[0] && Value(now, Limit(CoolMax)) == e.data[1]
            && Value(now, Limit(AutoMin)) == e.data[2] && Value(now, Limit(AutoMax)) == e.data[3]
            && Value(now, Limit(HeatMin)) == e.data[4] && Value(now, Limit(HeatMax)) == e.data[5]
            && (Value(now, Limit(Decimals)) == 1 <==> |e.data| == 6 || e.data[6] != 0)
  {
    IdIs(e, 0x25, 0x02);
    LimitsAre(e.data);
  }

  lemma LimitsAre(data: Bytes)
    requires |data| >= 6
    ensures var w := Limits(data);
            && Limit(CoolMin) in w && w[Limit(CoolMin)] == data[0] && Limit(CoolMax) in w && w[Limit(CoolMax)] == data[1]
            && Limit(AutoMin) in w && w[Limit(AutoMin)] == data[2] && Limit(AutoMax) in w && w[Limit(AutoMax)] == data[3]
            && Limit(HeatMin) in w && w[Limit(HeatMin)] == data[4] && Limit(HeatMax) in w && w[Limit(HeatMax)] == data[5]
            && Limit(Decimals) in w && w[Limit(Decimals)] == if |data| == 6 || data[6] != 0 then 1 else 0
  {
  }

  /** The two bytes of IECO; a short entry leaves the second as it was. */
  lemma IecoIsReported(c: Fields, e: Entry)
    requires |e.head| == 3 && e.head[..2] == [0xE3, 0x00] && e.data != []
    ensures var now := Noted()(c, e);
            && Value(now, Ieco(Start)) == e.data[0]
            && Value(now, Ieco(End)) == if |e.data| > 1 then e.data[1] else Value(c, Ieco(End))
  {
    IdIs(e, 0xE3, 0x00);
  }

  /** Which speeds an appliance supports that began without any report: the usual four, or what the last one says. */
  lemma SpeedsAre(entries: seq<Entry>, speed: FanField)
    requires IsSpeed(speed)
    ensures Supports(Fold(Noted(), map[], entries), speed)
       <==> match LastFan(entries)
            case None => speed in {Low, Medium, High, AutoFan}
            case Some(v) => v == 1 || speed in FansFor(v)
  {
    LastFanDecides(map[], entries, speed);
    if LastFan(entries).Some? { FansAre(LastFan(entries).value, speed); }
  }
}
