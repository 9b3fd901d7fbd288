/**
 Reading and writing the state of an air conditioner. A set request replaces everything, and its layout is
 not that of the response: flags sit in other bits, and temperatures outside 17 to 30 degrees in another
 byte. Temperatures are in half degrees.
 */
module State {
  import opened ByteStrings
  import opened Frame
  import Checksum

  /** What a set request carries. */
  datatype Settings = Settings(
    power: bool, mode: byte, fanSpeed: byte, swingMode: byte, eco: bool, turbo: bool, sleep: bool, fahrenheit: bool,
    purifier: bool, followMe: bool, freezeProtection: bool, auxHeat: bool, independentAuxHeat: bool, beep: bool,
    targetHumidity: byte, target: int)

  /** The whole state: the settings and what only a response tells. */
  datatype AcState = AcState(
    settings: Settings, errorCode: byte, filterAlert: bool, displayOn: bool, indoorHumidity: Option<byte>)

  /** Whether the bit of this weight is set. */
  predicate Bit(b: byte, weight: nat)
    requires weight > 0
  {
    (b / weight) % 2 == 1
  }

  /** The weight of a flag that is on. */
  function On(flag: bool, weight: byte): byte {
    if flag then weight else 0
  }

  // ----- the set request -----

  const SET_STATE: byte := 0x40
  const CONTROL_SOURCE: byte := 0x02

  /** The whole degrees of a temperature, cut toward zero. */
  function Integral(target: int): int {
    if target >= 0 then target / 2 else -((-target) / 2)
  }

  predicate HasHalf(target: int) {
    target > 0 && target % 2 == 1
  }

  function Primary(target: int): byte {
    (if 17 <= Integral(target) <= 30 then Integral(target) - 16 else 0) + On(HasHalf(target), 0x10)
  }

  function Alternate(target: int): byte {
    if 17 <= Integral(target) <= 30 then 0 else (Integral(target) - 12) % 32
  }

  function SetPayload(s: Settings): (r: Bytes)
    ensures |r| == 24
  {
    [SET_STATE,
     CONTROL_SOURCE + On(s.beep, 0x40) + On(s.power, 0x01),
     Primary(s.target) + 32 * (s.mode % 8),
     s.fanSpeed,
     0x7F, 0x7F, 0x00,
     0x30 + s.swingMode % 16,
     On(s.followMe, 0x80) + On(s.turbo, 0x20),
     On(s.eco, 0x80) + On(s.purifier, 0x20) + On(s.auxHeat, 0x08),
     On(s.sleep, 0x01) + On(s.turbo, 0x02) + On(s.fahrenheit, 0x04),
     0x00, 0x00, 0x00, 0x00,
     0x00, 0x00, 0x00,
     Alternate(s.target),
     s.targetHumidity % 128,
     0x00,
     On(s.freezeProtection, 0x80),
     On(s.independentAuxHeat, 0x08),
     0x00]
  }

  function SetFrame(s: Settings, messageId: byte): Bytes {
    WrapCommand(DEVICE_TYPE_AC, FRAME_TYPE_CONTROL, SetPayload(s), messageId)
  }

  // ----- the response -----

  const STATE: byte := 0xC0

  /** The setpoint that two fields and a half-degree bit give: the alternate field counts unless it is zero. */
  function Setpoint(primary: nat, half: bool, alternate: nat): nat {
    2 * (if alternate != 0 then alternate + 12 else primary + 16) + if half then 1 else 0
  }

  /** What a response makes of the state known before; none if it is no state response. */
  function ParseFrame(frame: Bytes, before: AcState): Option<AcState> {
    if |frame| < 32 || frame[0] != 0xAA || Body(frame)[0] != STATE then None
    else
      var p := Body(frame);
      Some(AcState(
        before.settings.(
          power := Bit(p[1], 0x01),
          target := Setpoint(p[2] % 16, Bit(p[2], 0x10), p[13] % 32),
          mode := (p[2] / 32) % 8,
          fanSpeed := p[3] % 128,
          swingMode := p[7] % 16,
          turbo := Bit(p[8], 0x20) || Bit(p[10], 0x02),
          independentAuxHeat := Bit(p[8], 0x40),
          followMe := Bit(p[8], 0x80),
          eco := Bit(p[9], 0x10),
          purifier := Bit(p[9], 0x20),
          auxHeat := Bit(p[9], 0x08),
          sleep := Bit(p[10], 0x01),
          fahrenheit := Bit(p[10], 0x04),
          targetHumidity := p[19] % 128,
          beep := false),
        p[16],
        Bit(p[13], 0x20),
        p[14] != 0x70,
        if |p| >= 22 && p[21] != 0 then Some(p[21]) else before.indoorHumidity))
  }

  /** A response does not carry freeze protection: what was known before is kept, and goes into the next request. */
  lemma FreezeProtectionIsKept(frame: Bytes, before: AcState)
    requires ParseFrame(frame, before).Some?
    ensures ParseFrame(frame, before).value.settings.freezeProtection == before.settings.freezeProtection
  {
  }

  // ----- what a set request means -----

  /** A set request, read by its own layout. */
  function ReadSet(p: Bytes): Settings
    requires |p| >= 24
  {
    Settings(
      Bit(p[1], 0x01), (p[2] / 32) % 8, p[3], p[7] % 16, Bit(p[9], 0x80), Bit(p[8], 0x20) || Bit(p[10], 0x02),
      Bit(p[10], 0x01), Bit(p[10], 0x04), Bit(p[9], 0x20), Bit(p[8], 0x80), Bit(p[21], 0x80), Bit(p[9], 0x08),
      Bit(p[22], 0x08), Bit(p[1], 0x40), p[19] % 128, Setpoint(p[2] % 16, Bit(p[2], 0x10), p[18] % 32))
  }

  /** The settings a set request can carry: setpoints from 13 to 43.5 degrees, and fields that fit their bits. */
  predicate Representable(s: Settings) {
    s.mode < 8 && s.swingMode < 16 && s.targetHumidity < 128 && 26 <= s.target <= 87
  }

  lemma PrimaryIsCarried(primary: nat, half: bool, mode: nat)
    requires primary < 16 && mode < 8
    ensures var b := primary + On(half, 0x10) + 32 * mode;
            b / 32 == mode && b % 16 == primary && Bit(b, 0x10) == half
  {
  }

  lemma SetpointIsExact(target: int)
    ensures var primary := if 17 <= Integral(target) <= 30 then Integral(target) - 16 else 0;
            Setpoint(primary, HasHalf(target), Alternate(target)) == target <==> 26 <= target <= 87
  {
  }

  lemma SetpointIsCarried(target: int, mode: byte)
    ensures var b := Primary(target) + 32 * (mode % 8);
            && b / 32 == mode % 8
            && (Setpoint(b % 16, Bit(b, 0x10), Alternate(target) % 32) == target <==> 26 <= target <= 87)
  {
    var primary := if 17 <= Integral(target) <= 30 then Integral(target) - 16 else 0;
    PrimaryIsCarried(primary, HasHalf(target), mode % 8);
    SetpointIsExact(target);
  }

  lemma FlagsAreCarried(a: bool, b: bool, c: bool)
    ensures var x := CONTROL_SOURCE + On(a, 0x40) + On(b, 0x01); Bit(x, 0x40) == a && Bit(x, 0x01) == b
    ensures var x := On(a, 0x80) + On(b, 0x20); Bit(x, 0x80) == a && Bit(x, 0x20) == b
    ensures var x := On(a, 0x80) + On(b, 0x20) + On(c, 0x08); Bit(x, 0x80) == a && Bit(x, 0x20) == b && Bit(x, 0x08) == c
    ensures var x := On(a, 0x01) + On(b, 0x02) + On(c, 0x04); Bit(x, 0x01) == a && Bit(x, 0x02) == b && Bit(x, 0x04) == c
    ensures Bit(On(a, 0x80), 0x80) == a && Bit(On(a, 0x08), 0x08) == a
  {
  }

  lemma ControlIsRead(s: Settings)
    ensures Bit(SetPayload(s)[1], 0x40) == s.beep && Bit(SetPayload(s)[1], 0x01) == s.power
  {
    FlagsAreCarried(s.beep, s.power, false);
  }

  lemma SetpointIsRead(s: Settings)
    ensures var p := SetPayload(s);
            && p[2] / 32 == s.mode % 8 && p[3] == s.fanSpeed && p[7] % 16 == s.swingMode % 16
            && p[19] % 128 == s.targetHumidity % 128
            && (Setpoint(p[2] % 16, Bit(p[2], 0x10), p[18] % 32) == s.target <==> 26 <= s.target <= 87)
  {
    SetpointIsCarried(s.target, s.mode);
  }

  lemma ComfortIsRead(s: Settings)
    ensures var p := SetPayload(s);
            && Bit(p[8], 0x80) == s.followMe && Bit(p[8], 0x20) == s.turbo
            && Bit(p[9], 0x80) == s.eco && Bit(p[9], 0x20) == s.purifier && Bit(p[9], 0x08) == s.auxHeat
  {
    FlagsAreCarried(s.followMe, s.turbo, false);
    FlagsAreCarried(s.eco, s.purifier, s.auxHeat);
  }

  lemma RestIsRead(s: Settings)
    ensures var p := SetPayload(s);
            && Bit(p[10], 0x01) == s.sleep && Bit(p[10], 0x02) == s.turbo && Bit(p[10], 0x04) == s.fahrenheit
            && Bit(p[21], 0x80) == s.freezeProtection && Bit(p[22], 0x08) == s.independentAuxHeat
  {
    FlagsAreCarried(s.sleep, s.turbo, s.fahrenheit);
    FlagsAreCarried(s.freezeProtection, false, false);
    FlagsAreCarried(s.independentAuxHeat, false, false);
  }

  /** What the payload of a set request says, byte by byte, about the settings it was built from. */
  ghost predicate Says(p: Bytes, s: Settings) {
    && |p| >= 24
    && Bit(p[1], 0x40) == s.beep && Bit(p[1], 0x01) == s.power
    && p[2] / 32 == s.mode % 8 && p[3] == s.fanSpeed && p[7] % 16 == s.swingMode % 16 && p[19] % 128 == s.targetHumidity % 128
    && (Setpoint(p[2] % 16, Bit(p[2], 0x10), p[18] % 32) == s.target <==> 26 <= s.target <= 87)
    && Bit(p[8], 0x80) == s.followMe && Bit(p[8], 0x20) == s.turbo
    && Bit(p[9], 0x80) == s.eco && Bit(p[9], 0x20) == s.purifier && Bit(p[9], 0x08) == s.auxHeat
    && Bit(p[10], 0x01) == s.sleep && Bit(p[10], 0x02) == s.turbo && Bit(p[10], 0x04) == s.fahrenheit
    && Bit(p[21], 0x80) == s.freezeProtection && Bit(p[22], 0x08) == s.independentAuxHeat
  }

  lemma PayloadSays(s: Settings)
    ensures Says(SetPayload(s), s)
  {
    ControlIsRead(s);
    SetpointIsRead(s);
    ComfortIsRead(s);
    RestIsRead(s);
  }

  lemma SaysMeans(p: Bytes, s: Settings)
    requires Says(p, s)
    ensures ReadSet(p) == s <==> Representable(s)
  {
  }

  /** A set request means the settings it was built from exactly when they are representable. */
  lemma SetMeansSettings(s: Settings)
    ensures ReadSet(SetPayload(s)) == s <==> Representable(s)
  {
    PayloadSays(s);
    SaysMeans(SetPayload(s), s);
  }

  lemma SetFrameCarries(s: Settings, messageId: byte)
    ensures var frame := SetFrame(s, messageId);
            && |frame| == 37 && SelfDelimiting(frame) && Body(frame)[..24] == SetPayload(s)
            && Sum(frame[1..]) % 256 == 0
  {
    var numbered := SetPayload(s) + [messageId];
    CommandHasZeroResidue(DEVICE_TYPE_AC, FRAME_TYPE_CONTROL, SetPayload(s), messageId);
    FrameDelimitsItself(DEVICE_TYPE_AC, FRAME_TYPE_CONTROL, numbered + [Checksum.Crc(numbered)]);
    FrameSumsToZero(DEVICE_TYPE_AC, FRAME_TYPE_CONTROL, numbered + [Checksum.Crc(numbered)]);
  }

  // ----- read, modify, write -----

  /** Whatever a response says, the state parsed from it can be sent back. */
  lemma ParsedIsRepresentable(frame: Bytes, before: AcState)
    ensures ParseFrame(frame, before).Some? ==> Representable(ParseFrame(frame, before).value.settings)
  {
  }

  /** A request that repeats every field of a response, bit by bit in the two layouts; only the beep is off. */
  ghost predicate Repeats(q: Bytes, p: Bytes)
    requires |p| >= 21 && |q| >= 24
  {
    && (Bit(q[1], 0x01) <==> Bit(p[1], 0x01)) && !Bit(q[1], 0x40)
    && q[2] / 32 == p[2] / 32
    && Setpoint(q[2] % 16, Bit(q[2], 0x10), q[18] % 32) == Setpoint(p[2] % 16, Bit(p[2], 0x10), p[13] % 32)
    && q[3] == p[3] % 128 && q[7] % 16 == p[7] % 16 && q[19] % 128 == p[19] % 128
    && (Bit(q[8], 0x80) <==> Bit(p[8], 0x80))
    && (Bit(q[8], 0x20) <==> Bit(p[8], 0x20) || Bit(p[10], 0x02)) && (Bit(q[10], 0x02) <==> Bit(q[8], 0x20))
    && (Bit(q[9], 0x80) <==> Bit(p[9], 0x10)) && (Bit(q[9], 0x20) <==> Bit(p[9], 0x20))
    && (Bit(q[9], 0x08) <==> Bit(p[9], 0x08)) && (Bit(q[22], 0x08) <==> Bit(p[8], 0x40))
    && (Bit(q[10], 0x01) <==> Bit(p[10], 0x01)) && (Bit(q[10], 0x04) <==> Bit(p[10], 0x04))
  }

  lemma SaysRepeats(q: Bytes, frame: Bytes, before: AcState)
    requires ParseFrame(frame, before).Some? && Says(q, ParseFrame(frame, before).value.settings)
    ensures Repeats(q, Body(frame))
  {
  }

  /** A state that is parsed and sent back repeats the response it was parsed from. */
  lemma ParsedIsRepeated(frame: Bytes, before: AcState)
    requires ParseFrame(frame, before).Some?
    ensures Repeats(SetPayload(ParseFrame(frame, before).value.settings), Body(frame))
  {
    var s := ParseFrame(frame, before).value.settings;
    PayloadSays(s);
    SaysRepeats(SetPayload(s), frame, before);
  }

  /** One change a user makes to a state that was read. */
  datatype Change =
    | Power(on: bool) | Mode(mode: byte) | FanSpeed(speed: byte) | Swing(swing: byte) | Target(target: int)
    | Humidity(humidity: byte) | Eco(on: bool) | Turbo(on: bool) | Sleep(on: bool) | Fahrenheit(on: bool)
    | Purifier(on: bool) | FollowMe(on: bool) | AuxHeat(on: bool) | IndependentAuxHeat(on: bool)
    | FreezeProtection(on: bool) | Beep(on: bool)

  function Make(s: Settings, change: Change): Settings {
    match change
    case Power(on) => s.(power := on)
    case Mode(m) => s.(mode := m)
    case FanSpeed(f) => s.(fanSpeed := f)
    case Swing(w) => s.(swingMode := w)
    case Target(t) => s.(target := t)
    case Humidity(h) => s.(targetHumidity := h)
    case Eco(on) => s.(eco := on)
    case Turbo(on) => s.(turbo := on)
    case Sleep(on) => s.(sleep := on)
    case Fahrenheit(on) => s.(fahrenheit := on)
    case Purifier(on) => s.(purifier := on)
    case FollowMe(on) => s.(followMe := on)
    case AuxHeat(on) => s.(auxHeat := on)
    case IndependentAuxHeat(on) => s.(independentAuxHeat := on)
    case FreezeProtection(on) => s.(freezeProtection := on)
    case Beep(on) => s.(beep := on)
  }

  /** A change the request has bits for. */
  predicate Possible(change: Change) {
    match change
    case Mode(m) => m < 8
    case Swing(w) => w < 16
    case Target(t) => 26 <= t <= 87
    case Humidity(h) => h < 128
    case _ => true
  }

  /** Reading a state, making one change and sending it changes that field and no other. */
  lemma ReadModifyWrite(frame: Bytes, before: AcState, change: Change)
    requires ParseFrame(frame, before).Some?
    ensures var s := ParseFrame(frame, before).value.settings;
            ReadSet(SetPayload(s)) == s &&
            (ReadSet(SetPayload(Make(s, change))) == Make(s, change) <==> Possible(change))
  {
    var s := ParseFrame(frame, before).value.settings;
    ParsedIsRepresentable(frame, before);
    SetMeansSettings(s);
    SetMeansSettings(Make(s, change));
    ChangeIsPossible(s, change);
  }

  lemma ChangeIsPossible(s: Settings, change: Change)
    requires Representable(s)
    ensures Representable(Make(s, change)) <==> Possible(change)
  {
  }

  // ----- the layouts by offsets -----

  /** The bytes of a set request that do not depend on the settings: its kind, its source, and the timers off. */
  lemma FixedBytes(s: Settings)
    ensures var p := SetPayload(s);
            && |p| == 24 && p[0] == 0x40 && Bit(p[1], 0x02) && p[4] == 0x7F && p[5] == 0x7F && p[7] / 16 == 3
            && p[6] == 0 && p[11..18] == [0, 0, 0, 0, 0, 0, 0] && p[20] == 0 && p[23] == 0
  {
    FlagsAreCarried(s.beep, s.power, false);
  }

  /** A flag as a weight. */
  function Weight(flag: bool, weight: byte): byte {
    if flag then weight else 0
  }

  function Weights(a: bool, first: byte, b: bool, second: byte, c: bool, third: byte): byte
    requires first as int + second as int + third as int < 256
  {
    Weight(a, first) + Weight(b, second) + Weight(c, third)
  }

  /** Mode and setpoint: sixteen degrees count as none, and the half has a bit of its own. */
  function SetpointByte(target: int, mode: nat, alternate: bool): byte
    requires mode < 8 && if alternate then 26 <= target <= 87 else 32 <= target <= 63
  {
    (if alternate then 0 else target / 2 - 16) + Weight(target % 2 == 1, 16) + 32 * mode
  }

  function AlternateByte(target: int, alternate: bool, alert: bool): byte
    requires if alternate then 26 <= target <= 87 else 32 <= target <= 63
  {
    (if alternate then target / 2 - 12 else 0) + Weight(alert, 32)
  }

  /** What an appliance responds, by the layout of responses; the setpoint in either of its two fields. */
  function ResponsePayload(a: AcState, alternate: bool, temperatures: Bytes): Bytes
    requires |temperatures| == 3 && Responds(a, alternate)
  {
    var s := a.settings;
    [0xC0, Weight(s.power, 1), SetpointByte(s.target, s.mode, alternate), s.fanSpeed, 0, 0, 0, s.swingMode,
     Weights(s.turbo, 32, s.independentAuxHeat, 64, s.followMe, 128), Weights(s.eco, 16, s.purifier, 32, s.auxHeat, 8),
     Weights(s.sleep, 1, s.fahrenheit, 4, false, 0), temperatures[0], temperatures[1],
     AlternateByte(s.target, alternate, a.filterAlert),
     if a.displayOn then 0 else 112,
     temperatures[2], a.errorCode, 0, 0, s.targetHumidity, 0,
     if a.indoorHumidity.Some? then a.indoorHumidity.value else 0]
  }

  /** States an appliance can report: every field fits its bits, and the setpoint the field it is in. */
  predicate Responds(a: AcState, alternate: bool) {
    && a.settings.mode < 8 && a.settings.fanSpeed < 128 && a.settings.swingMode < 16 && a.settings.targetHumidity < 128
    && (if alternate then 26 <= a.settings.target <= 87 else 32 <= a.settings.target <= 63)
    && (a.indoorHumidity.Some? ==> a.indoorHumidity.value > 0)
  }

  function Response(a: AcState, alternate: bool, temperatures: Bytes, messageId: byte): Bytes
    requires |temperatures| == 3 && Responds(a, alternate)
  {
    WrapCommand(0xAC, 0x03, ResponsePayload(a, alternate, temperatures), messageId)
  }

  /** Bit by bit, of three different powers of two: which are in a sum of some of them. */
  lemma ComfortBits(a: bool, b: bool, c: bool)
    ensures var x := Weights(a, 32, b, 64, c, 128); Bit(x, 0x20) == a && Bit(x, 0x40) == b && Bit(x, 0x80) == c
  {
    var x := Weights(a, 32, b, 64, c, 128);
    assert x as int / 32 == (if a then 1 else 0) + (if b then 2 else 0) + (if c then 4 else 0);
  }

  lemma AirBits(a: bool, b: bool, c: bool)
    ensures var x := Weights(a, 16, b, 32, c, 8); Bit(x, 0x10) == a && Bit(x, 0x20) == b && Bit(x, 0x08) == c
  {
    var x := Weights(a, 16, b, 32, c, 8);
    assert x as int / 8 == (if c then 1 else 0) + (if a then 2 else 0) + (if b then 4 else 0);
  }

  lemma SleepBits(a: bool, b: bool)
    ensures var x := Weights(a, 1, b, 4, false, 0); Bit(x, 0x01) == a && Bit(x, 0x04) == b && !Bit(x, 0x02)
  {
  }

  lemma SetpointFields(target: int, mode: nat, alternate: bool, alert: bool)
    requires mode < 8 && if alternate then 26 <= target <= 87 else 32 <= target <= 63
    ensures var x, y := SetpointByte(target, mode, alternate), AlternateByte(target, alternate, alert);
            && (x / 32) % 8 == mode && Bit(y, 0x20) == alert
            && Setpoint(x % 16, Bit(x, 0x10), y % 32) == target
  {
    var primary := if alternate then 0 else target / 2 - 16;
    PrimaryIsCarried(primary, target % 2 == 1, mode);
    assert Weight(target % 2 == 1, 16) == On(target % 2 == 1, 0x10);
  }

  /** A payload, byte by byte, says what a state is parsed from. */
  ghost predicate Tells(p: Bytes, a: AcState) {
    && |p| >= 22 && p[0] == 0xC0 && p[3] < 128
    && Bit(p[1], 0x01) == a.settings.power && (p[2] / 32) % 8 == a.settings.mode && p[3] == a.settings.fanSpeed
    && Setpoint(p[2] % 16, Bit(p[2], 0x10), p[13] % 32) == a.settings.target
    && p[7] % 16 == a.settings.swingMode && (Bit(p[8], 0x20) || Bit(p[10], 0x02) <==> a.settings.turbo)
    && Bit(p[8], 0x40) == a.settings.independentAuxHeat && Bit(p[8], 0x80) == a.settings.followMe
    && Bit(p[9], 0x10) == a.settings.eco && Bit(p[9], 0x20) == a.settings.purifier && Bit(p[9], 0x08) == a.settings.auxHeat
    && Bit(p[10], 0x01) == a.settings.sleep && Bit(p[10], 0x04) == a.settings.fahrenheit
    && p[19] % 128 == a.settings.targetHumidity && p[16] == a.errorCode && Bit(p[13], 0x20) == a.filterAlert
    && (p[14] == 0x70 <==> !a.displayOn)
    && p[21] == if a.indoorHumidity.Some? then a.indoorHumidity.value else 0
  }

  lemma BasicsTell(a: AcState, alternate: bool, temperatures: Bytes)
    requires |temperatures| == 3 && Responds(a, alternate)
    ensures var p := ResponsePayload(a, alternate, temperatures);
            && |p| >= 22 && p[0] == 0xC0 && p[3] < 128
            && Bit(p[1], 0x01) == a.settings.power && p[3] == a.settings.fanSpeed && p[7] % 16 == a.settings.swingMode
            && p[19] % 128 == a.settings.targetHumidity && p[16] == a.errorCode
            && (p[14] == 0x70 <==> !a.displayOn)
            && p[21] == if a.indoorHumidity.Some? then a.indoorHumidity.value else 0
  {
    assert Bit(Weight(a.settings.power, 1), 0x01) == a.settings.power;
  }

  lemma SetpointTells(a: AcState, alternate: bool, temperatures: Bytes)
    requires |temperatures| == 3 && Responds(a, alternate)
    ensures var p := ResponsePayload(a, alternate, temperatures);
            && (p[2] / 32) % 8 == a.settings.mode && Bit(p[13], 0x20) == a.filterAlert
            && Setpoint(p[2] % 16, Bit(p[2], 0x10), p[13] % 32) == a.settings.target
  {
    SetpointFields(a.settings.target, a.settings.mode, alternate, a.filterAlert);
  }

  lemma FlagsTell(a: AcState, alternate: bool, temperatures: Bytes)
    requires |temperatures| == 3 && Responds(a, alternate)
    ensures var p := ResponsePayload(a, alternate, temperatures);
            && (Bit(p[8], 0x20) || Bit(p[10], 0x02) <==> a.settings.turbo)
            && Bit(p[8], 0x40) == a.settings.independentAuxHeat && Bit(p[8], 0x80) == a.settings.followMe
            && Bit(p[9], 0x10) == a.settings.eco && Bit(p[9], 0x20) == a.settings.purifier
            && Bit(p[9], 0x08) == a.settings.auxHeat
            && Bit(p[10], 0x01) == a.settings.sleep && Bit(p[10], 0x04) == a.settings.fahrenheit
  {
    var s := a.settings;
    ComfortBits(s.turbo, s.independentAuxHeat, s.followMe);
    AirBits(s.eco, s.purifier, s.auxHeat);
    SleepBits(s.sleep, s.fahrenheit);
  }

  lemma PayloadTells(a: AcState, alternate: bool, temperatures: Bytes)
    requires |temperatures| == 3 && Responds(a, alternate)
    ensures Tells(ResponsePayload(a, alternate, temperatures), a)
  {
    BasicsTell(a, alternate, temperatures);
    SetpointTells(a, alternate, temperatures);
    FlagsTell(a, alternate, temperatures);
  }

  lemma ToldIsParsed(frame: Bytes, a: AcState, before: AcState)
    requires |frame| >= 33 && frame[0] == 0xAA && Tells(Body(frame), a)
    requires a.indoorHumidity.Some? ==> a.indoorHumidity.value > 0
    ensures ParseFrame(frame, before)
         == Some(a.(settings := a.settings.(freezeProtection := before.settings.freezeProtection, beep := false),
                    indoorHumidity := if a.indoorHumidity.Some? then a.indoorHumidity else before.indoorHumidity))
  {
  }

  /**
   What an appliance reports is what is parsed: every field of it, in either field for the setpoint, whatever
   the temperatures are. Only freeze protection, and a humidity that is not reported, are as they were.
   */
  lemma ResponseIsParsed(a: AcState, alternate: bool, temperatures: Bytes, messageId: byte, before: AcState)
    requires |temperatures| == 3 && Responds(a, alternate)
    ensures ParseFrame(Response(a, alternate, temperatures, messageId), before)
         == Some(a.(settings := a.settings.(freezeProtection := before.settings.freezeProtection, beep := false),
                    indoorHumidity := if a.indoorHumidity.Some? then a.indoorHumidity else before.indoorHumidity))
  {
    var payload, frame := ResponsePayload(a, alternate, temperatures), Response(a, alternate, temperatures, messageId);
    CommandHasZeroResidue(0xAC, 0x03, payload, messageId);
    PayloadTells(a, alternate, temperatures);
    FrontTells(Body(frame), payload, a);
    ToldIsParsed(frame, a, before);
  }

  lemma FrontTells(body: Bytes, payload: Bytes, a: AcState)
    requires |body| >= |payload| && body[..|payload|] == payload && Tells(payload, a)
    ensures Tells(body, a)
  {
    assert forall i :: 0 <= i < |payload| ==> body[i] == payload[i];
  }
}
