/**
 LED arbitration: three light states, of which the most urgent lit one is shown
 on six LED nodes. What the nodes hold depends on the three stored states only.
 */
module Lights {
  import opened CTypes
  import opened LedScale

  datatype FlashMode = FlashNone | FlashTimed | FlashHardware

  datatype LightState = LightState(color: int, flashMode: FlashMode, flashOnMS: int, flashOffMS: int)

  /** The blink and brightness nodes of the three LEDs. */
  datatype Leds = Leds(redBlink: int, greenBlink: int, blueBlink: int, red: int, green: int, blue: int)

  const DARK := Leds(0, 0, 0, 0, 0, 0)

  /** Colours are unsigned 32-bit values. */
  ghost predicate ValidState(s: LightState) { 0 <= s.color < UINT_LIMIT }

  // ----- colours -----

  function Red(color: int): nat { color / 0x1_0000 % 0x100 }

  function Green(color: int): nat { color / 0x100 % 0x100 }

  function Blue(color: int): nat { color % 0x100 }

  predicate IsLit(s: LightState) { s.color % 0x100_0000 != 0 }

  function RgbToBrightness(s: LightState): int {
    (77 * Red(s.color) + 150 * Green(s.color) + 29 * Blue(s.color)) / 0x100
  }

  /** Brightness is a byte, grows with every channel, and of a grey is the grey itself. */
  lemma BrightnessIsWeightedMean(s: LightState, t: LightState)
    ensures 0 <= RgbToBrightness(s) <= 255
    ensures Red(s.color) <= Red(t.color) && Green(s.color) <= Green(t.color) && Blue(s.color) <= Blue(t.color)
      ==> RgbToBrightness(s) <= RgbToBrightness(t)
    ensures Red(s.color) == Green(s.color) == Blue(s.color) ==> RgbToBrightness(s) == Red(s.color)
  {
  }

  // ----- what is shown -----

  /** A channel in 48ths, rounded down. */
  function Brightness(channel: int): int { 48 * channel / 255 }

  /** The source computes it in floats. */
  method ScaleChannel(channel: nat) returns (brightness: nat)
    requires channel <= 255
    ensures brightness == Brightness(channel)
  {
    brightness := Scaled(channel);
    ScaledIsFloor(channel);
  }

  function Blinks(channel: int): int { if channel > 127 then 1 else 0 }

  /** A state that flashes: with both times set it blinks, with only an on time it is steady, else off. */
  predicate Flashes(s: LightState) {
    s.flashMode != FlashNone && s.flashOnMS + s.flashOffMS != 0
    && !(s.flashOnMS > 0 && s.flashOffMS == 0) && s.flashOnMS != 0
  }

  predicate FlashedOff(s: LightState) {
    s.flashMode != FlashNone && s.flashOnMS + s.flashOffMS != 0 && s.flashOnMS == 0
  }

  /** The nodes after a state is shown on dark LEDs. */
  function Shown(s: LightState): Leds {
    if Flashes(s) && s.color != 0 then
      var r, g, b := Blinks(Red(s.color)), Blinks(Green(s.color)), Blinks(Blue(s.color));
      if r == 0 && g == 0 && b == 0 then Leds(1, 1, 1, 0, 0, 0) else Leds(r, g, b, 0, 0, 0)
    else if FlashedOff(s) then DARK
    else Leds(0, 0, 0, Brightness(Red(s.color)), Brightness(Green(s.color)), Brightness(Blue(s.color)))
  }

  /** The most urgent lit state, else the battery's. */
  function MostUrgent(attention: LightState, notification: LightState, battery: LightState): LightState {
    if IsLit(attention) then attention else if IsLit(notification) then notification else battery
  }

  /** No LED blinks and glows at once, and brightness stays in 0..48. */
  ghost predicate SaneLeds(l: Leds) {
    && 0 <= l.redBlink <= 1 && 0 <= l.greenBlink <= 1 && 0 <= l.blueBlink <= 1
    && 0 <= l.red <= 48 && 0 <= l.green <= 48 && 0 <= l.blue <= 48
    && (l.redBlink == 0 || l.red == 0) && (l.greenBlink == 0 || l.green == 0) && (l.blueBlink == 0 || l.blue == 0)
  }

  lemma ShownIsSane(s: LightState)
    requires ValidState(s)
    ensures SaneLeds(Shown(s))
  {
  }

  lemma DarkHasNoChannel(color: int)
    requires color % 0x100_0000 == 0
    ensures Red(color) == 0 && Green(color) == 0 && Blue(color) == 0
  {
    var q := color / 0x100_0000;
    assert color / 0x1_0000 == q * 0x100 && color / 0x100 == q * 0x1_0000;
  }

  /**
   Showing a dark state leaves the LEDs dark, unless it flashes with alpha bits
   set: then it reaches the white default and blinks.
   */
  lemma DarkStateStaysDarkIff(s: LightState)
    requires ValidState(s) && !IsLit(s)
    ensures Shown(s) == DARK <==> !(Flashes(s) && s.color != 0)
  {
    DarkHasNoChannel(s.color);
  }

  // ----- the light device -----

  datatype Source = Battery | Notifications | Attention

  datatype Stored = Stored(battery: LightState, notification: LightState, attention: LightState)

  function Store(st: Stored, source: Source, s: LightState): Stored {
    match source
    case Battery => st.(battery := s)
    case Notifications => st.(notification := s)
    case Attention => st.(attention := s)
  }

  function Display(st: Stored): Leds {
    Shown(MostUrgent(st.attention, st.notification, st.battery))
  }

  class LightDevice {
    var gBattery: LightState
    var gNotification: LightState
    var gAttention: LightState
    var leds: Leds

    ghost function States(): Stored
      reads this
    {
      Stored(gBattery, gNotification, gAttention)
    }

    /** The nodes hold whatever they held before. */
    constructor (dark: LightState, nodes: Leds)
      ensures States() == Stored(dark, dark, dark) && leds == nodes
    {
      gBattery, gNotification, gAttention := dark, dark, dark;
      leds := nodes;
    }

    /** `present` is false for a null device, on which nothing is written. */
    method ClearSpeakerLight(present: bool) returns (err: int)
      modifies this`leds
      ensures err == (if present then 0 else -1) && leds == if present then DARK else old(leds)
    {
      if !present {
        return -1;
      }
      leds := leds.(redBlink := 0);
      leds := leds.(greenBlink := 0);
      leds := leds.(blueBlink := 0);
      leds := leds.(red := 0);
      leds := leds.(green := 0);
      leds := leds.(blue := 0);
      return 0;
    }

    /** Writes the blink nodes or the brightness nodes, leaving the others. */
    method SetSpeakerLightLocked(present: bool, state: LightState) returns (err: int)
      requires ValidState(state)
      modifies this`leds
      ensures !present ==> err == -1 && leds == old(leds)
      ensures present ==> err == 0
      ensures present && (Flashes(state) && state.color != 0) ==>
        leds == Shown(state).(red := old(leds).red, green := old(leds).green, blue := old(leds).blue)
      ensures present && !(Flashes(state) && state.color != 0) ==>
        leds == Shown(state).(redBlink := old(leds).redBlink, greenBlink := old(leds).greenBlink,
                              blueBlink := old(leds).blueBlink)
    {
      if !present {
        return -1;
      }
      var flashMode, colorRGB := state.flashMode, state.color;
      if state.flashOnMS + state.flashOffMS == 0 {
        flashMode := FlashNone;
      }
      if flashMode != FlashNone {
        if state.flashOnMS > 0 && state.flashOffMS == 0 {
          flashMode := FlashNone;
        } else if state.flashOnMS == 0 {
          flashMode := FlashNone;
          colorRGB := 0;
        }
      }
      var red, green, blue := Red(colorRGB), Green(colorRGB), Blue(colorRGB);
      if flashMode != FlashNone && colorRGB != 0 {
        red := if red > 127 then 255 else 0;
        green := if green > 127 then 255 else 0;
        blue := if blue > 127 then 255 else 0;
        if red == 0 && green == 0 && blue == 0 {
          red, green, blue := 255, 255, 255;
        }
        leds := leds.(redBlink := if red > 0 then 1 else 0);
        leds := leds.(greenBlink := if green > 0 then 1 else 0);
        leds := leds.(blueBlink := if blue > 0 then 1 else 0);
      } else {
        red := ScaleChannel(red);
        green := ScaleChannel(green);
        blue := ScaleChannel(blue);
        leds := leds.(red := red);
        leds := leds.(green := green);
        leds := leds.(blue := blue);
      }
      return 0;
    }

    method HandleSpeakerBatteryLocked(present: bool)
      requires ValidState(gBattery) && ValidState(gNotification) && ValidState(gAttention)
      modifies this`leds
      ensures leds == if present then Display(States()) else old(leds)
    {
      var err := ClearSpeakerLight(present);
      if IsLit(gAttention) {
        err := SetSpeakerLightLocked(present, gAttention);
      } else if IsLit(gNotification) {
        err := SetSpeakerLightLocked(present, gNotification);
      } else {
        err := SetSpeakerLightLocked(present, gBattery);
      }
    }

    /** set_light_battery, set_light_notifications and set_light_attention. */
    method SetLight(present: bool, source: Source, state: LightState) returns (err: int)
      requires ValidState(state) && ValidState(gBattery) && ValidState(gNotification) && ValidState(gAttention)
      modifies this
      ensures err == 0 && States() == Store(old(States()), source, state)
      ensures leds == if present then Display(States()) else old(leds)
    {
      match source {
        case Battery => gBattery := state;
        case Notifications => gNotification := state;
        case Attention => gAttention := state;
      }
      HandleSpeakerBatteryLocked(present);
      return 0;
    }
  }

  // ----- what the nodes show, told by colour bytes -----

  /** The colour of four bytes: alpha, red, green and blue. */
  function Color(a: byte, r: byte, g: byte, b: byte): int {
    ((a as int * 0x100 + r as int) * 0x100 + g as int) * 0x100 + b as int
  }

  lemma BytesOfColor(a: byte, r: byte, g: byte, b: byte)
    ensures 0 <= Color(a, r, g, b) < UINT_LIMIT
    ensures Red(Color(a, r, g, b)) == r as int && Green(Color(a, r, g, b)) == g as int && Blue(Color(a, r, g, b)) == b as int
    ensures Color(a, r, g, b) % 0x100_0000 == (r as int * 0x100 + g as int) * 0x100 + b as int
    ensures Color(a, r, g, b) == 0 <==> a == r == g == b == 0
  {
    var c := Color(a, r, g, b);
    assert c / 0x100 == (a as int * 0x100 + r as int) * 0x100 + g as int;
    assert c / 0x1_0000 == a as int * 0x100 + r as int;
  }

  /** The weights of the three channels in 256ths, rounded down; alpha does not count. */
  lemma BrightnessOfBytes(s: LightState, a: byte, r: byte, g: byte, b: byte)
    requires s.color == Color(a, r, g, b)
    ensures 256 * RgbToBrightness(s) <= 77 * r as int + 150 * g as int + 29 * b as int < 256 * (RgbToBrightness(s) + 1)
  {
    BytesOfColor(a, r, g, b);
  }

  /** Some colour byte of the state is not zero, whatever its alpha. */
  predicate HasColor(s: LightState, a: byte, r: byte, g: byte, b: byte) {
    s.color == Color(a, r, g, b) && !(r == g == b == 0)
  }

  predicate NoColor(s: LightState, a: byte) { s.color == Color(a, 0, 0, 0) }

  /** With colour in the attention state the other two do not show. */
  lemma AttentionWins(st: Stored, a: byte, r: byte, g: byte, b: byte, notification: LightState, battery: LightState)
    requires HasColor(st.attention, a, r, g, b)
    ensures Display(st) == Display(st.(notification := notification, battery := battery)) == Shown(st.attention)
  {
    BytesOfColor(a, r, g, b);
  }

  /** Without it, with colour in the notification, neither battery nor a colourless attention state shows. */
  lemma NotificationIsNext(st: Stored, a0: byte, a: byte, r: byte, g: byte, b: byte,
                           a1: byte, attention: LightState, battery: LightState)
    requires NoColor(st.attention, a0) && HasColor(st.notification, a, r, g, b) && NoColor(attention, a1)
    ensures Display(st) == Display(st.(attention := attention, battery := battery)) == Shown(st.notification)
  {
    BytesOfColor(a, r, g, b);
    BytesOfColor(a0, 0, 0, 0);
    BytesOfColor(a1, 0, 0, 0);
  }

  /** Without colour in either, the battery shows, lit or not. */
  lemma BatteryIsLast(st: Stored, a: byte, a': byte)
    requires NoColor(st.attention, a) && NoColor(st.notification, a')
    ensures Display(st) == Shown(st.battery)
  {
    BytesOfColor(a, 0, 0, 0);
    BytesOfColor(a', 0, 0, 0);
  }

  /**
   A state without flashing, without flash times or flashing without pause shows
   steady: each channel in 48ths, rounded down.
   */
  lemma SteadyShowsBytes(s: LightState, a: byte, r: byte, g: byte, b: byte)
    requires s.color == Color(a, r, g, b)
    requires s.flashMode == FlashNone || s.flashOnMS + s.flashOffMS == 0 || (s.flashOnMS > 0 && s.flashOffMS == 0)
    ensures Shown(s) == Leds(0, 0, 0, 48 * r as int / 255, 48 * g as int / 255, 48 * b as int / 255)
  {
    BytesOfColor(a, r, g, b);
  }

  /** Any other state with a colour or alpha that is ever on blinks the channels above 127, or all three if there is none. */
  lemma FlashingBlinksBytes(s: LightState, a: byte, r: byte, g: byte, b: byte)
    requires s.color == Color(a, r, g, b) != 0 && s.flashMode != FlashNone && s.flashOnMS != 0
    requires s.flashOnMS + s.flashOffMS != 0 && !(s.flashOnMS > 0 && s.flashOffMS == 0)
    ensures var l, none := Shown(s), r <= 127 && g <= 127 && b <= 127;
      && l.red == l.green == l.blue == 0
      && l.redBlink == (if r > 127 || none then 1 else 0)
      && l.greenBlink == (if g > 127 || none then 1 else 0)
      && l.blueBlink == (if b > 127 || none then 1 else 0)
  {
    BytesOfColor(a, r, g, b);
  }

  /** A flashing state that is never on is dark. */
  lemma NeverOnIsDark(s: LightState)
    requires s.flashMode != FlashNone && s.flashOnMS == 0 && s.flashOffMS != 0
    ensures Shown(s) == Leds(0, 0, 0, 0, 0, 0)
  {
  }

  // ----- runs of updates -----

  datatype Update = Update(present: bool, source: Source, state: LightState)

  /**
   The stored states and the nodes after a run of updates. That each update
   leaves the nodes at Display, whatever they held, is what SetLight ensures.
   */
  function Run(st: Stored, leds: Leds, updates: seq<Update>): (Stored, Leds) {
    if updates == [] then (st, leds)
    else
      var (st1, leds1) := Run(st, leds, updates[..|updates| - 1]);
      var u := updates[|updates| - 1];
      var st2 := Store(st1, u.source, u.state);
      (st2, if u.present then Display(st2) else leds1)
  }

  /** The last state sent from a source, or the one stored before. */
  function LastSent(updates: seq<Update>, source: Source, before: LightState): LightState {
    if updates == [] then before
    else if updates[|updates| - 1].source == source then updates[|updates| - 1].state
    else LastSent(updates[..|updates| - 1], source, before)
  }

  /**
   After any run that ends on a present device the nodes show the most urgent of
   the last states sent, whatever was shown before and in whatever order they came.
   */
  lemma {:induction false} NodesDependOnStoredStates(st: Stored, leds: Leds, updates: seq<Update>)
    ensures Run(st, leds, updates).0
      == Stored(LastSent(updates, Battery, st.battery), LastSent(updates, Notifications, st.notification),
                LastSent(updates, Attention, st.attention))
    ensures updates != [] && updates[|updates| - 1].present ==>
      Run(st, leds, updates).1
      == Shown(MostUrgent(LastSent(updates, Attention, st.attention),
                          LastSent(updates, Notifications, st.notification),
                          LastSent(updates, Battery, st.battery)))
  {
    if updates != [] {
      NodesDependOnStoredStates(st, leds, updates[..|updates| - 1]);
    }
  }

  /** Once a present device has been updated, the nodes stay sane through every further update. */
  lemma {:induction false} NodesStaySane(st: Stored, leds: Leds, updates: seq<Update>)
    requires ValidState(st.battery) && ValidState(st.notification) && ValidState(st.attention)
    requires forall i :: 0 <= i < |updates| ==> ValidState(updates[i].state)
    requires SaneLeds(leds) || exists i :: 0 <= i < |updates| && updates[i].present
    ensures var (st', leds') := Run(st, leds, updates);
      ValidState(st'.battery) && ValidState(st'.notification) && ValidState(st'.attention) && SaneLeds(leds')
  {
    RunKeepsValid(st, leds, updates);
    if updates != [] {
      var rest, u := updates[..|updates| - 1], updates[|updates| - 1];
      RunKeepsValid(st, leds, rest);
      if u.present {
        var st' := Run(st, leds, updates).0;
        ShownIsSane(MostUrgent(st'.attention, st'.notification, st'.battery));
      } else {
        assert SaneLeds(leds) || exists i :: 0 <= i < |rest| && rest[i].present;
        NodesStaySane(st, leds, rest);
      }
    }
  }

  lemma {:induction false} RunKeepsValid(st: Stored, leds: Leds, updates: seq<Update>)
    requires ValidState(st.battery) && ValidState(st.notification) && ValidState(st.attention)
    requires forall i :: 0 <= i < |updates| ==> ValidState(updates[i].state)
    ensures var st' := Run(st, leds, updates).0;
      ValidState(st'.battery) && ValidState(st'.notification) && ValidState(st'.attention)
  {
    if updates != [] {
      RunKeepsValid(st, leds, updates[..|updates| - 1]);
    }
  }
}
