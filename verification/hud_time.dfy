/** The life-mode time HUD of `ui/src/hud/family/life/time.rs`: weekday and
    clock labels, a pause button and one button per speed.  Clicks and key
    bindings queue `Paused` and `GameSpeed` inserts; reactions to those
    inserts recolour the buttons. */
module HudTime {
  import opened Maybe
  import opened Palette
  import Speed
  import Time

  // ------------------------------------------------------------ Bindings

  datatype Key = Digit0 | Digit1 | Digit2 | Digit3 | OtherKey

  /** The two input actions; `SetSpeed` is fired in the context of one of
      the speed buttons, given by its position among them. */
  datatype HudAction = TogglePause | SetSpeed(button: nat)

  /** The speed buttons in spawn order, each carrying its `SpeedButton`. */
  const SPEED_BUTTONS: seq<Speed.GameSpeed> := [Speed.Normal, Speed.Fast, Speed.Ultra]

  /** The key bound to each button. */
  function KeyAction(k: Key): (a: Option<HudAction>)
    ensures a.Some? && a.value.SetSpeed? ==> a.value.button < |SPEED_BUTTONS|
  {
    match k
    case Digit0 => Some(TogglePause)
    case Digit1 => Some(SetSpeed(0))
    case Digit2 => Some(SetSpeed(1))
    case Digit3 => Some(SetSpeed(2))
    case OtherKey => None
  }

  /** Digit0 pauses or resumes, and Digit1, Digit2 and Digit3 select normal,
      fast and ultra speed; no other key does anything. */
  lemma KeyBindings()
    ensures KeyAction(Digit0) == Some(TogglePause)
    ensures SPEED_BUTTONS[KeyAction(Digit1).value.button] == Speed.Normal
    ensures SPEED_BUTTONS[KeyAction(Digit2).value.button] == Speed.Fast
    ensures SPEED_BUTTONS[KeyAction(Digit3).value.button] == Speed.Ultra
    ensures KeyAction(OtherKey).None?
  {
  }

  // ------------------------------------------------------------ Requests

  /** The component-resource inserts the reactions queue. */
  datatype Command = InsertSpeed(speed: Speed.GameSpeed) | InsertPaused(paused: bool)

  /** `toggle_pause`: insert the negation of the current `Paused`. */
  function TogglePauseCommands(paused: bool): (cs: seq<Command>)
    ensures |cs| == 1 && cs[0].InsertPaused? && cs[0].paused != paused
  {
    [InsertPaused(Speed.Toggled(paused))]
  }

  /** `set_speed`: insert the button's speed, and unpause only when paused. */
  function SetSpeedCommands(speed: Speed.GameSpeed, paused: bool): (cs: seq<Command>)
    ensures |cs| == if paused then 2 else 1
    ensures cs[0] == InsertSpeed(speed)
    ensures paused ==> cs[1] == InsertPaused(false)
    ensures forall i :: 0 <= i < |cs| && cs[i].InsertPaused? ==> paused && !cs[i].paused
  {
    if paused then [InsertSpeed(speed), InsertPaused(false)] else [InsertSpeed(speed)]
  }

  /** The commands an action queues. */
  function Commands(a: HudAction, st: Speed.SpeedState): seq<Command>
    requires a.SetSpeed? ==> a.button < |SPEED_BUTTONS|
  {
    match a
    case TogglePause => TogglePauseCommands(st.paused)
    case SetSpeed(b) => SetSpeedCommands(SPEED_BUTTONS[b], st.paused)
  }

  // ------------------------------------------------------------ Colours

  /** `update_pause_button`: red while paused, white otherwise. */
  function PauseButtonColor(paused: bool): (c: Color)
    ensures c == Red500 <==> paused
    ensures c == White <==> !paused
  {
    if paused then Red500 else White
  }

  /** The first speed button carrying `s`, as the query's `find` returns. */
  function FindFirst(buttons: seq<Speed.GameSpeed>, s: Speed.GameSpeed): (r: Option<nat>)
    ensures r.None? <==> s !in buttons
    ensures r.Some? ==> r.value < |buttons| && buttons[r.value] == s
    ensures r.Some? ==> forall j :: 0 <= j < r.value ==> buttons[j] != s
  {
    if |buttons| == 0 then None
    else if buttons[0] == s then Some(0)
    else match FindFirst(buttons[1..], s)
      case None => None
      case Some(i) => Some(i + 1)
  }

  /** Paints the first button carrying `s`, if any. */
  function Paint(colors: seq<Color>, s: Speed.GameSpeed, c: Color): (r: seq<Color>)
    requires |colors| == |SPEED_BUTTONS|
    ensures |r| == |colors|
  {
    match FindFirst(SPEED_BUTTONS, s)
    case None => colors
    case Some(i) => colors[i := c]
  }

  /** `reset_speed_button`: whitens the button of the speed being replaced. */
  function ResetSpeedButton(colors: seq<Color>, before: Speed.GameSpeed): (r: seq<Color>)
    requires |colors| == |SPEED_BUTTONS|
    ensures |r| == |colors|
    ensures forall i :: 0 <= i < |r| ==> r[i] == if SPEED_BUTTONS[i] == before then White else colors[i]
  {
    Paint(colors, before, White)
  }

  /** `update_speed_button`: turns the button of the inserted speed blue. */
  function UpdateSpeedButton(colors: seq<Color>, after: Speed.GameSpeed): (r: seq<Color>)
    requires |colors| == |SPEED_BUTTONS|
    ensures |r| == |colors|
    ensures forall i :: 0 <= i < |r| ==> r[i] == if SPEED_BUTTONS[i] == after then Blue500 else colors[i]
  {
    Paint(colors, after, Blue500)
  }

  // ------------------------------------------------------------ Labels

  /** `update_weekday`: the label is cleared, then the weekday written. */
  function WeekdayLabel(text: string, w: Time.Weekday): (r: string)
    ensures |r| == 3
  {
    text[..0] + Time.WeekdayName(w)
  }

  /** The weekday label reads back as the weekday it was written for. */
  lemma WeekdayLabelReadsBack(text: string, w: Time.Weekday)
    ensures Time.ParseWeekday(WeekdayLabel(text, w)) == Some(w)
  {
    Time.WeekdayNameRoundTrip(w);
    assert WeekdayLabel(text, w) == Time.WeekdayName(w);
  }

  /** `update_clock`: the label is cleared, then `HH:MM` written. */
  function ClockLabel(text: string, c: Time.Clock): (r: string)
    ensures Time.ValidClock(c) ==> |r| == 5 && r[2] == ':'
  {
    text[..0] + Time.ClockText(c)
  }

  /** The clock label reads back as the clock it was written for. */
  lemma ClockLabelReadsBack(text: string, c: Time.Clock)
    requires Time.ValidClock(c)
    ensures Time.ParseClock(ClockLabel(text, c)) == Some(c)
  {
    Time.ClockTextRoundTrip(c);
    assert ClockLabel(text, c) == Time.ClockText(c);
  }

  /** The labels never accumulate: each shows only the latest value. */
  lemma LabelsShowOnlyTheLatest(a: string, b: string, w: Time.Weekday, c: Time.Clock)
    ensures WeekdayLabel(a, w) == WeekdayLabel(b, w)
    ensures ClockLabel(a, c) == ClockLabel(b, c)
  {
  }

  // ------------------------------------------------------------ The HUD

  /** The speed entity with the applied relative speed, and the colours of
      the pause button and of the speed buttons. */
  datatype Hud = Hud(speed: Speed.SpeedState, pauseColor: Color, speedColors: seq<Color>)

  /** The buttons show the speed entity: the pause button is red exactly
      while paused and exactly the current speed's button is blue. */
  predicate Displays(h: Hud)
  {
    && Speed.Consistent(h.speed)
    && h.pauseColor == PauseButtonColor(h.speed.paused)
    && |h.speedColors| == |SPEED_BUTTONS|
    && forall i :: 0 <= i < |SPEED_BUTTONS| ==> h.speedColors[i] == if SPEED_BUTTONS[i] == h.speed.speed then Blue500 else White
  }

  /** One queued insert and its reactions.  A `GameSpeed` insert replaces
      the old value, so `reset_speed_button` still sees the old speed. */
  function Apply(h: Hud, c: Command): (r: Hud)
    requires |h.speedColors| == |SPEED_BUTTONS|
    ensures |r.speedColors| == |SPEED_BUTTONS|
    ensures c.InsertSpeed? ==> r.speed == Speed.InsertSpeed(h.speed, c.speed) && r.pauseColor == h.pauseColor
    ensures c.InsertPaused? ==> r.speed == Speed.InsertPaused(h.speed, c.paused) && r.speedColors == h.speedColors
  {
    match c
    case InsertSpeed(s) =>
      var reset := ResetSpeedButton(h.speedColors, h.speed.speed);
      h.(speed := Speed.InsertSpeed(h.speed, s), speedColors := UpdateSpeedButton(reset, s))
    case InsertPaused(p) =>
      h.(speed := Speed.InsertPaused(h.speed, p), pauseColor := PauseButtonColor(p))
  }

  function ApplyAll(h: Hud, cs: seq<Command>): (r: Hud)
    requires |h.speedColors| == |SPEED_BUTTONS|
    ensures |r.speedColors| == |SPEED_BUTTONS|
    decreases |cs|
  {
    if |cs| == 0 then h else ApplyAll(Apply(h, cs[0]), cs[1..])
  }

  /** Every insert keeps the buttons in step with the speed entity. */
  lemma ApplyKeepsDisplays(h: Hud, c: Command)
    requires Displays(h)
    ensures Displays(Apply(h, c))
  {
  }

  lemma {:induction false} ApplyAllKeepsDisplays(h: Hud, cs: seq<Command>)
    requires Displays(h)
    ensures Displays(ApplyAll(h, cs))
    decreases |cs|
  {
    if |cs| > 0 {
      ApplyKeepsDisplays(h, cs[0]);
      ApplyAllKeepsDisplays(Apply(h, cs[0]), cs[1..]);
    }
  }

  /** `spawn`: the buttons start white, and inserting `SpeedPanel` runs
      `update_pause_button` and `update_speed_button` for the current state. */
  function Spawn(st: Speed.SpeedState): (h: Hud)
    requires Speed.Consistent(st)
    ensures Displays(h)
    ensures h.speed == st
  {
    Hud(st, PauseButtonColor(st.paused), UpdateSpeedButton([White, White, White], st.speed))
  }

  /** Toggling pause flips `Paused`, keeps the speed, and applies 0 or the
      speed's multiplier accordingly. */
  lemma TogglePauseFlips(h: Hud)
    requires Displays(h)
    ensures var r := ApplyAll(h, Commands(TogglePause, h.speed));
            && r.speed.paused == !h.speed.paused && r.speed.speed == h.speed.speed
            && r.speed.applied == Speed.Effective(!h.speed.paused, h.speed.speed)
  {
  }

  /** Choosing a speed always leaves the game running at that speed, with
      the buttons showing it; a running game's `Paused` is not inserted. */
  lemma {:induction false} SetSpeedRuns(h: Hud, b: nat)
    requires Displays(h) && b < |SPEED_BUTTONS|
    ensures var r := ApplyAll(h, Commands(SetSpeed(b), h.speed));
            && !r.speed.paused && r.speed.speed == SPEED_BUTTONS[b]
            && r.speed.applied == Speed.Multiplier(SPEED_BUTTONS[b])
            && Displays(r)
    ensures !h.speed.paused ==> forall c :: c in Commands(SetSpeed(b), h.speed) ==> c.InsertSpeed?
  {
    var cs := Commands(SetSpeed(b), h.speed);
    ApplyAllKeepsDisplays(h, cs);
    var h1 := Apply(h, cs[0]);
    assert cs[1..] == if h.speed.paused then [InsertPaused(false)] else [];
    if h.speed.paused {
      assert ApplyAll(h1, cs[1..]) == ApplyAll(Apply(h1, InsertPaused(false)), []);
    }
  }

  /** While the buttons show the speed entity, exactly one speed button is
      blue: the one of the current speed. */
  lemma DisplaysOneBlueSpeed(h: Hud, b: nat)
    requires Displays(h) && b < |SPEED_BUTTONS|
    requires h.speed.speed == SPEED_BUTTONS[b]
    ensures forall i :: 0 <= i < |SPEED_BUTTONS| ==> (h.speedColors[i] == Blue500 <==> i == b)
  {
  }
}
