/** The speed panel of `ui/src/time_panel.rs`, built for the folded speed
    design of `core/src/game_speed.rs`: four image buttons (pause, normal,
    fast, ultra), each firing its own action when clicked, whose colours
    show the current `GameSpeed`. */
module TimePanel {
  import opened Palette
  import opened FoldedSpeed

  /** The input actions the buttons mock. */
  datatype PanelAction = TogglePause | SetNormal | SetFast | SetUltra

  /** The panel has exactly four children. */
  const BUTTON_COUNT: nat := 4

  /** The child a button sits at, in spawn order, fires this action. */
  function ButtonAction(i: nat): PanelAction
    requires i < BUTTON_COUNT
  {
    match i
    case 0 => TogglePause
    case 1 => SetNormal
    case 2 => SetFast
    case _ => SetUltra
  }

  /** The child that fires an action. */
  function ActionButton(a: PanelAction): (i: nat)
    ensures i < BUTTON_COUNT && ButtonAction(i) == a
  {
    match a
    case TogglePause => 0
    case SetNormal => 1
    case SetFast => 2
    case SetUltra => 3
  }

  /** Each child fires a different action, and every action has a child. */
  lemma ButtonsAndActionsCorrespond(i: nat)
    requires i < BUTTON_COUNT
    ensures ActionButton(ButtonAction(i)) == i
  {
  }

  /** The action that selects a running speed. */
  function SetAction(s: RunSpeed): PanelAction
  {
    match s
    case Normal => SetNormal
    case Fast => SetFast
    case Ultra => SetUltra
  }

  /** `speed as usize + 1`: the child showing a speed. */
  function SpeedButton(s: RunSpeed): (i: nat)
    ensures 1 <= i < BUTTON_COUNT
    ensures ButtonAction(i) == SetAction(s)
  {
    RunIndex(s) + 1
  }

  /** Different speeds are shown on different buttons. */
  lemma SpeedButtonInjective(s: RunSpeed, t: RunSpeed)
    ensures SpeedButton(s) == SpeedButton(t) <==> s == t
  {
  }

  /** The buttons the colour reactions write for a value: the pause button
      and the remembered speed when paused, the running speed otherwise. */
  function Touched(g: GameSpeed): (ix: set<nat>)
    ensures forall i :: i in ix ==> i < BUTTON_COUNT
    ensures 0 in ix <==> g.Paused?
  {
    match g
    case Paused(p) => {0, SpeedButton(p)}
    case Running(s) => {SpeedButton(s)}
  }

  /** The colour of a written button. */
  function Highlight(i: nat): Color
  {
    if i == 0 then Red500 else Blue500
  }

  /** `reset_speed_buttons`: whitens the buttons the value highlights. */
  function Reset(colors: seq<Color>, g: GameSpeed): (r: seq<Color>)
    requires |colors| == BUTTON_COUNT
    ensures |r| == BUTTON_COUNT
    ensures forall i :: 0 <= i < BUTTON_COUNT ==> r[i] == if i in Touched(g) then White else colors[i]
  {
    match g
    case Paused(p) => colors[0 := White][SpeedButton(p) := White]
    case Running(s) => colors[SpeedButton(s) := White]
  }

  /** `update_speed_buttons`: the pause button red and the remembered speed
      blue when paused, the running speed blue otherwise. */
  function Update(colors: seq<Color>, g: GameSpeed): (r: seq<Color>)
    requires |colors| == BUTTON_COUNT
    ensures |r| == BUTTON_COUNT
    ensures forall i :: 0 <= i < BUTTON_COUNT ==> r[i] == if i in Touched(g) then Highlight(i) else colors[i]
  {
    match g
    case Paused(p) => colors[0 := Red500][SpeedButton(p) := Blue500]
    case Running(s) => colors[SpeedButton(s) := Blue500]
  }

  /** The picture a value calls for: red pause button exactly when paused,
      exactly one blue button, the one of the current or remembered speed. */
  function Shown(g: GameSpeed): (r: seq<Color>)
    ensures |r| == BUTTON_COUNT
    ensures r[0] == (if g.Paused? then Red500 else White)
    ensures forall s: RunSpeed :: r[SpeedButton(s)] == (if s == RemembersSpeed(g) then Blue500 else White)
  {
    seq(BUTTON_COUNT, i requires 0 <= i < BUTTON_COUNT =>
      if i == 0 then (if g.Paused? then Red500 else White)
      else if i == SpeedButton(RemembersSpeed(g)) then Blue500 else White)
  }

  /** The speed a value runs at or will resume at. */
  function RemembersSpeed(g: GameSpeed): RunSpeed
  {
    match g case Paused(p) => p case Running(s) => s
  }

  /** Every button starts with the image node's default white. */
  const INITIAL: seq<Color> := [White, White, White, White]

  /** Inserting `SpeedPanel` after the hierarchy is spawned runs the update
      for the current value on all-white buttons, which shows that value. */
  lemma SpawnShows(g: GameSpeed)
    ensures Update(INITIAL, g) == Shown(g)
  {
  }

  /** Replacing a `GameSpeed`: `reset_speed_buttons` still sees the old
      value, then `update_speed_buttons` sees the new one. */
  function Replace(colors: seq<Color>, before: GameSpeed, after: GameSpeed): (r: seq<Color>)
    requires |colors| == BUTTON_COUNT
    ensures |r| == BUTTON_COUNT
    ensures forall i :: 0 <= i < BUTTON_COUNT ==>
              r[i] == if i in Touched(after) then Highlight(i)
                      else if i in Touched(before) then White
                      else colors[i]
  {
    Update(Reset(colors, before), after)
  }

  /** Whatever the old and new values, a panel that showed the old value
      shows the new one after the replacement. */
  lemma {:induction false} ReplaceKeepsShown(before: GameSpeed, after: GameSpeed)
    ensures Replace(Shown(before), before, after) == Shown(after)
  {
    var r := Replace(Shown(before), before, after);
    forall i | 0 <= i < BUTTON_COUNT
      ensures r[i] == Shown(after)[i]
    {
      if i > 0 {
        var s := match i case 1 => Normal case 2 => Fast case _ => Ultra;
        assert SpeedButton(s) == i;
      }
    }
  }

  /** Resetting after an update restores exactly the buttons the update
      wrote, when they were white, and leaves every other button as is. */
  lemma ResetUndoesUpdate(colors: seq<Color>, g: GameSpeed)
    requires |colors| == BUTTON_COUNT
    requires forall i :: i in Touched(g) ==> colors[i] == White
    ensures Reset(Update(colors, g), g) == colors
  {
  }
}
