/** Named colours of the UI palette that the modelled widgets use.  Only
    their identity matters here, not their RGB values. */
module Palette {

  datatype Color = White | Black | Red500 | Blue400 | Blue500 | Neutral200 | Neutral600
}

/** Button colouring of `ui/src/widget/button/style.rs`: a style names one
    colour per (interaction, toggle) situation, and `update_style` writes
    the chosen colour into the button's image, text or background. */
module Style {
  import opened Palette
  import Maybe

  /** Bevy's `Interaction`. */
  datatype Interaction = Pressed | Hovered | None

  /** The four situations a style distinguishes. */
  datatype Slot = HoveredPressedSlot | PressedSlot | HoveredSlot | NoneSlot

  datatype ButtonStyle = ButtonStyle(hoveredPressed: Color, pressed: Color, hovered: Color, none: Color)

  /** `ButtonStyle::WHITE`. */
  const WHITE: ButtonStyle := ButtonStyle(Blue400, Blue500, Neutral200, White)

  /** `ButtonStyle::BLACK`: `WHITE` with darker hovered and idle colours. */
  const BLACK: ButtonStyle := WHITE.(hovered := Neutral600, none := Black)

  /** `Default for ButtonStyle`. */
  function DefaultStyle(): (s: ButtonStyle)
    ensures s == WHITE
    ensures s.none == White && s.pressed == Blue500
  {
    WHITE
  }

  function ColorAt(style: ButtonStyle, slot: Slot): Color
  {
    match slot
    case HoveredPressedSlot => style.hoveredPressed
    case PressedSlot => style.pressed
    case HoveredSlot => style.hovered
    case NoneSlot => style.none
  }

  /** The decision table of `get_color`: a press, or an idle toggled
      button, looks pressed; hovering a toggled button looks hovered-pressed. */
  function SlotOf(interaction: Interaction, toggled: bool): (slot: Slot)
    ensures slot == PressedSlot <==> interaction == Pressed || (interaction == None && toggled)
    ensures slot == HoveredPressedSlot <==> interaction == Hovered && toggled
    ensures slot == HoveredSlot <==> interaction == Hovered && !toggled
    ensures slot == NoneSlot <==> interaction == None && !toggled
  {
    match (interaction, toggled)
    case (Pressed, _) => PressedSlot
    case (None, true) => PressedSlot
    case (Hovered, true) => HoveredPressedSlot
    case (Hovered, false) => HoveredSlot
    case (None, false) => NoneSlot
  }

  /** `ButtonStyle::get_color`; a button without `Toggled` counts as untoggled. */
  function GetColor(style: ButtonStyle, interaction: Interaction, toggled: Maybe.Option<bool>): (c: Color)
    ensures interaction == Pressed ==> c == style.pressed
    ensures interaction == None ==> c == (if toggled == Maybe.Some(true) then style.pressed else style.none)
    ensures interaction == Hovered ==> c == (if toggled == Maybe.Some(true) then style.hoveredPressed else style.hovered)
  {
    var t := match toggled case Some(b) => b case None => false;
    ColorAt(style, SlotOf(interaction, t))
  }

  /** A missing `Toggled` behaves exactly like `Toggled(false)`. */
  lemma MissingToggledIsUntoggled(style: ButtonStyle, interaction: Interaction)
    ensures GetColor(style, interaction, Maybe.None) == GetColor(style, interaction, Maybe.Some(false))
  {
  }

  /** `BLACK` and `WHITE` disagree exactly in the untoggled hovered and idle
      situations. */
  lemma BlackDiffersFromWhiteOnlyWhenUntoggled(interaction: Interaction, toggled: Maybe.Option<bool>)
    ensures GetColor(BLACK, interaction, toggled) != GetColor(WHITE, interaction, toggled)
            <==> interaction != Pressed && toggled != Maybe.Some(true)
  {
  }

  /** Where `update_style` writes the colour. */
  datatype Target = ImageTarget | TextTarget | BackgroundTarget

  /** The colour-bearing parts of a button: optional `ImageNode` and
      `TextColor`, and the `BackgroundColor` every button has. */
  datatype Paint = Paint(image: Maybe.Option<Color>, text: Maybe.Option<Color>, background: Color)

  /** The image if there is one, else the text, else the background. */
  function TargetOf(p: Paint): (t: Target)
    ensures t == ImageTarget <==> p.image.Some?
    ensures t == TextTarget <==> p.image.None? && p.text.Some?
    ensures t == BackgroundTarget <==> p.image.None? && p.text.None?
  {
    if p.image.Some? then ImageTarget
    else if p.text.Some? then TextTarget
    else BackgroundTarget
  }

  /** `update_style` for one button whose interaction or toggle changed. */
  function UpdateStyle(p: Paint, style: ButtonStyle, interaction: Interaction, toggled: Maybe.Option<bool>): (r: Paint)
    ensures var c := GetColor(style, interaction, toggled);
            match TargetOf(p)
            case ImageTarget => r == p.(image := Maybe.Some(c))
            case TextTarget => r == p.(text := Maybe.Some(c))
            case BackgroundTarget => r == p.(background := c)
  {
    var c := GetColor(style, interaction, toggled);
    if p.image.Some? then p.(image := Maybe.Some(c))
    else if p.text.Some? then p.(text := Maybe.Some(c))
    else p.(background := c)
  }

  /** The colour of the part `update_style` writes. */
  function Painted(p: Paint): Color
  {
    match TargetOf(p)
    case ImageTarget => p.image.value
    case TextTarget => p.text.value
    case BackgroundTarget => p.background
  }

  /** `update_style` keeps which parts a button has, so it writes the same
      target again: the written part shows `get_color`'s colour, a second
      run changes nothing, and the paint changes exactly when that part did
      not show the colour already. */
  lemma UpdateStyleShowsColor(p: Paint, style: ButtonStyle, interaction: Interaction, toggled: Maybe.Option<bool>)
    ensures var r := UpdateStyle(p, style, interaction, toggled);
            && r.image.Some? == p.image.Some? && r.text.Some? == p.text.Some?
            && TargetOf(r) == TargetOf(p)
            && Painted(r) == GetColor(style, interaction, toggled)
            && UpdateStyle(r, style, interaction, toggled) == r
            && (r == p <==> Painted(p) == GetColor(style, interaction, toggled))
  {
  }
}
