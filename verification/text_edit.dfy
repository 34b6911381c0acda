/** Text edits of `ui/src/widget/text_edit.rs`: a border colour table, and
    the focus handling that keeps at most one edit active.

    Every text edit carries a `TextInputInactive` flag; the `InputFocus`
    resource remembers the last edit that was activated.  Clicking an
    inactive edit inserts `TextInputInactive(false)` on it; that insert
    deactivates the previously focused edit and moves the focus. */
module TextEdit {
  import opened Maybe
  import Style

  type Entity = nat

  /** The theme's border colours `ACTIVE`, `HOWERED_ACTIVE`, `HOWERED` and
      `INACTIVE` (spelled as in the theme). */
  datatype Border = Active | HoweredActive | Howered | Inactive

  /** `update_style`'s border table. */
  function BorderColor(interaction: Style.Interaction, inactive: bool): (b: Border)
    ensures b == Active <==> interaction == Style.Pressed || (interaction == Style.None && !inactive)
    ensures b == HoweredActive <==> interaction == Style.Hovered && !inactive
    ensures b == Howered <==> interaction == Style.Hovered && inactive
    ensures b == Inactive <==> interaction == Style.None && inactive
  {
    match (interaction, inactive)
    case (Pressed, _) => Active
    case (None, false) => Active
    case (Hovered, false) => HoweredActive
    case (Hovered, true) => Howered
    case (None, true) => Inactive
  }

  function BorderOfSlot(slot: Style.Slot): Border
  {
    match slot
    case PressedSlot => Active
    case HoveredPressedSlot => HoweredActive
    case HoveredSlot => Howered
    case NoneSlot => Inactive
  }

  /** An edit's border follows the same table as a toggle button's colour,
      with "active" in the place of "toggled". */
  lemma BorderFollowsButtonTable(interaction: Style.Interaction, inactive: bool)
    ensures BorderColor(interaction, inactive) == BorderOfSlot(Style.SlotOf(interaction, !inactive))
  {
  }

  /** The `TextInputInactive` flag of every text edit, and `InputFocus`. */
  datatype Edits = Edits(inactive: map<Entity, bool>, focus: Option<Entity>)

  /** Every active edit is the focused one, so at most one edit is active. */
  predicate SingleActive(f: Edits)
  {
    forall e :: e in f.inactive && !f.inactive[e] ==> f.focus == Some(e)
  }

  lemma SingleActiveMeansAtMostOne(f: Edits, a: Entity, b: Entity)
    requires SingleActive(f)
    requires a in f.inactive && !f.inactive[a]
    requires b in f.inactive && !f.inactive[b]
    ensures a == b
  {
  }

  /** `update_focus` exactly as written: after `TextInputInactive(value)` is
      inserted on `e`, an active value deactivates the previous focus and
      focuses `e`.  When the previous focus is `e` itself, that
      deactivation hits `e`. */
  function InsertInactiveAsWritten(f: Edits, e: Entity, value: bool): (r: Edits)
    ensures SingleActive(f) ==> SingleActive(r)
    ensures value ==> r.focus == f.focus
    ensures !value ==> r.focus == Some(e)
  {
    var edits := f.inactive[e := value];
    if value then f.(inactive := edits)
    else
      var edits' := if f.focus.Some? && f.focus.value in edits then edits[f.focus.value := true] else edits;
      Edits(edits', Some(e))
  }

  /** An edit deactivated behind the focus's back (by an insert of
      `TextInputInactive(true)`, which leaves the focus alone) stays
      inactive when it is clicked: the activation deactivates it again as
      the "previous" focus.  Likewise inserting `TextInputInactive(false)`
      again on the focused, active edit deactivates it.  The corrected
      definitions leave it active. */
  lemma ReactivatingFocusedEditAsWritten()
    ensures InsertInactive(InsertInactive(Edits(map[], None), 7, false), 7, true) == Edits(map[7 := true], Some(7))
    ensures var f := Edits(map[7 := true], Some(7));
            var (r, _) := ActivateWith(f, 7, true);
            var (fixed, _) := ActivateCorrected(f, 7);
            r.inactive[7] && r.focus == Some(7) && !fixed.inactive[7]
    ensures InsertInactiveAsWritten(Edits(map[7 := false], Some(7)), 7, false).inactive[7]
    ensures !InsertInactive(Edits(map[7 := false], Some(7)), 7, false).inactive[7]
  {
  }

  /** `update_focus` with the previous focus deactivated only when it is a
      different edit. */
  function InsertInactive(f: Edits, e: Entity, value: bool): (r: Edits)
    ensures e in r.inactive && r.inactive[e] == value
    ensures r.inactive.Keys == f.inactive.Keys + {e}
    ensures value ==> r.focus == f.focus
    ensures !value ==> r.focus == Some(e)
    ensures SingleActive(f) ==> SingleActive(r)
    ensures forall x :: x in f.inactive && x != e && !(f.focus == Some(x) && !value) ==> r.inactive[x] == f.inactive[x]
  {
    var edits := f.inactive[e := value];
    if value then f.(inactive := edits)
    else
      var edits' := if f.focus.Some? && f.focus.value != e && f.focus.value in edits
                    then edits[f.focus.value := true] else edits;
      Edits(edits', Some(e))
  }

  /** `activate` on a click on `clicked`, followed by the `update_focus`
      the insert triggers (`asWritten` picks which `update_focus`).
      Returns the new state and whether the click keeps propagating.  As
      written, clicking an inactive edit that already holds the focus
      leaves it inactive. */
  function ActivateWith(f: Edits, clicked: Entity, asWritten: bool): (r: (Edits, bool))
    ensures r.1 <==> clicked !in f.inactive
    ensures r.0.inactive.Keys == f.inactive.Keys
    ensures clicked !in f.inactive || !f.inactive[clicked] ==> r.0 == f
    ensures clicked in f.inactive && f.inactive[clicked] ==> r.0.focus == Some(clicked)
    ensures clicked in f.inactive && f.inactive[clicked] ==>
              (!r.0.inactive[clicked] <==> !asWritten || f.focus != Some(clicked))
    ensures SingleActive(f) ==> SingleActive(r.0)
  {
    if clicked !in f.inactive then (f, true)
    else if f.inactive[clicked] then
      (if asWritten then InsertInactiveAsWritten(f, clicked, false) else InsertInactive(f, clicked, false), false)
    else (f, false)
  }

  /** `activate` with the corrected `update_focus`: only clicks on text
      edits stop propagating; clicking an inactive edit makes it the one
      active, focused edit, and clicking an active one changes nothing. */
  function ActivateCorrected(f: Edits, clicked: Entity): (r: (Edits, bool))
    ensures r.1 <==> clicked !in f.inactive
    ensures r.0.inactive.Keys == f.inactive.Keys
    ensures clicked !in f.inactive ==> r.0 == f
    ensures clicked in f.inactive && !f.inactive[clicked] ==> r.0 == f
    ensures clicked in f.inactive ==> !r.0.inactive[clicked]
    ensures clicked in f.inactive && f.inactive[clicked] ==> r.0.focus == Some(clicked)
    ensures SingleActive(f) ==> SingleActive(r.0)
  {
    ActivateWith(f, clicked, false)
  }
}
