# Simgine game clock, speed control and UI state machines in Dafny

This project models the core of the Simgine life-simulation game: how the
in-game clock advances from frame time, how pausing and the game speed set
the virtual time's relative speed, and the small UI state machines built
on top of them. The UI parts are the time HUD, the speed panel, the pause
menu, toggle buttons, exclusive groups, text-edit focus, button colouring
and the window title. Two helpers are also modelled: component-backed
resources and the world save paths.

Each Bevy ECS event is modelled as a pure function from the old state to
the new one. An event is a component insert, an observer reaction, or a
queued command. The modelling follows Bevy's rules:

- A `Replace` observer sees the old value.
- An `Insert` observer sees the new value.
- `set_if_neq` and "insert only if changed" are returned as explicit
  flags.
- `Duration` is a natural number of nanoseconds, and `as_secs` truncates.
- `u8` fields are a subset type `0 <= x < 256`.

The files:

| file | module | source |
|---|---|---|
| maybe.dfy | `Maybe` | `Option` and `Result` |
| time.dfy | `Time` | `core/src/time.rs` (the incremental clock) |
| game_time.dfy | `GameTime` | `core/src/game_time.rs` (the elapsed-based clock), cross-checked against `Time` |
| speed.dfy | `Speed` | `core/src/speed.rs` (`Paused` flag and `GameSpeed`) |
| folded_speed.dfy | `FoldedSpeed` | `core/src/game_speed.rs` (pause folded into `GameSpeed`), related to `Speed` |
| style.dfy | `Palette`, `Style` | `ui/src/widget/button/style.rs` |
| text_edit.dfy | `TextEdit` | `ui/src/widget/text_edit.rs` |
| toggled.dfy | `Toggle` | `ui/src/widget/button/toggled.rs` |
| exclusive_group.dfy | `Group` | `ui/src/widget/button/exclusive_group.rs` |
| time_panel.dfy | `TimePanel` | `ui/src/time_panel.rs` |
| hud_time.dfy | `HudTime` | `ui/src/hud/family/life/time.rs` |
| pause_menu.dfy | `PauseMenu` | `ui/src/menu/pause_menu.rs` |
| component_res.dfy | `ComponentRes` | `core/src/component_res.rs` |
| window_name.dfy | `WindowName` | `app/src/window_name.rs` |
| game_paths.dfy | `GamePaths` | `core/src/game_paths.rs` |

## Model

| member | source | states |
|---|---|---|
| Time.Ordinal | core/src/time.rs:77-88 | A weekday's number is below 7. |
| Time.FromOrdinal | core/src/time.rs:92-100 | Gives the weekday whose number is the given one, for every number below 7. |
| Time.OrdinalInjective | core/src/time.rs:77-88 | Different weekdays have different numbers. |
| Time.Advance | core/src/time.rs:90-103 | Advancing by `days` moves the weekday's number forward by `days` modulo 7. |
| Time.AdvanceZero | core/src/time.rs:90-103 | Advancing by zero days leaves the weekday unchanged. |
| Time.AdvanceCompose | core/src/time.rs:90-103 | Advancing by `a` and then by `b` equals advancing by `a + b`; a whole week is the identity. |
| Time.WeekdayName | core/src/time.rs:105-118 | Every weekday displays as exactly three characters. |
| Time.ParseWeekday | core/src/time.rs:105-118 | A parsed name is the displayed name of the weekday returned. |
| Time.WeekdayNameRoundTrip | core/src/time.rs:105-118 | Parsing a weekday's displayed name gives that weekday back, so no two weekdays share a name. |
| Time.DefaultClock | core/src/time.rs:134-141 | The default clock is valid and stands at 13:00, that is 780 in-game minutes after midnight. |
| Time.SecsSinceMidnight | core/src/time.rs:127-132 | The result is a whole number of in-game minutes; on a valid clock it is below one in-game day. |
| Time.ClockAt | core/src/time.rs:127-132 | Every second count below a day maps to a valid clock. |
| Time.SecsSinceMidnightRoundTrip | core/src/time.rs:127-132 | `ClockAt` inverts `secs_since_midnight` on every valid clock, so no time of day is lost. |
| Time.Decimal | core/src/time.rs:143-147 | The text is all digits: one digit below 10, two digits below 100. |
| Time.Pad2 | core/src/time.rs:143-147 | `{:02}` gives exactly two characters for every number below 100. |
| Time.ClockText | core/src/time.rs:143-147 | A valid clock displays as five characters with `:` in the middle. |
| Time.ParseClock | core/src/time.rs:143-147 | Whatever `HH:MM` parses to is a valid clock. |
| Time.Pad2Digits | core/src/time.rs:143-147 | The two padded digits of a number below 100 read back as that number. |
| Time.ClockTextRoundTrip | core/src/time.rs:143-147 | Parsing a valid clock's `HH:MM` text gives the clock back. |
| Time.DefaultState | core/src/time.rs:20-28 | The spawned clock entity has no carry and stands at Monday 13:00, minute 780 of the week. |
| Time.Consume | core/src/time.rs:41-46 | Splits the carry into whole in-game minutes and a remainder below one minute, losing nothing. |
| Time.Roll | core/src/time.rs:48-62 | Adding any number of minutes leaves a valid clock. |
| Time.RollAdvancesCalendar | core/src/time.rs:48-62 | Rolling moves the weekday by the whole days that overflow, and moves the minute of the week forward by the added minutes modulo a week. |
| Time.RollArithmetic | core/src/time.rs:48-62 | The two conditional carries (minutes into hours, hours into days) give the same weekday and minute of the week as plain division. |
| Time.Tick | core/src/time.rs:33-72 | The time fed in equals the minutes consumed plus the new carry, and the new carry is below a minute. Without a whole minute nothing changes and nothing is inserted. A valid clock stays valid. `Weekday` and `Clock` are re-inserted exactly when their values change. |
| Time.TickAdvancesCalendar | core/src/time.rs:33-62 | A tick moves a valid clock's minute of the week forward by exactly the minutes it consumed, modulo a week. |
| Time.ShortTickIsNoOp | core/src/time.rs:41-44 | A frame that leaves the carry under one minute only grows the carry and inserts nothing. |
| Time.MinuteOnlyTickKeepsWeekday | core/src/time.rs:48-67 | When the new minutes stay inside the current hour, the hour is kept and `Weekday` is not re-inserted. |
| Time.TwoDayRolloverFromSunday | core/src/time.rs:55-58 | Two in-game days from Sunday 23:59 land on Tuesday 23:59 in one tick; only `Weekday` is re-inserted. |
| Time.TickAllConservesTime | core/src/time.rs:38-46 | Over any sequence of frames, the consumed minutes plus the final carry equal the starting carry plus the sum of all frame times. |
| Time.TickAllCarryBelowMinute | core/src/time.rs:41-46 | After at least one frame, the carry is below one in-game minute. |
| Time.TickAllKeepsClockValid | core/src/time.rs:48-62 | Over any sequence of frames, a valid clock stays valid. |
| Time.TickAllAdvancesCalendar | core/src/time.rs:33-72 | Over any sequence of frames, the minute of the week moves forward by exactly the total consumed minutes modulo a week. |
| Time.TickAllMinutes | core/src/time.rs:38-46 | Over at least one frame, the total consumed minutes are the whole minutes in the starting carry plus all frame time. |
| GameTime.ElapsedMins | core/src/game_time.rs:62-65 | The elapsed in-game minutes are the whole minutes in the elapsed duration, floor and ceiling included. |
| GameTime.DefaultGameClock | core/src/game_time.rs:73-80 | The clock starts 780 in-game minutes (Monday 13:00) into the game. |
| GameTime.FromElapsedDays | core/src/game_time.rs:94-107 | Day `n` is the weekday `n mod 7` after Monday. |
| GameTime.Load | core/src/game_time.rs:13-18 | After loading, the clock stands at 13:00 while `Weekday`, `Hour` and `Minute` still show their defaults, Monday 00:00. |
| GameTime.Derive | core/src/game_time.rs:40-46 | The derived hour and minute are in range and make up the minute of the day; with the weekday they make up the minute of the week. |
| GameTime.Tick | core/src/game_time.rs:31-55 | The elapsed time grows by the frame time and never goes back. The resources afterwards show the clock. Each of the three is written exactly when its value differs. |
| GameTime.FirstTickShowsDefault | core/src/game_time.rs:31-55 | The first tick, even one of zero length, shows Monday 13:00 and writes only `Hour`. |
| GameTime.DefaultsAgree | core/src/game_time.rs:73-80 | The elapsed clock and the incremental clock of `Time` start at the same moment. |
| GameTime.TickPreservesAgreement | core/src/game_time.rs:31-55 | Feeding the same frame to both clock designs keeps them describing the same moment. |
| GameTime.AgreeingClocksShowSameTime | core/src/game_time.rs:40-50 | Clocks that agree show the same weekday, hour and minute. |
| Speed.Toggled | core/src/speed.rs:52-56 | The toggled flag differs from the original. |
| Speed.ToggledTwice | core/src/speed.rs:52-56 | Toggling twice gives back the original flag. |
| Speed.Multiplier | core/src/speed.rs:73-81 | Every speed runs between 1 and 8 times real time. |
| Speed.MultiplierStrictlyIncreasing | core/src/speed.rs:64-81 | Normal is slower than fast, which is slower than ultra, so no two speeds share a multiplier. |
| Speed.Effective | core/src/speed.rs:33-46 | The relative speed is 0 exactly when paused; otherwise it is the speed's multiplier. |
| Speed.OnSpeedInserted | core/src/speed.rs:21-31 | A new speed is applied only while running; while paused the applied speed is left alone. |
| Speed.OnPausedInserted | core/src/speed.rs:33-46 | After a `Paused` insert the applied speed matches the (paused, speed) pair. |
| Speed.InsertSpeed | core/src/speed.rs:21-31 | Stores the speed and keeps the pause flag; keeps consistency, and leaves the applied speed alone while paused. |
| Speed.InsertPaused | core/src/speed.rs:33-46 | Stores the flag and keeps the speed; always ends consistent. |
| Speed.Spawn | core/src/speed.rs:13-19 | Whatever relative speed the virtual time had, the game starts paused at normal speed with relative speed 0. |
| Speed.SpeedChosenWhilePausedIsRemembered | core/src/speed.rs:21-46 | A speed chosen while paused does not start the game, and unpausing runs at that speed. |
| Speed.PauseResumeRestores | core/src/speed.rs:33-46 | Pausing a running game stops it, and unpausing restores exactly the state before. |
| FoldedSpeed.RunMultiplier | core/src/game_speed.rs:54-62 | Every running speed is between 1 and 8 times real time. |
| FoldedSpeed.RunIndex | core/src/game_speed.rs:47-52 | A running speed's position is below 3. |
| FoldedSpeed.DefaultSpeed | core/src/game_speed.rs:39-45 | The game starts paused, returns to normal speed, and has multiplier 0. |
| FoldedSpeed.Multiplier | core/src/game_speed.rs:30-37 | The multiplier is 0 exactly for paused values; a running value gets its speed's multiplier. |
| FoldedSpeed.Insert | core/src/game_speed.rs:14-21 | After an insert the applied relative speed is always the new value's multiplier. |
| FoldedSpeed.FoldUnfoldInverse | core/src/game_speed.rs:23-37 | The folded design and the (`Paused`, `GameSpeed`) design hold the same information both ways, and they apply the same relative speed. |
| Style.DefaultStyle | ui/src/widget/button/style.rs:76-80 | The default style is `WHITE`: white when idle, blue 500 when pressed. |
| Style.SlotOf | ui/src/widget/button/style.rs:65-73 | A press, or an idle toggled button, looks pressed; hovering looks hovered-pressed when toggled and hovered otherwise; untoggled and idle looks idle. Each case holds in both directions. |
| Style.GetColor | ui/src/widget/button/style.rs:64-74 | Gives the style's colour for each (interaction, toggled) case; a missing `Toggled` counts as false. |
| Style.MissingToggledIsUntoggled | ui/src/widget/button/style.rs:66 | A button without `Toggled` is coloured exactly like one with `Toggled(false)`. |
| Style.BlackDiffersFromWhiteOnlyWhenUntoggled | ui/src/widget/button/style.rs:50-61 | `BLACK` and `WHITE` give different colours exactly when the button is not pressed and not toggled. |
| Style.TargetOf | ui/src/widget/button/style.rs:30-36 | The colour goes to the image if there is one, else to the text, else to the background. Each case holds in both directions. |
| Style.UpdateStyle | ui/src/widget/button/style.rs:13-38 | `get_color`'s colour is written into exactly the chosen target; the other two parts are unchanged. |
| Style.UpdateStyleShowsColor | ui/src/widget/button/style.rs:13-38 | The button keeps which parts it has, and the written part shows `get_color`'s colour. Running the update again changes nothing. The paint changes exactly when that part did not already show the colour. |
| TextEdit.BorderColor | ui/src/widget/text_edit.rs:29-43 | Each border colour is chosen in exactly its (interaction, inactive) cases. |
| TextEdit.BorderFollowsButtonTable | ui/src/widget/text_edit.rs:36-41 | The border table is the button colour table, with "active" in place of "toggled". |
| TextEdit.SingleActiveMeansAtMostOne | ui/src/widget/text_edit.rs:62-80 | When every active edit is the focused one, at most one edit is active. |
| TextEdit.InsertInactiveAsWritten | ui/src/widget/text_edit.rs:62-80 | `update_focus` as written: an activating insert moves the focus to the edit, and the single-active invariant is kept. |
| TextEdit.ReactivatingFocusedEditAsWritten | ui/src/widget/text_edit.rs:72-76 | As written, activating the edit that already holds the focus leaves it inactive; the corrected version leaves it active. |
| TextEdit.InsertInactive | ui/src/widget/text_edit.rs:62-80 | Corrected `update_focus`: the edit gets the inserted flag and no edit is added or dropped. Activating moves the focus and deactivates only a different previously focused edit. Nothing else changes, and at most one edit stays active. |
| TextEdit.ActivateWith | ui/src/widget/text_edit.rs:45-80 | A click stops propagating exactly on text edits, and a click on an active edit changes nothing. Clicking an inactive edit focuses it. With `update_focus` as written, it ends active exactly when it did not already hold the focus; with the corrected version it always ends active. At most one edit stays active either way. |
| TextEdit.ActivateCorrected | ui/src/widget/text_edit.rs:45-60 | `activate` followed by the corrected `update_focus` (see Findings). A click stops propagating exactly on text edits. Clicking an inactive edit makes it the active, focused one; clicking an active one changes nothing. At most one edit stays active. |
| Toggle.Flip | ui/src/widget/button/toggled.rs:56-60 | Flipping changes the flag. |
| Toggle.FlipInvolution | ui/src/widget/button/toggled.rs:56-60 | Flipping twice restores the flag. |
| Toggle.NewExclusive | ui/src/widget/button/toggled.rs:62-67 | An `Exclusive` button comes with an untoggled `Toggled`. |
| Toggle.EnsureSingle | ui/src/widget/button/toggled.rs:23-49 | When the inserted button is a toggled exclusive child, each of its exclusive siblings is untoggled. No other button changes, the inserted one included, and no button is added or lost. |
| Toggle.InsertToggled | ui/src/widget/button/toggled.rs:23-49 | The inserted flag sticks on its button. A first insert adds the spawned button with its `Exclusive` marker and parent; otherwise no button is added or lost. Every button keeps its marker and parent. When the insert leaves a toggled exclusive child with a parent, its exclusive siblings end untoggled; every other button is unchanged. |
| Toggle.Click | ui/src/widget/button/toggled.rs:7-21 | Clicking a non-button or a toggled exclusive button changes nothing; any other button's flag is flipped. |
| Toggle.InsertToggledKeepsSingle | ui/src/widget/button/toggled.rs:23-49 | Any `Toggled` insert, the first one at spawn included, keeps at most one toggled exclusive child per parent. A toggled exclusive child it leaves is the only one under its parent. |
| Toggle.SpawnToggledUntogglesSibling | ui/src/widget/button/toggled.rs:23-49 | Spawning a toggled exclusive button untoggles a toggled exclusive sibling. |
| Toggle.ClickKeepsSingle | ui/src/widget/button/toggled.rs:7-49 | Any click keeps at most one toggled exclusive child per parent, and a clicked exclusive button ends up toggled. |
| Group.NewGroup | ui/src/widget/button/exclusive_group.rs:40-43 | A new group has no active child. |
| Group.Displaced | ui/src/widget/button/exclusive_group.rs:29-32 | Only another live entity can be displaced, and only when a toggled child of a group was inserted. |
| Group.OnToggledInsert | ui/src/widget/button/exclusive_group.rs:9-38 | An untoggled entity, a missing parent or a parent without a group change nothing. Otherwise the entity becomes the group's active child and stays toggled; the displaced child alone is untoggled. |
| Group.InsertToggled | ui/src/widget/button/exclusive_group.rs:9-38 | The inserted flag sticks, and toggling a group's child on makes it the group's active child. |
| Group.TrackedMeansSingle | ui/src/widget/button/exclusive_group.rs:9-38 | When every group tracks its toggled children, each group has at most one toggled child. |
| Group.InsertToggledKeepsTracked | ui/src/widget/button/exclusive_group.rs:9-38 | Any `Toggled` insert on a live entity keeps every group tracking its single toggled child. |
| Group.RetoggleActiveKeepsIt | ui/src/widget/button/exclusive_group.rs:29-37 | Toggling on the already-active child untoggles nobody, and the active child is unchanged. |
| TimePanel.ActionButton | ui/src/time_panel.rs:35-72 | Every panel action has a child among the four that fires it. |
| TimePanel.ButtonsAndActionsCorrespond | ui/src/time_panel.rs:35-72 | Children and actions correspond one to one. |
| TimePanel.SpeedButton | ui/src/time_panel.rs:97 | `speed as usize + 1` is one of the speed children, and it fires that speed's action. |
| TimePanel.SpeedButtonInjective | ui/src/time_panel.rs:97 | Different speeds are shown on different children. |
| TimePanel.Touched | ui/src/time_panel.rs:93-104 | The observers touch only the four children, and touch the pause child exactly when paused. |
| TimePanel.Reset | ui/src/time_panel.rs:87-105 | Exactly the children the old value highlighted turn white; every other child keeps its colour. |
| TimePanel.Update | ui/src/time_panel.rs:107-125 | The pause child turns red when paused, and the current or remembered speed's child turns blue; every other child keeps its colour. |
| TimePanel.Shown | ui/src/time_panel.rs:107-125 | In the target picture, the pause child is red exactly when paused, and exactly one speed child is blue: the current or remembered speed's. |
| TimePanel.SpawnShows | ui/src/time_panel.rs:74 | On a freshly spawned panel, the `SpeedPanel` insert shows the current value. |
| TimePanel.Replace | ui/src/time_panel.rs:87-125 | Replacing a value highlights the new value's buttons and whitens the rest of the old value's buttons; every other button keeps its colour. |
| TimePanel.ReplaceKeepsShown | ui/src/time_panel.rs:87-125 | Replacing any value with any other takes a panel showing the old value to one showing the new value. |
| TimePanel.ResetUndoesUpdate | ui/src/time_panel.rs:87-125 | Resetting undoes an update of the same value on children that were white. |
| HudTime.KeyAction | ui/src/hud/family/life/time.rs:50-71 | Every bound key names an existing speed button. |
| HudTime.KeyBindings | ui/src/hud/family/life/time.rs:50-71 | Digit0 pauses or resumes; Digit1, Digit2 and Digit3 select normal, fast and ultra; no other key does anything. |
| HudTime.TogglePauseCommands | ui/src/hud/family/life/time.rs:96-98 | Toggling pause queues one `Paused` insert with the flag negated. |
| HudTime.SetSpeedCommands | ui/src/hud/family/life/time.rs:100-111 | Choosing a speed queues that speed, then `Paused(false)` only when paused. |
| HudTime.PauseButtonColor | ui/src/hud/family/life/time.rs:113-124 | The pause button is red exactly when paused and white exactly when running. |
| HudTime.FindFirst | ui/src/hud/family/life/time.rs:131 | Gives the first speed button carrying the speed, or nothing exactly when no button carries it. |
| HudTime.ResetSpeedButton | ui/src/hud/family/life/time.rs:126-134 | Exactly the old speed's button turns white; the others keep their colour. |
| HudTime.UpdateSpeedButton | ui/src/hud/family/life/time.rs:136-144 | Exactly the new speed's button turns blue; the others keep their colour. |
| HudTime.WeekdayLabel | ui/src/hud/family/life/time.rs:78-85 | The weekday label is three characters long. |
| HudTime.WeekdayLabelReadsBack | ui/src/hud/family/life/time.rs:78-85 | The weekday label reads back as the weekday written. |
| HudTime.ClockLabel | ui/src/hud/family/life/time.rs:87-94 | The clock label of a valid clock is `HH:MM`. |
| HudTime.ClockLabelReadsBack | ui/src/hud/family/life/time.rs:87-94 | The clock label reads back as the clock written. |
| HudTime.LabelsShowOnlyTheLatest | ui/src/hud/family/life/time.rs:78-94 | A label's previous text never affects the new text. |
| HudTime.Apply | ui/src/hud/family/life/time.rs:113-144 | A speed insert updates the speed entity and leaves the pause button alone; a pause insert updates the entity and leaves the speed buttons alone. |
| HudTime.ApplyAll | ui/src/hud/family/life/time.rs:126-144 | Any sequence of inserts keeps one colour per speed button. |
| HudTime.ApplyKeepsDisplays | ui/src/hud/family/life/time.rs:113-144 | Every insert keeps the buttons in step with the speed entity. |
| HudTime.ApplyAllKeepsDisplays | ui/src/hud/family/life/time.rs:113-144 | Any sequence of inserts keeps the buttons in step with the speed entity. |
| HudTime.Spawn | ui/src/hud/family/life/time.rs:29-76 | A freshly spawned HUD already shows the speed entity. |
| HudTime.TogglePauseFlips | ui/src/hud/family/life/time.rs:96-98 | Toggling pause flips `Paused`, keeps the speed, and applies 0 or the speed's multiplier accordingly. |
| HudTime.SetSpeedRuns | ui/src/hud/family/life/time.rs:100-111 | Choosing any speed leaves the game running at that speed and shows it; a running game gets no `Paused` insert. |
| HudTime.DisplaysOneBlueSpeed | ui/src/hud/family/life/time.rs:136-144 | In step with the speed entity, exactly one speed button is blue: the current speed's. |
| PauseMenu.NewMenu | ui/src/menu/pause_menu.rs:100-108 | A new menu does not plan to resume the game. |
| PauseMenu.Open | ui/src/menu/pause_menu.rs:74-84 | Opening over a running game requests a pause and remembers to resume; over a paused game it requests nothing. |
| PauseMenu.Close | ui/src/menu/pause_menu.rs:86-90 | Closing requests a resume exactly when opening paused the game. |
| PauseMenu.Serve | ui/src/menu/pause_menu.rs:82-88 | Serving requests keeps the speed and leaves the last requested flag in force, consistently applied. |
| PauseMenu.OpenCloseRestores | ui/src/menu/pause_menu.rs:74-90 | While the menu is open the game is paused; closing it restores the state before it was opened. |
| PauseMenu.MenuOverPausedGameNeverResumes | ui/src/menu/pause_menu.rs:80-89 | A menu opened over a paused game never resumes it. |
| ComponentRes.Register | core/src/component_res.rs:54-61 | The type now maps to the entity, and an error is logged exactly when the type was already mapped. |
| ComponentRes.Unregister | core/src/component_res.rs:63-65 | Exactly the removed type is forgotten; every other mapping is kept. |
| ComponentRes.Apply | core/src/component_res.rs:32-42 | A recorded entity that no longer exists makes the command fail; a recorded live entity never does. Otherwise the value ends up on the entity recorded for its type. If the type was recorded, that entity keeps its other components and gets the value, `next` is kept, and an error is logged exactly when the entity did not hold the type. If it was not recorded, a fresh entity holding only the value is spawned and recorded without an error. All other entities and all other types' records are kept. |
| ComponentRes.SpawnWith | core/src/component_res.rs:37-40 | A spawned entity holds the value and is recorded; an error is logged exactly when the type was already recorded. |
| ComponentRes.SpawnTwiceLogsError | core/src/component_res.rs:54-61 | Spawning a resource component twice logs an error, and the newer entity takes over the record. |
| ComponentRes.Remove | core/src/component_res.rs:63-65 | Removing a held component drops it from its entity and forgets its type; removing one that is not held changes nothing. Every other entity, every other type's record, `next` and the error count are kept. |
| ComponentRes.Despawn | core/src/component_res.rs:63-65 | Despawning removes exactly that entity and forgets exactly the types it held; the remaining records, the other entities, `next` and the error count are kept. Despawning a missing entity changes nothing. |
| ComponentRes.SyncedMeansSingleHolder | core/src/component_res.rs:67-69 | While the records agree with the world, each type is held by at most one entity. |
| ComponentRes.ApplyKeepsSynced | core/src/component_res.rs:32-42 | While the records agree with the world, applying an insert never fails, logs no error, and keeps them in agreement. |
| ComponentRes.RemoveKeepsSynced | core/src/component_res.rs:63-65 | Removing a component keeps the records in agreement with the world. |
| ComponentRes.DespawnKeepsSynced | core/src/component_res.rs:63-65 | Despawning keeps the records in agreement with the world. |
| ComponentRes.InsertComponentResource | core/src/component_res.rs:44-52 | Queuing only appends the command, keeping the earlier ones. |
| ComponentRes.FlushKeepsSynced | core/src/component_res.rs:32-52 | While the records agree with the world, a flushed queue never fails and keeps them in agreement. |
| WindowName.ModeOf | app/src/window_name.rs:24-28 | A running server is reported whatever the client state; otherwise only a connected client is. Each case holds in both directions. |
| WindowName.Update | app/src/window_name.rs:15-34 | Outside a world the title is `Simgine`. Inside one it is `Simgine - `, then the world name, then the mode suffix. |
| WindowName.UpdateIgnoresOldTitle | app/src/window_name.rs:21 | The new title never depends on the old one. |
| WindowName.TitleNamesTheWorld | app/src/window_name.rs:23-33 | Reading the world name back from a title gives exactly the world it was written for, or none outside a world. |
| GamePaths.Keep | core/src/game_paths.rs:22 | Path parsing keeps a segment exactly when it is a real component. |
| GamePaths.SegmentsFrom | core/src/game_paths.rs:22 | Every parsed component is non-empty, has no separator and is not `.`. |
| GamePaths.Parse | core/src/game_paths.rs:22 | A parsed path is well formed, and absolute exactly when the text starts with `/`. |
| GamePaths.ParseRender | core/src/game_paths.rs:22 | Parsing the text of a well-formed path gives the path back. |
| GamePaths.Join | core/src/game_paths.rs:22 | An absolute name replaces the path; a relative one appends its components. Well-formedness is kept. |
| GamePaths.FileName | core/src/game_paths.rs:49 | The file name is the last component, and is missing exactly when there is none or it is `..`. |
| GamePaths.LastDot | core/src/game_paths.rs:49 | Finds the last `.` of a name, or nothing exactly when there is none. |
| GamePaths.SplitAtDot | core/src/game_paths.rs:49-54 | When there is an extension, stem, dot and extension make up the file name, the extension has no dot and the stem is non-empty. Without one, the stem is the whole name. |
| GamePaths.SetExtension | core/src/game_paths.rs:23 | Without a file name nothing changes; otherwise only the last component changes, to stem, dot and extension. |
| GamePaths.SplitWorldFile | core/src/game_paths.rs:21-25 | A stem with `.ron` added splits back into that stem and `ron`. |
| GamePaths.JoinPlain | core/src/game_paths.rs:22 | A plain name joins as exactly one more component. |
| GamePaths.WorldPath | core/src/game_paths.rs:21-25 | Without a file name the joined path is returned unchanged. Otherwise, under a well-formed worlds directory, the file name becomes its stem plus `.ron`, so the extension is `ron`. |
| GamePaths.PlainWorldPath | core/src/game_paths.rs:21-25 | A plain name's world file sits directly in the worlds directory, has extension `ron`, and its stem is the name's stem. |
| GamePaths.WorldPathHasExtension | core/src/game_paths.rs:21-25 | Whatever the name, a world path that has a file name has extension `ron`. |
| GamePaths.WorldName | core/src/game_paths.rs:42-55 | An entry gives a world name exactly when it is a regular file with extension `ron`; the name is its stem. |
| GamePaths.Listed | core/src/game_paths.rs:33-36 | A listing entry contributes at most one name. |
| GamePaths.Collect | core/src/game_paths.rs:32-38 | There are never more names than entries. |
| GamePaths.WorldNames | core/src/game_paths.rs:27-39 | The listing fails exactly when the directory cannot be read, and the error names the directory. Otherwise it is the collected names of the readable world entries, in order. |
| GamePaths.CollectAppend | core/src/game_paths.rs:33-37 | Names come in listing order: collecting a concatenation concatenates the names. |
| GamePaths.CollectMembership | core/src/game_paths.rs:33-37 | A name is listed exactly when some readable entry is a world of that name. |
| GamePaths.SavedWorldIsListed | core/src/game_paths.rs:21-55 | A world saved under a plain name is listed under that name's stem. |
| GamePaths.StemKeepsUndottedName | core/src/game_paths.rs:21-25 | A name comes back unchanged exactly when it has no dot after its first character. |

## Left out

- The Bevy app plumbing is not modelled: plugins, system scheduling, states, `DespawnOnExit`, `unload`, logging and `debug!`/`info!` output. Each system and observer is modelled as the function it computes.
- Frame time (`Res<Time>`) is a parameter `delta` of each tick, in nanoseconds.
- Multipliers are `f32` in the source and integers here. They take only the values 0, 1, 3 and 8, which are exact in `f32`.
- `GameClock::day_fract` is left out because it is floating-point arithmetic.
- Time.Tick: `**carry += time.delta()` panics once the carry passes `Duration::MAX`, about 1.8·10^19 seconds. Durations are unbounded here, so that panic is not modelled. The `u64` minute and hour counts cannot overflow, because the consumed minutes are at most `u64::MAX / 2`.
- GameTime.Tick: `clock.elapsed += time.delta()` panics once the elapsed time passes `Duration::MAX`, about 1.8·10^19 seconds. Durations are unbounded here, so that panic is not modelled.
- Speed.InsertPaused: the server-side handler of `SetPaused`, which the pause menu triggers, is not part of this model. Serving the request is modelled as inserting `Paused`.
- TimePanel: the effect of the panel's `TogglePause`/`SetNormal`/`SetFast`/`SetUltra` actions on `GameSpeed` is not part of this model. The model covers which child fires which action and how the colours follow `GameSpeed`.
- `mock_speed_action` and `ActionMock` are left out: they are input-library plumbing. The HUD's key and button bindings are modelled as `HudTime.KeyAction`.
- Query iteration order is modelled as the order of a sequence. This affects `find` over speed buttons and the iteration over siblings.
- Toggle and Group are modelled separately, although both observers react to the same `Toggled` insert. They touch different parts of the state apart from the `Toggled(false)` inserts they issue, which change nothing further.
- Toggle.Click: `toggle` does not stop the click from propagating, so one click also reaches every ancestor that carries `Toggled` and flips it too. The model covers the click on one entity; the bubbling through the hierarchy is not modelled.
- Group.OnToggledInsert: `commands.get_entity` is modelled as "the entity is alive". A despawn queued in the same frame is not modelled.
- TextEdit: the `bevy_simple_text_input` internals and the `Interaction` changes behind `update_style` are not part of this model.
- TextEdit.ActivateCorrected: uses the corrected `update_focus` (see Findings). The code as written is `TextEdit.ActivateWith` with `asWritten` set, where clicking an inactive edit that already holds the focus leaves it inactive.
- ComponentRes: a component's `Add` and `Remove` observers are modelled for all types at once. Registering them per type (`register_resource_component`) is left out as plumbing.
- ComponentRes.Apply: a missing entity makes `world.entity_mut` panic. The model returns `Err(MissingEntity)` instead.
- WindowName: the replication library's `ClientState` and `ServerState` are plain parameters. The states that trigger `update` are not modelled.
- GamePaths.Parse: path text is normalised to components, so trailing slashes and repeated separators are not kept. Windows path prefixes and separators are not modelled. Every `.` component is dropped, so `./a` parses like `a`, while `components()` keeps a leading `.`. This does not matter for an absolute worlds directory.
- GamePaths.WorldName: `to_str` can fail on a name that is not valid UTF-8. That failure is not modelled, because names here are strings of characters.
- GamePaths: `Default for GamePaths` is left out because it depends on `ProjectDirs` and the platform's directories. Reading the directory is modelled as a `Result` listing that is passed in.

## Findings

| source | as written | input that shows it | evidently intended | confidence | as-written member | corrected member |
|---|---|---|---|---|---|---|
| ui/src/widget/text_edit.rs:72-76 | `update_focus` deactivates the previously focused edit even when that edit is the one just activated. | The focus is edit 7. Either 7 was deactivated by a `TextInputInactive(true)` insert and is then clicked, or `TextInputInactive(false)` is inserted again on 7 while it is active. Either way 7 ends inactive while focused. | Deactivate the previous focus only when it is a different edit, so the activated edit ends active. | low, not executed: the state needs an insert from outside this file | TextEdit.ReactivatingFocusedEditAsWritten | TextEdit.InsertInactive |
