/** The elapsed-based game clock of `core/src/game_time.rs`, an earlier
    design of the clock in `Time`.

    Instead of carrying a remainder, it keeps one growing `elapsed` duration
    and derives weekday, hour and minute from it by division and modulo on
    every tick, writing each of the three resources only when its value
    differs (`set_if_neq`). */
module GameTime {
  import Time

  /** Real seconds per in-game minute (`SECS_PER_GAME_MINUTE`). */
  const SECS_PER_GAME_MINUTE: nat := 2
  /** Real seconds per in-game day (`SECS_PER_GAME_DAY`). */
  const SECS_PER_GAME_DAY: nat := SECS_PER_GAME_MINUTE * Time.MINS_PER_DAY

  /** `GameClock`: real time spent in game, in nanoseconds. */
  datatype GameClock = GameClock(elapsed: nat)

  /** `GameClock::elapsed_mins`: whole in-game minutes elapsed. */
  function ElapsedMins(g: GameClock): (mins: nat)
    ensures mins == g.elapsed / Time.MINUTE_NANOS
    ensures mins * Time.MINUTE_NANOS <= g.elapsed < (mins + 1) * Time.MINUTE_NANOS
  {
    Time.AsSecs(g.elapsed) / SECS_PER_GAME_MINUTE
  }

  /** `Default for GameClock`: 13 in-game hours into the first Monday. */
  function DefaultGameClock(): (g: GameClock)
    ensures ElapsedMins(g) == 13 * 60
    ensures g.elapsed == 13 * 60 * SECS_PER_GAME_MINUTE * Time.NANOS_PER_SEC
  {
    GameClock(13 * 60 * SECS_PER_GAME_MINUTE * Time.NANOS_PER_SEC)
  }

  /** `Weekday::from_elapsed_days`: day 0 is a Monday, and weeks repeat. */
  function FromElapsedDays(days: nat): (w: Time.Weekday)
    ensures Time.Ordinal(w) == days % 7
    ensures w == Time.Advance(Time.Mon, days)
  {
    Time.FromOrdinal(days % 7)
  }

  /** The resources `Weekday`, `Hour` and `Minute` beside the `GameClock`. */
  datatype GameTimeState = GameTimeState(clock: GameClock, weekday: Time.Weekday, hour: Time.U8, minute: Time.U8)

  /** `load`: every resource initialised to its default.  `Hour` and
      `Minute` default to zero, so until the first tick they show 00:00
      while the clock itself stands at 13:00. */
  function Load(): (s: GameTimeState)
    ensures ElapsedMins(s.clock) == 13 * 60
    ensures s.weekday == Time.Mon && s.hour == 0 && s.minute == 0
  {
    GameTimeState(DefaultGameClock(), Time.Mon, 0, 0)
  }

  /** Weekday, hour and minute shown for `mins` elapsed in-game minutes:
      the minute of the week, split into day, hour and minute. */
  function Derive(mins: nat): (r: (Time.Weekday, Time.U8, Time.U8))
    ensures r.1 < 24 && r.2 < 60
    ensures r.1 * 60 + r.2 == mins % Time.MINS_PER_DAY
    ensures Time.Ordinal(r.0) * Time.MINS_PER_DAY + r.1 * 60 + r.2 == mins % Time.MINS_PER_WEEK
  {
    var days := mins / Time.MINS_PER_DAY;
    var minuteOfDay := mins % Time.MINS_PER_DAY;
    var w := FromElapsedDays(days);
    Time.ModOfDecomposition(mins, days / 7,
                            (days % 7) * Time.MINS_PER_DAY + minuteOfDay, Time.MINS_PER_WEEK);
    (w, minuteOfDay / 60, minuteOfDay % 60)
  }

  /** One `tick` and which resources `set_if_neq` actually wrote. */
  datatype GameTick = GameTick(state: GameTimeState, weekdayChanged: bool, hourChanged: bool, minuteChanged: bool)

  /** `tick`: extend `elapsed` by the frame's real time, re-derive the three
      resources from it, and write each one only if its value differs. */
  function Tick(s: GameTimeState, delta: nat): (r: GameTick)
    ensures r.state.clock.elapsed == s.clock.elapsed + delta
    ensures ElapsedMins(s.clock) <= ElapsedMins(r.state.clock)
    ensures Shows(r.state)
    ensures r.weekdayChanged <==> r.state.weekday != s.weekday
    ensures r.hourChanged <==> r.state.hour != s.hour
    ensures r.minuteChanged <==> r.state.minute != s.minute
  {
    var clock := GameClock(s.clock.elapsed + delta);
    var (w, h, m) := Derive(ElapsedMins(clock));
    GameTick(GameTimeState(clock, w, h, m), w != s.weekday, h != s.hour, m != s.minute)
  }

  /** The resources show the time the clock stands at. */
  predicate Shows(s: GameTimeState)
  {
    (s.weekday, s.hour, s.minute) == Derive(ElapsedMins(s.clock))
  }

  /** After the first tick of a game, even a zero-length one, the resources
      read Monday 13:00; only `Hour` is written by that tick. */
  lemma FirstTickShowsDefault()
    ensures var r := Tick(Load(), 0);
            && r.state.weekday == Time.Mon && r.state.hour == 13 && r.state.minute == 0
            && !r.weekdayChanged && r.hourChanged && !r.minuteChanged
  {
  }

  // -------------------------------------------- Cross-check against `Time`

  /** The incremental clock `t` and the elapsed clock `g` describe the same
      moment: `t`'s carry is `g`'s sub-minute remainder and `t`'s calendar
      is `g`'s elapsed minutes modulo a week. */
  predicate Agrees(t: Time.ClockState, g: GameClock)
  {
    && t.carry == g.elapsed % Time.MINUTE_NANOS
    && Time.ValidClock(t.clock)
    && Time.WeekMinute(t) == ElapsedMins(g) % Time.MINS_PER_WEEK
  }

  /** Both designs start a game at the same moment. */
  lemma DefaultsAgree()
    ensures Agrees(Time.DefaultState(), DefaultGameClock())
  {
  }

  /** Feeding the same frame to both clocks keeps them in agreement. */
  lemma TickPreservesAgreement(t: Time.ClockState, g: GameClock, delta: nat)
    requires Agrees(t, g)
    ensures Agrees(Time.Tick(t, delta).state, GameClock(g.elapsed + delta))
  {
    var r := Time.Tick(t, delta);
    var g2 := GameClock(g.elapsed + delta);
    Time.TickAdvancesCalendar(t, delta);
    ElapsedStep(g.elapsed, t.carry, delta, r.state.carry, r.minutes);
    assert ElapsedMins(g2) == ElapsedMins(g) + r.minutes;
    WeekStep(Time.WeekMinute(t), Time.WeekMinute(r.state), ElapsedMins(g), r.minutes);
  }

  /** Moving agreeing week minutes by the same number of minutes keeps them
      agreeing. */
  lemma WeekStep(wm: nat, wm2: nat, q: nat, m: nat)
    requires wm == q % Time.MINS_PER_WEEK && wm2 == (wm + m) % Time.MINS_PER_WEEK
    ensures wm2 == (q + m) % Time.MINS_PER_WEEK
  {
    Time.AddModAssoc(q, 0, m);
  }

  /** Splitting `elapsed + delta` into whole minutes and a remainder: the
      carry of the incremental clock is the remainder, and the minutes it
      consumed are the whole minutes gained. */
  lemma ElapsedStep(elapsed: nat, carry: nat, delta: nat, carry2: nat, minutes: nat)
    requires carry == elapsed % Time.MINUTE_NANOS
    requires carry2 < Time.MINUTE_NANOS && carry2 + minutes * Time.MINUTE_NANOS == carry + delta
    ensures carry2 == (elapsed + delta) % Time.MINUTE_NANOS
    ensures (elapsed + delta) / Time.MINUTE_NANOS == elapsed / Time.MINUTE_NANOS + minutes
  {
    var q := elapsed / Time.MINUTE_NANOS;
    assert elapsed + delta == (q + minutes) * Time.MINUTE_NANOS + carry2;
    Time.ModOfDecomposition(elapsed + delta, q + minutes, carry2, Time.MINUTE_NANOS);
  }

  /** Agreeing clocks show the same weekday, hour and minute. */
  lemma AgreeingClocksShowSameTime(t: Time.ClockState, g: GameClock)
    requires Agrees(t, g)
    ensures Derive(ElapsedMins(g)) == (t.weekday, t.clock.hour, t.clock.minute)
  {
    var (w, h, m) := Derive(ElapsedMins(g));
    var x := ElapsedMins(g) % Time.MINS_PER_WEEK;
    var o := Time.Ordinal(t.weekday);
    var o' := Time.Ordinal(w);
    assert o * Time.MINS_PER_DAY + (t.clock.hour * 60 + t.clock.minute) == x;
    assert o' * Time.MINS_PER_DAY + (h * 60 + m) == x;
    Time.ModOfDecomposition(x, o, t.clock.hour * 60 + t.clock.minute, Time.MINS_PER_DAY);
    Time.ModOfDecomposition(x, o', h * 60 + m, Time.MINS_PER_DAY);
    Time.ModOfDecomposition(h * 60 + m, h, m, 60);
    Time.ModOfDecomposition(t.clock.hour * 60 + t.clock.minute, t.clock.hour, t.clock.minute, 60);
    Time.OrdinalInjective(w, t.weekday);
  }
}
