/** The incremental game clock of `core/src/time.rs`.

    Every frame the real time elapsed since the previous frame is added to a
    sub-minute accumulator (`MinuteCarry`).  Whole in-game minutes (2 real
    seconds each) are taken out of it, added to the `Clock`, and overflowing
    hours roll the cyclic `Weekday` forward.  `Weekday` and `Clock` are
    re-inserted only when their value actually changed.

    A `Duration` is a count of nanoseconds; `Duration::as_secs` truncates. */
module Time {
  import opened Maybe

  /** Nanoseconds in one second. */
  const NANOS_PER_SEC: nat := 1_000_000_000
  /** Real seconds per in-game minute (`SECS_PER_MIN`). */
  const SECS_PER_MIN: nat := 2
  /** Real seconds per in-game day (`SECS_PER_DAY`). */
  const SECS_PER_DAY: nat := 24 * 60 * SECS_PER_MIN
  const MINS_PER_DAY: nat := 24 * 60
  const MINS_PER_WEEK: nat := 7 * MINS_PER_DAY
  /** Real nanoseconds per in-game minute. */
  const MINUTE_NANOS: nat := SECS_PER_MIN * NANOS_PER_SEC

  /** Rust's `u8`: the width of `Clock`'s fields. */
  type U8 = x: int | 0 <= x < 256

  /** `Duration::as_secs`: whole seconds, the fraction dropped. */
  function AsSecs(d: nat): nat
  {
    d / NANOS_PER_SEC
  }

  // ---------------------------------------------------------------- Weekday

  datatype Weekday = Mon | Tue | Wed | Thu | Fri | Sat | Sun

  /** `weekday as u64`: declaration order, Mon = 0. */
  function Ordinal(w: Weekday): (n: nat)
    ensures n < 7
  {
    match w
    case Mon => 0
    case Tue => 1
    case Wed => 2
    case Thu => 3
    case Fri => 4
    case Sat => 5
    case Sun => 6
  }

  function FromOrdinal(n: nat): (w: Weekday)
    requires n < 7
    ensures Ordinal(w) == n
  {
    if n == 0 then Mon
    else if n == 1 then Tue
    else if n == 2 then Wed
    else if n == 3 then Thu
    else if n == 4 then Fri
    else if n == 5 then Sat
    else Sun
  }

  lemma OrdinalInjective(a: Weekday, b: Weekday)
    requires Ordinal(a) == Ordinal(b)
    ensures a == b
  {
  }

  /** `Weekday::advance`: move forward `days` days, wrapping after Sunday. */
  function Advance(w: Weekday, days: nat): (r: Weekday)
    ensures Ordinal(r) == (Ordinal(w) + days) % 7
  {
    FromOrdinal((Ordinal(w) + days) % 7)
  }

  /** Advancing by no days is the identity. */
  lemma AdvanceZero(w: Weekday)
    ensures Advance(w, 0) == w
  {
    OrdinalInjective(Advance(w, 0), w);
  }

  /** Advancing twice is advancing by the sum; a whole week is the identity. */
  lemma AdvanceCompose(w: Weekday, a: nat, b: nat)
    ensures Advance(Advance(w, a), b) == Advance(w, a + b)
    ensures Advance(w, 7) == w
  {
    OrdinalInjective(Advance(Advance(w, a), b), Advance(w, a + b));
    OrdinalInjective(Advance(w, 7), w);
  }

  /** `Display for Weekday`. */
  function WeekdayName(w: Weekday): (s: string)
    ensures |s| == 3
  {
    match w
    case Mon => "Mon"
    case Tue => "Tue"
    case Wed => "Wed"
    case Thu => "Thu"
    case Fri => "Fri"
    case Sat => "Sat"
    case Sun => "Sun"
  }

  /** Reads a weekday back from its displayed name. */
  function ParseWeekday(s: string): (r: Option<Weekday>)
    ensures r.Some? ==> WeekdayName(r.value) == s
  {
    if s == "Mon" then Some(Mon)
    else if s == "Tue" then Some(Tue)
    else if s == "Wed" then Some(Wed)
    else if s == "Thu" then Some(Thu)
    else if s == "Fri" then Some(Fri)
    else if s == "Sat" then Some(Sat)
    else if s == "Sun" then Some(Sun)
    else None
  }

  /** The displayed name identifies the weekday: two weekdays never share a name. */
  lemma WeekdayNameRoundTrip(w: Weekday)
    ensures ParseWeekday(WeekdayName(w)) == Some(w)
  {
  }

  // ------------------------------------------------------------------ Clock

  /** Time of day.  The fields are private in the source, so every `Clock`
      comes from `Default` or from `tick`; both keep it valid. */
  datatype Clock = Clock(hour: U8, minute: U8)

  predicate ValidClock(c: Clock)
  {
    c.hour < 24 && c.minute < 60
  }

  /** `Default for Clock`: the game starts at 13:00. */
  function DefaultClock(): (c: Clock)
    ensures ValidClock(c)
    ensures SecsSinceMidnight(c) == 13 * 60 * SECS_PER_MIN
  {
    Clock(13, 0)
  }

  /** `Clock::secs_since_midnight`: real seconds of the day elapsed so far. */
  function SecsSinceMidnight(c: Clock): (secs: nat)
    ensures secs % SECS_PER_MIN == 0
    ensures ValidClock(c) ==> secs < SECS_PER_DAY
  {
    (c.hour * 60 + c.minute) * SECS_PER_MIN
  }

  /** The inverse of `SecsSinceMidnight` on one day's worth of seconds. */
  function ClockAt(secs: nat): (c: Clock)
    requires secs < SECS_PER_DAY
    ensures ValidClock(c)
  {
    var mins := secs / SECS_PER_MIN;
    Clock(mins / 60, mins % 60)
  }

  /** `secs_since_midnight` loses nothing on a valid clock. */
  lemma SecsSinceMidnightRoundTrip(c: Clock)
    requires ValidClock(c)
    ensures ClockAt(SecsSinceMidnight(c)) == c
  {
  }

  /** Decimal digits of `n`, most significant first, without padding. */
  function Decimal(n: nat): (s: string)
    ensures 1 <= |s|
    ensures forall i :: 0 <= i < |s| ==> '0' <= s[i] <= '9'
    ensures n < 10 ==> |s| == 1
    ensures 10 <= n < 100 ==> |s| == 2
  {
    if n < 10 then [DigitChar(n)] else Decimal(n / 10) + [DigitChar(n % 10)]
  }

  function DigitChar(d: nat): (ch: char)
    requires d < 10
    ensures '0' <= ch <= '9'
  {
    (d + '0' as int) as char
  }

  function DigitValue(ch: char): (d: nat)
    requires '0' <= ch <= '9'
    ensures d < 10
  {
    ch as int - '0' as int
  }

  /** `{:02}`: at least two digits, padded with a leading zero. */
  function Pad2(n: nat): (s: string)
    ensures n < 100 ==> |s| == 2
  {
    if n < 10 then "0" + Decimal(n) else Decimal(n)
  }

  /** `Display for Clock`: zero-padded `HH:MM`. */
  function ClockText(c: Clock): (s: string)
    ensures ValidClock(c) ==> |s| == 5 && s[2] == ':'
  {
    Pad2(c.hour) + ":" + Pad2(c.minute)
  }

  /** Reads `HH:MM` back into a clock. */
  function ParseClock(s: string): (r: Option<Clock>)
    ensures r.Some? ==> ValidClock(r.value)
  {
    if |s| == 5 && s[2] == ':'
       && '0' <= s[0] <= '9' && '0' <= s[1] <= '9'
       && '0' <= s[3] <= '9' && '0' <= s[4] <= '9'
    then
      var h := DigitValue(s[0]) * 10 + DigitValue(s[1]);
      var m := DigitValue(s[3]) * 10 + DigitValue(s[4]);
      if h < 24 && m < 60 then Some(Clock(h, m)) else None
    else None
  }

  lemma Pad2Digits(n: nat)
    requires n < 100
    ensures '0' <= Pad2(n)[0] <= '9' && '0' <= Pad2(n)[1] <= '9'
    ensures DigitValue(Pad2(n)[0]) * 10 + DigitValue(Pad2(n)[1]) == n
  {
    if n >= 10 {
      assert Decimal(n) == Decimal(n / 10) + [DigitChar(n % 10)];
      assert Decimal(n / 10) == [DigitChar(n / 10)];
      assert Pad2(n) == [DigitChar(n / 10), DigitChar(n % 10)];
      assert n / 10 * 10 + n % 10 == n;
    } else {
      assert Pad2(n) == ['0', DigitChar(n)];
    }
  }

  /** The displayed clock identifies the clock: `HH:MM` parses back to it. */
  lemma ClockTextRoundTrip(c: Clock)
    requires ValidClock(c)
    ensures ParseClock(ClockText(c)) == Some(c)
  {
    Pad2Digits(c.hour);
    Pad2Digits(c.minute);
    var s := ClockText(c);
    assert s[0] == Pad2(c.hour)[0] && s[1] == Pad2(c.hour)[1];
    assert s[3] == Pad2(c.minute)[0] && s[4] == Pad2(c.minute)[1];
  }

  // ------------------------------------------------------------ Clock state

  /** The clock entity: `MinuteCarry` (nanoseconds), `Weekday` and `Clock`. */
  datatype ClockState = ClockState(carry: nat, weekday: Weekday, clock: Clock)

  /** The entity spawned on entering the game: no carry, Monday 13:00. */
  function DefaultState(): (s: ClockState)
    ensures s.carry == 0 && s.weekday == Mon && s.clock.hour == 13 && s.clock.minute == 0
    ensures WeekMinute(s) == 13 * 60
  {
    ClockState(0, Mon, DefaultClock())
  }

  /** Minutes since Monday 00:00 of the current week. */
  function WeekMinute(s: ClockState): nat
  {
    Ordinal(s.weekday) * MINS_PER_DAY + s.clock.hour * 60 + s.clock.minute
  }

  /** One `tick`: the new state, the whole minutes consumed, and whether
      `Weekday` and `Clock` were re-inserted. */
  datatype TickOutcome = TickOutcome(state: ClockState, minutes: nat, weekdayInserted: bool, clockInserted: bool)

  /** Splits an accumulated carry into whole in-game minutes and what is left,
      as `carry.as_secs() / SECS_PER_MIN` and `carry -= consumed` do. */
  function Consume(carry: nat): (r: (nat, nat))
    ensures r.1 < MINUTE_NANOS
    ensures r.1 + r.0 * MINUTE_NANOS == carry
    ensures r.0 == carry / MINUTE_NANOS
  {
    var minutes := AsSecs(carry) / SECS_PER_MIN;
    var consumed := minutes * SECS_PER_MIN;
    (minutes, carry - consumed * NANOS_PER_SEC)
  }

  /** Adds `minutes` to the clock: overflowing minutes become hours, and
      hours past midnight advance the weekday by `hour / 24` days. */
  function Roll(w: Weekday, c: Clock, minutes: nat): (r: (Weekday, Clock))
    ensures ValidClock(r.1)
  {
    var minute0 := c.minute + minutes;
    var hour1 := if minute0 >= 60 then c.hour + minute0 / 60 else c.hour;
    var minute1 := if minute0 >= 60 then minute0 % 60 else minute0;
    var w2 := if hour1 >= 24 then Advance(w, hour1 / 24) else w;
    var hour2 := if hour1 >= 24 then hour1 % 24 else hour1;
    (w2, Clock(hour2, minute1))
  }

  /** Rolling moves the weekday by the whole days that overflow, and the
      minute of the week by the minutes added, modulo a week. */
  lemma RollAdvancesCalendar(w: Weekday, c: Clock, minutes: nat)
    ensures var r := Roll(w, c, minutes);
            && Ordinal(r.0) == (Ordinal(w) + (c.hour * 60 + c.minute + minutes) / MINS_PER_DAY) % 7
            && WeekMinute(ClockState(0, r.0, r.1)) == (WeekMinute(ClockState(0, w, c)) + minutes) % MINS_PER_WEEK
  {
    var minute0 := c.minute + minutes;
    var hour1 := if minute0 >= 60 then c.hour + minute0 / 60 else c.hour;
    var minute1 := if minute0 >= 60 then minute0 % 60 else minute0;
    assert hour1 * 60 + minute1 == c.hour * 60 + c.minute + minutes;
    var r := Roll(w, c, minutes);
    RollArithmetic(Ordinal(w), c.hour * 60 + c.minute + minutes, hour1, minute1, Ordinal(r.0), r.1.hour);
  }

  lemma RollArithmetic(ord: nat, t: nat, hour1: nat, minute1: nat, ord2: nat, hour2: nat)
    requires ord < 7 && minute1 < 60
    requires hour1 * 60 + minute1 == t
    requires hour1 >= 24 ==> ord2 == (ord + hour1 / 24) % 7 && hour2 == hour1 % 24
    requires hour1 < 24 ==> ord2 == ord && hour2 == hour1
    ensures ord2 == (ord + t / MINS_PER_DAY) % 7
    ensures ord2 * MINS_PER_DAY + hour2 * 60 + minute1 == (ord * MINS_PER_DAY + t) % MINS_PER_WEEK
  {
    DayCarry(t, hour1, minute1);
    WeekCarry(ord, t);
  }

  /** Minutes past midnight split into whole days and the rest of the day
      exactly as hours split into days and hours of the day. */
  lemma DayCarry(t: nat, hour1: nat, minute1: nat)
    requires minute1 < 60 && hour1 * 60 + minute1 == t
    ensures t / MINS_PER_DAY == hour1 / 24
    ensures t % MINS_PER_DAY == (hour1 % 24) * 60 + minute1
  {
    var d := hour1 / 24;
    var h := hour1 % 24;
    assert t == d * MINS_PER_DAY + (h * 60 + minute1);
    ModOfDecomposition(t, d, h * 60 + minute1, MINS_PER_DAY);
  }

  /** Week minutes from a weekday ordinal and minutes since that day began. */
  lemma WeekCarry(ord: nat, t: nat)
    requires ord < 7
    ensures (ord * MINS_PER_DAY + t) % MINS_PER_WEEK == ((ord + t / MINS_PER_DAY) % 7) * MINS_PER_DAY + t % MINS_PER_DAY
  {
    var d := t / MINS_PER_DAY;
    var q := (ord + d) / 7;
    var s := (ord + d) % 7;
    assert ord * MINS_PER_DAY + t == q * MINS_PER_WEEK + (s * MINS_PER_DAY + t % MINS_PER_DAY);
    ModOfDecomposition(ord * MINS_PER_DAY + t, q, s * MINS_PER_DAY + t % MINS_PER_DAY, MINS_PER_WEEK);
  }

  /** `x % n` is the remainder of any decomposition `x = q * n + r`, `r < n`. */
  lemma ModOfDecomposition(x: nat, q: nat, r: nat, n: nat)
    requires 0 <= r < n
    requires x == q * n + r
    ensures x % n == r
    ensures x / n == q
  {
    var q' := x / n;
    var r' := x % n;
    assert x == q' * n + r';
    if q' < q {
      var k := q - q';
      assert k * n == q * n - q' * n;
      MulAtLeast(k, n);
    } else if q' > q {
      var k := q' - q;
      assert k * n == q' * n - q * n;
      MulAtLeast(k, n);
    }
  }

  lemma MulAtLeast(k: nat, n: nat)
    requires k >= 1
    ensures k * n >= n
  {
    assert k * n == (k - 1) * n + n;
  }

  /** `tick`: add the frame's elapsed real time `delta` (nanoseconds) to the
      carry, and when at least one whole in-game minute has accumulated,
      advance the clock and re-insert what changed. */
  function Tick(s: ClockState, delta: nat): (r: TickOutcome)
    ensures r.state.carry < MINUTE_NANOS
    ensures r.state.carry + r.minutes * MINUTE_NANOS == s.carry + delta
    ensures r.minutes == (s.carry + delta) / MINUTE_NANOS
    ensures r.minutes == 0 ==>
              && r.state.weekday == s.weekday && r.state.clock == s.clock
              && !r.weekdayInserted && !r.clockInserted
    ensures r.minutes > 0 || ValidClock(s.clock) ==> ValidClock(r.state.clock)
    ensures r.weekdayInserted <==> r.state.weekday != s.weekday
    ensures r.clockInserted <==> r.state.clock != s.clock
  {
    var (minutes, carry) := Consume(s.carry + delta);
    if minutes == 0 then
      TickOutcome(ClockState(carry, s.weekday, s.clock), 0, false, false)
    else
      var (w, c) := Roll(s.weekday, s.clock, minutes);
      TickOutcome(ClockState(carry, w, c), minutes, w != s.weekday, c != s.clock)
  }

  /** A tick moves a valid clock's minute of the week forward by exactly
      the minutes it consumed, modulo a week. */
  lemma TickAdvancesCalendar(s: ClockState, delta: nat)
    requires ValidClock(s.clock)
    ensures WeekMinute(Tick(s, delta).state) == (WeekMinute(s) + Tick(s, delta).minutes) % MINS_PER_WEEK
  {
    if Tick(s, delta).minutes == 0 {
      WeekMinuteBound(s);
    } else {
      RollAdvancesCalendar(s.weekday, s.clock, Tick(s, delta).minutes);
    }
  }

  /** A tick that brings the carry to less than one in-game minute leaves
      the weekday and the clock alone and inserts nothing; in particular a
      zero-length frame does, since the carry is always below a minute. */
  lemma ShortTickIsNoOp(s: ClockState, delta: nat)
    requires s.carry + delta < MINUTE_NANOS
    ensures Tick(s, delta).state == ClockState(s.carry + delta, s.weekday, s.clock)
    ensures !Tick(s, delta).weekdayInserted && !Tick(s, delta).clockInserted
  {
  }

  /** A tick whose minutes stay inside the current hour never re-inserts
      `Weekday`. */
  lemma MinuteOnlyTickKeepsWeekday(s: ClockState, delta: nat)
    requires ValidClock(s.clock)
    requires s.clock.minute + (s.carry + delta) / MINUTE_NANOS < 60
    ensures !Tick(s, delta).weekdayInserted
    ensures Tick(s, delta).state.clock.hour == s.clock.hour
  {
  }

  /** Two in-game days of real time from Sunday 23:59 land on Tuesday 23:59:
      the weekday moves by two in one tick. */
  lemma TwoDayRolloverFromSunday()
    ensures var r := Tick(ClockState(0, Sun, Clock(23, 59)), 2 * SECS_PER_DAY * NANOS_PER_SEC);
            r.state.weekday == Tue && r.state.clock == Clock(23, 59)
            && r.weekdayInserted && !r.clockInserted
  {
  }

  // ------------------------------------------------------- Sequences of ticks

  function Sum(ds: seq<nat>): nat
  {
    if |ds| == 0 then 0 else ds[0] + Sum(ds[1..])
  }

  /** The state after `tick`ing through every frame delta in order, with the
      total in-game minutes consumed on the way. */
  datatype Run = Run(state: ClockState, minutes: nat)

  function TickAll(s: ClockState, ds: seq<nat>): Run
    decreases ds
  {
    if |ds| == 0 then Run(s, 0)
    else
      var t := Tick(s, ds[0]);
      var rest := TickAll(t.state, ds[1..]);
      Run(rest.state, t.minutes + rest.minutes)
  }

  /** Over any sequence of frames, no real time is lost or invented: the
      consumed minutes plus the final carry are exactly the initial carry
      plus every delta fed in. */
  lemma {:induction false} TickAllConservesTime(s: ClockState, ds: seq<nat>)
    ensures TickAll(s, ds).state.carry + TickAll(s, ds).minutes * MINUTE_NANOS == s.carry + Sum(ds)
    decreases ds
  {
    if |ds| == 0 {
      assert TickAll(s, ds) == Run(s, 0) && Sum(ds) == 0;
    } else {
      var t := Tick(s, ds[0]);
      TickAllConservesTime(t.state, ds[1..]);
      var rest := TickAll(t.state, ds[1..]);
      ConserveStep(s.carry, ds[0], Sum(ds[1..]), t.state.carry, t.minutes, rest.state.carry, rest.minutes);
      assert TickAll(s, ds) == Run(rest.state, t.minutes + rest.minutes);
    }
  }

  /** Two steps that each conserve time conserve it together. */
  lemma ConserveStep(c0: nat, d0: nat, d1: nat, c1: nat, m1: nat, c2: nat, m2: nat)
    requires c1 + m1 * MINUTE_NANOS == c0 + d0
    requires c2 + m2 * MINUTE_NANOS == c1 + d1
    ensures c2 + (m1 + m2) * MINUTE_NANOS == c0 + (d0 + d1)
  {
  }

  /** After at least one frame the carry is below one in-game minute. */
  lemma {:induction false} TickAllCarryBelowMinute(s: ClockState, ds: seq<nat>)
    requires |ds| > 0
    ensures TickAll(s, ds).state.carry < MINUTE_NANOS
    decreases ds
  {
    var t := Tick(s, ds[0]);
    if |ds| > 1 {
      TickAllCarryBelowMinute(t.state, ds[1..]);
    } else {
      assert TickAll(t.state, ds[1..]) == Run(t.state, 0);
    }
  }

  /** Over any sequence of frames the clock stays valid. */
  lemma {:induction false} TickAllKeepsClockValid(s: ClockState, ds: seq<nat>)
    requires ValidClock(s.clock)
    ensures ValidClock(TickAll(s, ds).state.clock)
    decreases ds
  {
    if |ds| > 0 {
      TickAllKeepsClockValid(Tick(s, ds[0]).state, ds[1..]);
    }
  }

  /** Over any sequence of frames the calendar moves by exactly the consumed
      minutes, modulo a week. */
  lemma {:induction false} TickAllAdvancesCalendar(s: ClockState, ds: seq<nat>)
    requires ValidClock(s.clock)
    ensures WeekMinute(TickAll(s, ds).state) == (WeekMinute(s) + TickAll(s, ds).minutes) % MINS_PER_WEEK
    decreases ds
  {
    if |ds| == 0 {
      WeekMinuteBound(s);
      assert TickAll(s, ds) == Run(s, 0);
    } else {
      var t := Tick(s, ds[0]);
      var rest := TickAll(t.state, ds[1..]);
      assert TickAll(s, ds) == Run(rest.state, t.minutes + rest.minutes);
      TickAdvancesCalendar(s, ds[0]);
      TickAllAdvancesCalendar(t.state, ds[1..]);
      CalendarStep(WeekMinute(s), t.minutes, WeekMinute(t.state), rest.minutes, WeekMinute(rest.state));
    }
  }

  /** Moving a week minute by `a` and then by `b` moves it by `a + b`. */
  lemma CalendarStep(x: nat, a: nat, y: nat, b: nat, z: nat)
    requires y == (x + a) % MINS_PER_WEEK && z == (y + b) % MINS_PER_WEEK
    ensures z == (x + (a + b)) % MINS_PER_WEEK
  {
    AddModAssoc(x, a, b);
  }

  /** A valid clock's minute of the week is below a week. */
  lemma WeekMinuteBound(s: ClockState)
    requires ValidClock(s.clock)
    ensures WeekMinute(s) < MINS_PER_WEEK
    ensures WeekMinute(s) % MINS_PER_WEEK == WeekMinute(s)
  {
  }

  lemma AddModAssoc(x: nat, a: nat, b: nat)
    ensures ((x + a) % MINS_PER_WEEK + b) % MINS_PER_WEEK == (x + a + b) % MINS_PER_WEEK
  {
    var y := x + a;
    ModOfDecomposition(y, y / MINS_PER_WEEK, y % MINS_PER_WEEK, MINS_PER_WEEK);
    var z := y % MINS_PER_WEEK + b;
    ModOfDecomposition(y + b, y / MINS_PER_WEEK + z / MINS_PER_WEEK, z % MINS_PER_WEEK, MINS_PER_WEEK);
  }

  /** Ticking through any non-empty sequence of frames consumes exactly
      `floor((carry + total elapsed) / minute)` in-game minutes. */
  lemma TickAllMinutes(s: ClockState, ds: seq<nat>)
    requires |ds| > 0
    ensures TickAll(s, ds).minutes == (s.carry + Sum(ds)) / MINUTE_NANOS
  {
    TickAllConservesTime(s, ds);
    TickAllCarryBelowMinute(s, ds);
    var r := TickAll(s, ds);
    ModOfDecomposition(s.carry + Sum(ds), r.minutes, r.state.carry, MINUTE_NANOS);
  }
}
