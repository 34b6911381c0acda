/** Speed and pause control of `core/src/speed.rs`.

    `Paused` is a flag independent of the chosen `GameSpeed`.  Two reactions
    keep the virtual time's relative speed (`applied`) in step with them:
    one runs whenever `GameSpeed` is inserted, the other whenever `Paused`
    is.  Relative speeds are small whole numbers, so they are `int`s here. */
module Speed {

  /** `Default for Paused`: a game starts paused. */
  const DEFAULT_PAUSED: bool := true

  /** `Paused::toggled`. */
  function Toggled(paused: bool): (r: bool)
    ensures r != paused
  {
    !paused
  }

  /** Toggling twice gives back the original flag. */
  lemma ToggledTwice(paused: bool)
    ensures Toggled(Toggled(paused)) == paused
  {
  }

  datatype GameSpeed = Normal | Fast | Ultra

  /** `Default for GameSpeed`. */
  const DEFAULT_SPEED: GameSpeed := Normal

  /** `GameSpeed::multiplier`: 1, 3 and 8 times real time. */
  function Multiplier(s: GameSpeed): (m: int)
    ensures 1 <= m <= 8
  {
    match s
    case Normal => 1
    case Fast => 3
    case Ultra => 8
  }

  /** Faster variants run strictly faster, so no two share a multiplier. */
  lemma MultiplierStrictlyIncreasing()
    ensures Multiplier(Normal) < Multiplier(Fast) < Multiplier(Ultra)
    ensures forall a: GameSpeed, b: GameSpeed :: Multiplier(a) == Multiplier(b) ==> a == b
  {
  }

  /** The relative speed the pair (`Paused`, `GameSpeed`) calls for. */
  function Effective(paused: bool, speed: GameSpeed): (m: int)
    ensures m == 0 <==> paused
    ensures !paused ==> m == Multiplier(speed)
  {
    if paused then 0 else Multiplier(speed)
  }

  /** The speed entity and the virtual time's relative speed. */
  datatype SpeedState = SpeedState(paused: bool, speed: GameSpeed, applied: int)

  /** No drift between the stored pair and the applied relative speed. */
  predicate Consistent(st: SpeedState)
  {
    st.applied == Effective(st.paused, st.speed)
  }

  /** `set_speed`, the reaction to a `GameSpeed` insert: while paused the
      applied speed is left alone, otherwise it becomes the multiplier. */
  function OnSpeedInserted(st: SpeedState): (r: SpeedState)
    ensures r.paused == st.paused && r.speed == st.speed
    ensures st.paused ==> r.applied == st.applied
    ensures !st.paused ==> Consistent(r)
  {
    if !st.paused then st.(applied := Multiplier(st.speed)) else st
  }

  /** `pause_unpause`, the reaction to a `Paused` insert: 0 when paused,
      otherwise the current speed's multiplier. */
  function OnPausedInserted(st: SpeedState): (r: SpeedState)
    ensures r.paused == st.paused && r.speed == st.speed
    ensures Consistent(r)
  {
    if st.paused then st.(applied := 0) else st.(applied := Multiplier(st.speed))
  }

  /** Inserting a `GameSpeed` and running its reaction. */
  function InsertSpeed(st: SpeedState, s: GameSpeed): (r: SpeedState)
    ensures r.speed == s && r.paused == st.paused
    ensures Consistent(st) ==> Consistent(r)
    ensures st.paused ==> r.applied == st.applied
  {
    OnSpeedInserted(st.(speed := s))
  }

  /** Inserting a `Paused` and running its reaction. */
  function InsertPaused(st: SpeedState, paused: bool): (r: SpeedState)
    ensures r.paused == paused && r.speed == st.speed
    ensures Consistent(r)
  {
    OnPausedInserted(st.(paused := paused))
  }

  /** `spawn`: the entity comes with default `GameSpeed` and `Paused`, and
      both reactions run, whatever relative speed the virtual time had. */
  function Spawn(applied: int): (r: SpeedState)
    ensures r.paused && r.speed == Normal && r.applied == 0
    ensures Consistent(r)
  {
    OnPausedInserted(OnSpeedInserted(SpeedState(DEFAULT_PAUSED, DEFAULT_SPEED, applied)))
  }

  /** A speed chosen while paused is remembered: the applied speed stays 0,
      and unpausing resumes at the chosen speed. */
  lemma SpeedChosenWhilePausedIsRemembered(st: SpeedState, s: GameSpeed)
    requires Consistent(st) && st.paused
    ensures InsertSpeed(st, s).applied == 0
    ensures InsertPaused(InsertSpeed(st, s), false).applied == Multiplier(s)
  {
  }

  /** Pausing and unpausing again brings back the speed in force before. */
  lemma PauseResumeRestores(st: SpeedState)
    requires Consistent(st) && !st.paused
    ensures InsertPaused(st, true).applied == 0
    ensures InsertPaused(InsertPaused(st, true), false) == st
  {
  }
}
