/** The earlier speed design of `core/src/game_speed.rs`, in which pausing
    is folded into the speed itself: `GameSpeed` is either
    `Paused { previous }` or `Running { speed }`, and one reaction sets the
    virtual time's relative speed on every insert. */
module FoldedSpeed {
  import Speed

  datatype RunSpeed = Normal | Fast | Ultra

  /** `RunSpeed::multiplier`. */
  function RunMultiplier(s: RunSpeed): (m: int)
    ensures 1 <= m <= 8
  {
    match s
    case Normal => 1
    case Fast => 3
    case Ultra => 8
  }

  /** `speed as usize`: declaration order. */
  function RunIndex(s: RunSpeed): (i: nat)
    ensures i < 3
  {
    match s
    case Normal => 0
    case Fast => 1
    case Ultra => 2
  }

  /** A paused value still names the speed to return to. */
  datatype GameSpeed = Paused(previous: RunSpeed) | Running(speed: RunSpeed)

  /** `Default for GameSpeed`: paused, returning to normal speed. */
  function DefaultSpeed(): (g: GameSpeed)
    ensures g.Paused? && g.previous == Normal
    ensures Multiplier(g) == 0
  {
    Paused(Normal)
  }

  /** `GameSpeed::multiplier`: 0 for every paused value. */
  function Multiplier(g: GameSpeed): (m: int)
    ensures m == 0 <==> g.Paused?
    ensures g.Running? ==> m == RunMultiplier(g.speed)
  {
    match g
    case Paused(_) => 0
    case Running(s) => RunMultiplier(s)
  }

  /** The speed entity and the virtual time's relative speed. */
  datatype FoldedState = FoldedState(speed: GameSpeed, applied: int)

  /** Inserting a `GameSpeed` and running `set_time`, which applies its
      multiplier unconditionally. */
  function Insert(st: FoldedState, g: GameSpeed): (r: FoldedState)
    ensures r.speed == g
    ensures r.applied == Multiplier(r.speed)
  {
    FoldedState(g, Multiplier(g))
  }

  // ------------------------------------ Correspondence with `Speed`'s design

  function ToRun(s: Speed.GameSpeed): RunSpeed
  {
    match s
    case Normal => Normal
    case Fast => Fast
    case Ultra => Ultra
  }

  function FromRun(s: RunSpeed): Speed.GameSpeed
  {
    match s
    case Normal => Speed.Normal
    case Fast => Speed.Fast
    case Ultra => Speed.Ultra
  }

  /** The (`Paused`, `GameSpeed`) pair of the later design for a value. */
  function Unfold(g: GameSpeed): (bool, Speed.GameSpeed)
  {
    match g
    case Paused(p) => (true, FromRun(p))
    case Running(s) => (false, FromRun(s))
  }

  /** The value of this design for a (`Paused`, `GameSpeed`) pair. */
  function Fold(paused: bool, s: Speed.GameSpeed): GameSpeed
  {
    if paused then Paused(ToRun(s)) else Running(ToRun(s))
  }

  /** The two designs hold the same information: folding and unfolding are
      inverse both ways, and the relative speed each applies is the same. */
  lemma FoldUnfoldInverse(g: GameSpeed, paused: bool, s: Speed.GameSpeed)
    ensures Fold(Unfold(g).0, Unfold(g).1) == g
    ensures Unfold(Fold(paused, s)) == (paused, s)
    ensures Multiplier(g) == Speed.Effective(Unfold(g).0, Unfold(g).1)
  {
  }
}
