/** The pause menu of `ui/src/menu/pause_menu.rs`: opening it pauses a
    running game and remembers to resume it; closing it resumes the game
    only if opening paused it.

    Pausing is requested with `SetPaused`, which the authority serves by
    inserting `Paused`.  The server's `SetPaused` handler is not modelled,
    so serving a request is modelled as `Speed.InsertPaused`. */
module PauseMenu {
  import Speed

  /** `PauseMenu`: whether closing the menu should resume the game. */
  datatype Menu = Menu(unpauseOnHide: bool)

  /** `Default for PauseMenu`. */
  function NewMenu(): (m: Menu)
    ensures !m.unpauseOnHide
  {
    Menu(false)
  }

  /** The request the menu sends. */
  datatype Request = SetPaused(paused: bool)

  /** `open` spawns a default menu and `pause` reacts to its insertion: a
      running game gets a pause request and the menu remembers to resume. */
  function Open(paused: bool): (r: (Menu, seq<Request>))
    ensures r.0.unpauseOnHide <==> !paused
    ensures paused ==> r.1 == []
    ensures !paused ==> r.1 == [SetPaused(true)]
  {
    var m := NewMenu();
    if !paused then (m.(unpauseOnHide := true), [SetPaused(true)]) else (m, [])
  }

  /** `unpause`, the reaction to the menu's removal. */
  function Close(m: Menu): (rs: seq<Request>)
    ensures m.unpauseOnHide ==> rs == [SetPaused(false)]
    ensures !m.unpauseOnHide ==> rs == []
  {
    if m.unpauseOnHide then [SetPaused(false)] else []
  }

  /** Serving the requests in order. */
  function Serve(st: Speed.SpeedState, rs: seq<Request>): (r: Speed.SpeedState)
    ensures r.speed == st.speed
    ensures |rs| > 0 ==> r.paused == rs[|rs| - 1].paused && Speed.Consistent(r)
    ensures |rs| == 0 ==> r == st
    decreases |rs|
  {
    if |rs| == 0 then st else Serve(Speed.InsertPaused(st, rs[0].paused), rs[1..])
  }

  /** While the menu is open the game is paused, and if nothing else touched
      `Paused` meanwhile, closing the menu restores the state before it was
      opened, applied relative speed included. */
  lemma OpenCloseRestores(st: Speed.SpeedState)
    requires Speed.Consistent(st)
    ensures var (m, rs) := Open(st.paused);
            var during := Serve(st, rs);
            && during.paused && during.applied == 0
            && Serve(during, Close(m)) == st
  {
  }

  /** A menu opened on a paused game never resumes it, whatever happened
      while it was open. */
  lemma MenuOverPausedGameNeverResumes(during: Speed.SpeedState)
    ensures Close(Open(true).0) == []
    ensures Serve(during, Close(Open(true).0)) == during
  {
  }
}
