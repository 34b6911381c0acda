/** The window title of `app/src/window_name.rs`: "Simgine" outside a
    world, otherwise "Simgine - <world>" with a suffix saying whether this
    instance hosts a server or is a connected client. */
module WindowName {
  import opened Maybe

  /** The networking library's client and server states. */
  datatype ClientState = Disconnected | Connecting | Connected
  datatype ServerState = Stopped | Running

  /** What the title suffix reports. */
  datatype Mode = ServerMode | ClientMode | LocalMode

  const APP_NAME: string := "Simgine"
  const SEPARATOR: string := " - "
  const SERVER_SUFFIX: string := " (Server)"
  const CLIENT_SUFFIX: string := " (Client)"

  /** A running server wins over the client state; otherwise only a
      connected client is reported. */
  function ModeOf(client: ClientState, server: ServerState): (m: Mode)
    ensures m == ServerMode <==> server == Running
    ensures m == ClientMode <==> server == Stopped && client == Connected
    ensures m == LocalMode <==> server == Stopped && client != Connected
  {
    match (client, server)
    case (_, Running) => ServerMode
    case (Connected, _) => ClientMode
    case _ => LocalMode
  }

  function Suffix(m: Mode): (s: string)
  {
    match m
    case ServerMode => SERVER_SUFFIX
    case ClientMode => CLIENT_SUFFIX
    case LocalMode => ""
  }

  /** `update`: the old title is cleared and rewritten from the world name
      (present only inside a world) and the two networking states. */
  function Update(previous: string, worldName: Option<string>, client: ClientState, server: ServerState): (title: string)
    ensures worldName.None? ==> title == APP_NAME
    ensures worldName.Some? ==>
              var prefix := APP_NAME + SEPARATOR;
              var suffix := Suffix(ModeOf(client, server));
              && |title| == |prefix| + |worldName.value| + |suffix|
              && title[..|prefix|] == prefix
              && title[|prefix|..|prefix| + |worldName.value|] == worldName.value
              && title[|prefix| + |worldName.value|..] == suffix
  {
    var cleared := previous[..0];
    match worldName
    case Some(name) => cleared + APP_NAME + SEPARATOR + name + Suffix(ModeOf(client, server))
    case None => cleared + APP_NAME
  }

  /** The title never depends on what was there before. */
  lemma UpdateIgnoresOldTitle(a: string, b: string, worldName: Option<string>, client: ClientState, server: ServerState)
    ensures Update(a, worldName, client, server) == Update(b, worldName, client, server)
  {
  }

  /** The world name read back out of a title, given the mode it was
      written in. */
  function WorldNameIn(title: string, m: Mode): Option<string>
  {
    var prefix := APP_NAME + SEPARATOR;
    var suffix := Suffix(m);
    if |title| >= |prefix| + |suffix| && title[..|prefix|] == prefix && title[|title| - |suffix|..] == suffix
    then Some(title[|prefix|..|title| - |suffix|])
    else None
  }

  /** Inside a world the title names the world exactly; outside one it
      names no world, whatever the mode. */
  lemma {:induction false} TitleNamesTheWorld(previous: string, worldName: Option<string>, client: ClientState, server: ServerState)
    ensures WorldNameIn(Update(previous, worldName, client, server), ModeOf(client, server)) == worldName
  {
    var title := Update(previous, worldName, client, server);
    var prefix := APP_NAME + SEPARATOR;
    var suffix := Suffix(ModeOf(client, server));
    if worldName.Some? {
      assert title[|title| - |suffix|..] == suffix;
      assert title[|prefix|..|title| - |suffix|] == worldName.value;
    }
  }
}
