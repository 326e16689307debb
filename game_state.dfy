/** The race state enum shared by the whole game and by each team (model/GameState.java). */
module GameStates {
  import opened Wrappers

  datatype GameState = Waiting | Running | Completed

  /** Enum.name(): the constant's identifier as written in the source. */
  function Name(g: GameState): string
  {
    match g
    case Waiting => "WAITING"
    case Running => "RUNNING"
    case Completed => "COMPLETED"
  }

  /** Enum.valueOf: the constant named exactly `s` (case matters); None where Java throws
      IllegalArgumentException. */
  function ValueOf(s: string): (r: Option<GameState>)
    ensures r.Some? ==> Name(r.value) == s
  {
    if s == "WAITING" then Some(Waiting)
    else if s == "RUNNING" then Some(Running)
    else if s == "COMPLETED" then Some(Completed)
    else None
  }

  /** Parsing a state's name gives the state back, so a stored state always reads back. */
  lemma ValueOfName(g: GameState)
    ensures ValueOf(Name(g)) == Some(g)
  {
  }

  /** The fallback used by every reader of a stored state: an unparsable name means WAITING. */
  function ParseOrWaiting(s: string): (g: GameState)
    ensures ValueOf(s).Some? ==> g == ValueOf(s).value
    ensures ValueOf(s).None? ==> g == Waiting
  {
    match ValueOf(s)
    case Some(v) => v
    case None => Waiting
  }
}
