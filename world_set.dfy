/** A team's three worlds (model/WorldSet.java): an immutable value. */
module WorldSets {
  import opened Wrappers

  /** World.Environment; CUSTOM stands for every environment that is not one of the three vanilla ones. */
  datatype Environment = Normal | Nether | TheEnd | Custom

  datatype WorldSet = WorldSet(teamName: string, overworldName: string, netherName: string, endName: string, seed: int)

  const NetherSuffix: string := "_nether"
  const EndSuffix: string := "_the_end"

  /** The two-argument constructor: the world names follow the Multiverse-NetherPortals
      auto-link convention, the team name itself and two suffixed variants. */
  function DefaultWorldSet(teamName: string, seed: int): (ws: WorldSet)
    ensures ws.teamName == teamName && ws.seed == seed
    ensures ws.overworldName == teamName
    ensures |ws.netherName| == |teamName| + |NetherSuffix| && |ws.endName| == |teamName| + |EndSuffix|
    ensures ws.netherName[..|teamName|] == teamName && ws.netherName[|teamName|..] == NetherSuffix
    ensures ws.endName[..|teamName|] == teamName && ws.endName[|teamName|..] == EndSuffix
  {
    WorldSet(teamName, teamName, teamName + NetherSuffix, teamName + EndSuffix, seed)
  }

  /** containsWorld(String): the name is one of the three stored names. */
  predicate ContainsWorld(ws: WorldSet, worldName: string)
  {
    ws.overworldName == worldName || ws.netherName == worldName || ws.endName == worldName
  }

  /** containsWorld(World): a world is given by its name, and null is never contained. */
  predicate ContainsWorldRef(ws: WorldSet, world: Option<string>)
  {
    world.Some? && ContainsWorld(ws, world.value)
  }

  /** getWorldName(Environment): the name for a vanilla environment, null for any other. */
  function GetWorldName(ws: WorldSet, env: Environment): (r: Option<string>)
    ensures r.Some? <==> env != Custom
  {
    match env
    case Normal => Some(ws.overworldName)
    case Nether => Some(ws.netherName)
    case TheEnd => Some(ws.endName)
    case Custom => None
  }

  /** The three default names are pairwise different and all belong to the set. */
  lemma DefaultNamesDistinct(teamName: string, seed: int)
    ensures var ws := DefaultWorldSet(teamName, seed);
      && ws.overworldName != ws.netherName
      && ws.overworldName != ws.endName
      && ws.netherName != ws.endName
      && ContainsWorld(ws, ws.overworldName)
      && ContainsWorld(ws, ws.netherName)
      && ContainsWorld(ws, ws.endName)
  {
    var ws := DefaultWorldSet(teamName, seed);
    assert |ws.netherName| == |teamName| + 7 && |ws.endName| == |teamName| + 8;
  }

  /** A name belongs to a world set exactly when some vanilla environment maps to it. */
  lemma ContainsIffSomeEnvironment(ws: WorldSet, worldName: string)
    ensures ContainsWorld(ws, worldName) <==> exists env :: GetWorldName(ws, env) == Some(worldName)
  {
    if ContainsWorld(ws, worldName) {
      var env := if ws.overworldName == worldName then Normal
                 else if ws.netherName == worldName then Nether
                 else TheEnd;
      assert GetWorldName(ws, env) == Some(worldName);
    }
  }

  /** Every name getWorldName returns is contained in the set. */
  lemma WorldNameContained(ws: WorldSet, env: Environment)
    ensures GetWorldName(ws, env).Some? ==> ContainsWorld(ws, GetWorldName(ws, env).value)
  {
  }
}
