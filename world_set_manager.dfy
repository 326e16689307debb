/** manager/WorldSetManager.java: the registry of world sets by team name, and world creation
    and deletion through Multiverse. Multiverse is reduced to whether its API is available, the
    set of loaded world names, and the outcome of each call, given as parameters. */
module WorldRegistry {
  import opened Wrappers
  import opened WorldSets

  /** The result of one Multiverse createWorld call: created, reported as a failure, or an
      exception. */
  datatype CreateOutcome = Created | Failed | Threw

  class WorldSetManager {
    var worldSets: map<string, WorldSet>
    const apiAvailable: bool
    var loadedWorlds: set<string>

    /** An empty registry; `apiAvailable` is what initialize() found. */
    constructor (apiAvailable: bool, loadedWorlds: set<string>)
      ensures worldSets == map[] && this.apiAvailable == apiAvailable && this.loadedWorlds == loadedWorlds
    {
      worldSets := map[];
      this.apiAvailable := apiAvailable;
      this.loadedWorlds := loadedWorlds;
    }

    /** createWorldSet: the three default-named worlds are created in order; the set is
        registered under the team name only when all three are created. A failed nether removes
        the overworld again, a failed end removes both; an exception aborts with no cleanup.
        Without the API nothing happens. `deletionFails` names the worlds Multiverse refuses to
        delete during cleanup. */
    method CreateWorldSet(teamName: string, seed: int, overworld: CreateOutcome, nether: CreateOutcome, end: CreateOutcome,
                          deletionFails: set<string>) returns (r: Option<WorldSet>)
      modifies this`worldSets, this`loadedWorlds
      ensures var ws := DefaultWorldSet(teamName, seed);
        var ow, nw, ew := ws.overworldName, ws.netherName, ws.endName;
        && (r.Some? <==> apiAvailable && overworld == Created && nether == Created && end == Created)
        && (r.Some? ==> r.value == ws && worldSets == old(worldSets)[teamName := ws] && loadedWorlds == old(loadedWorlds) + {ow, nw, ew})
        && (r.None? ==> worldSets == old(worldSets))
        && (!apiAvailable ==> loadedWorlds == old(loadedWorlds))
        && (apiAvailable && overworld != Created ==> loadedWorlds == old(loadedWorlds))
        && (apiAvailable && overworld == Created && nether == Failed ==>
              loadedWorlds == old(loadedWorlds) + {ow} - ({ow} - deletionFails))
        && (apiAvailable && overworld == Created && nether == Threw ==> loadedWorlds == old(loadedWorlds) + {ow})
        && (apiAvailable && overworld == Created && nether == Created && end == Failed ==>
              loadedWorlds == old(loadedWorlds) + {ow, nw} - ({ow, nw} - deletionFails))
        && (apiAvailable && overworld == Created && nether == Created && end == Threw ==>
              loadedWorlds == old(loadedWorlds) + {ow, nw})
    {
      if !apiAvailable {
        return None;
      }
      var ws := DefaultWorldSet(teamName, seed);
      DefaultNamesDistinct(teamName, seed);
      if overworld != Created {
        return None;
      }
      loadedWorlds := loadedWorlds + {ws.overworldName};
      if nether == Threw {
        return None;
      }
      if nether == Failed {
        var _ := DeleteWorld(ws.overworldName, deletionFails);
        return None;
      }
      loadedWorlds := loadedWorlds + {ws.netherName};
      if end == Threw {
        return None;
      }
      if end == Failed {
        var _ := DeleteWorld(ws.overworldName, deletionFails);
        var _ := DeleteWorld(ws.netherName, deletionFails);
        return None;
      }
      loadedWorlds := loadedWorlds + {ws.endName};
      worldSets := worldSets[teamName := ws];
      return Some(ws);
    }

    /** deleteWorld: false without the API; a world that is not loaded counts as deleted;
        otherwise whether Multiverse deleted it. */
    method DeleteWorld(worldName: string, deletionFails: set<string>) returns (ok: bool)
      modifies this`loadedWorlds
      ensures ok <==> apiAvailable && (worldName !in old(loadedWorlds) || worldName !in deletionFails)
      ensures loadedWorlds == if ok then old(loadedWorlds) - {worldName} else old(loadedWorlds)
    {
      if !apiAvailable {
        return false;
      }
      if worldName !in loadedWorlds {
        return true;
      }
      if worldName in deletionFails {
        return false;
      }
      loadedWorlds := loadedWorlds - {worldName};
      return true;
    }

    /** deleteWorldSet: false for an unregistered team; otherwise all three deletions are
        attempted, the result is whether all succeeded, and only then is the entry removed. */
    method DeleteWorldSet(teamName: string, deletionFails: set<string>) returns (success: bool)
      modifies this`worldSets, this`loadedWorlds
      ensures teamName !in old(worldSets) ==> !success && worldSets == old(worldSets) && loadedWorlds == old(loadedWorlds)
      ensures teamName in old(worldSets) ==>
        var ws := old(worldSets)[teamName];
        var names := {ws.overworldName, ws.netherName, ws.endName};
        && (success <==> apiAvailable && forall w | w in names :: w !in old(loadedWorlds) || w !in deletionFails)
        && loadedWorlds == (if apiAvailable then old(loadedWorlds) - (names - deletionFails) else old(loadedWorlds))
        && worldSets == if success then old(worldSets) - {teamName} else old(worldSets)
    {
      if teamName !in worldSets {
        return false;
      }
      var ws := worldSets[teamName];
      success := true;
      var ok1 := DeleteWorld(ws.overworldName, deletionFails);
      success := success && ok1;
      var ok2 := DeleteWorld(ws.netherName, deletionFails);
      success := success && ok2;
      var ok3 := DeleteWorld(ws.endName, deletionFails);
      success := success && ok3;
      if success {
        worldSets := worldSets - {teamName};
      }
    }

    /** getWorldSetByWorldName: a registered set containing the world, or None when there is
        none; with several candidates, which one is returned is left open. */
    method GetWorldSetByWorldName(worldName: string) returns (r: Option<WorldSet>)
      ensures r.Some? ==> r.value in worldSets.Values && ContainsWorld(r.value, worldName)
      ensures r.None? <==> forall ws | ws in worldSets.Values :: !ContainsWorld(ws, worldName)
    {
      var rest := worldSets.Values;
      while rest != {}
        invariant rest <= worldSets.Values
        invariant forall ws | ws in worldSets.Values - rest :: !ContainsWorld(ws, worldName)
        decreases |rest|
      {
        var ws :| ws in rest;
        if ContainsWorld(ws, worldName) {
          return Some(ws);
        }
        rest := rest - {ws};
      }
      return None;
    }

    /** getTeamNameByWorld: null for a null world, else the team of the set holding it. */
    method GetTeamNameByWorld(world: Option<string>) returns (r: Option<string>)
      ensures world.None? ==> r.None?
      ensures r.Some? ==> exists ws | ws in worldSets.Values :: ws.teamName == r.value && ContainsWorldRef(ws, world)
      ensures world.Some? && r.None? ==> forall ws | ws in worldSets.Values :: !ContainsWorld(ws, world.value)
    {
      if world.None? {
        return None;
      }
      var ws := GetWorldSetByWorldName(world.value);
      r := if ws.Some? then Some(ws.value.teamName) else None;
    }

    /** isTimeAttackWorld: some registered set contains the world. */
    method IsTimeAttackWorld(worldName: string) returns (b: bool)
      ensures b <==> exists ws | ws in worldSets.Values :: ContainsWorld(ws, worldName)
    {
      var ws := GetWorldSetByWorldName(worldName);
      b := ws.Some?;
    }

    /** registerWorldSet: keyed by the set's own team name, replacing an earlier entry. */
    method RegisterWorldSet(ws: WorldSet)
      modifies this`worldSets
      ensures worldSets == old(worldSets)[ws.teamName := ws]
    {
      worldSets := worldSets[ws.teamName := ws];
    }

    /** clearAllWorldSets. */
    method ClearAllWorldSets()
      modifies this`worldSets
      ensures worldSets == map[]
    {
      worldSets := map[];
    }
  }

  /** A set registered by createWorldSet is found again by each of its three world names. */
  lemma CreatedSetIsFound(registry: map<string, WorldSet>, teamName: string, seed: int)
    ensures var ws := DefaultWorldSet(teamName, seed);
      var r := registry[teamName := ws];
      && ws in r.Values
      && ContainsWorld(ws, ws.overworldName) && ContainsWorld(ws, ws.netherName) && ContainsWorld(ws, ws.endName)
  {
    var ws := DefaultWorldSet(teamName, seed);
    DefaultNamesDistinct(teamName, seed);
    assert registry[teamName := ws][teamName] == ws;
  }
}
