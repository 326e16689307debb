/** config/ConfigManager.java: the cached settings of config.yml and the game data it reads and
    writes in place. */
module Config {
  import opened Wrappers
  import opened GameStates
  import opened Players
  import opened WorldSets
  import opened GameData
  import opened Teams

  /** The settings the core reads from config.yml. */
  datatype Settings = Settings(
    maxTeamMembers: int,
    autoAssignEnabled: bool,
    autoAssignOnlyWhenWaiting: bool,
    startCountdown: int,
    showTitleOnStart: bool,
    timeUpdateInterval: int,
    showActionbar: bool)

  /** The defaults load() falls back to for a missing setting. */
  const DefaultSettings := Settings(4, true, true, 10, true, 20, true)

  class ConfigManager {
    const settings: Settings
    var gameData: Store

    /** After load(): the settings read and the game data parsed from the file. */
    constructor (settings: Settings, data: Store)
      ensures this.settings == settings && gameData == data
    {
      this.settings := settings;
      gameData := data;
    }

    /** setCurrentSeed. */
    method SetCurrentSeed(seed: int)
      modifies this`gameData
      ensures gameData == WithSeed(old(gameData), seed)
      ensures CurrentSeed(gameData) == seed && (HasSeed(gameData) <==> seed != 0)
    {
      gameData := WithSeed(gameData, seed);
      SeedRoundTrip(old(gameData), seed);
    }

    /** setGlobalGameState. */
    method SetGlobalGameState(g: GameState)
      modifies this`gameData
      ensures gameData == WithGlobalState(old(gameData), g)
      ensures GlobalState(gameData) == g
    {
      gameData := WithGlobalState(gameData, g);
      GlobalStateRoundTrip(old(gameData), g);
    }

    /** setGameStartTime: 0 or less clears the key. */
    method SetGameStartTime(t: int)
      modifies this`gameData
      ensures gameData == WithStartTime(old(gameData), t)
      ensures StartTime(gameData) == if t <= 0 then 0 else t
    {
      gameData := WithStartTime(gameData, t);
      StartTimeRoundTrip(old(gameData), t);
    }

    /** saveTeam: the members are written as a list (in the set's iteration order), then the
        world names if the team has a world set, then the state and completion time. Afterwards
        the team is persisted and nothing outside `teams.<name>` has changed. */
    method SaveTeam(team: Team)
      modifies this`gameData
      ensures exists ms: seq<Uuid> ::
                && (forall x: Uuid :: x in ms <==> x in team.members)
                && gameData == WithTeam(old(gameData), team.name, ms, WorldNamesOf(team.worldSet), team.state, team.completionTime)
      ensures Persisted(gameData, team.name, team.Record())
      ensures AgreeOutside(old(gameData), gameData, team.name)
      ensures StoredTeamNames(gameData) == StoredTeamNames(old(gameData)) + {team.name}
    {
      var memberStrings: seq<Uuid> := [];
      var rest := team.members;
      while rest != {}
        invariant rest <= team.members
        invariant forall x: Uuid :: x in memberStrings <==> x in team.members - rest
        decreases |rest|
      {
        var u :| u in rest;
        memberStrings := memberStrings + [u];
        rest := rest - {u};
      }
      gameData := WithTeam(gameData, team.name, memberStrings, WorldNamesOf(team.worldSet), team.state, team.completionTime);
      SaveTeamRoundTrip(old(gameData), team.name, memberStrings, WorldNamesOf(team.worldSet), team.state, team.completionTime);
      SaveTeamPersists(old(gameData), team.name, memberStrings, team.Record());
    }

    /** loadTeams: one new team per name under `teams`, with the members that parse as UUIDs,
        the world set rebuilt from the stored names and the given seed, the stored state
        (WAITING by default) and completion time (-1 by default), and no colour. */
    method LoadTeams(seed: int) returns (loaded: map<string, Team>)
      ensures loaded.Keys == StoredTeamNames(gameData)
      ensures forall n | n in loaded :: fresh(loaded[n]) && ReadBack(loaded[n], n, seed)
    {
      loaded := map[];
      var names := StoredTeamNames(gameData);
      while names != {}
        invariant names <= StoredTeamNames(gameData)
        invariant loaded.Keys == StoredTeamNames(gameData) - names
        invariant forall n | n in loaded :: fresh(loaded[n]) && ReadBack(loaded[n], n, seed)
        decreases |names|
      {
        var n :| n in names;
        var team := LoadTeam(n, seed);
        loaded := loaded[n := team];
        names := names - {n};
      }
    }

    /** The team read back for `n`: its name, no colour, the record the store holds for it,
        and the world set rebuilt from the stored world names with the given seed. */
    predicate ReadBack(team: Team, n: string, seed: int)
      reads this, team
    {
      && team.name == n && team.color == None
      && team.Record() == DecodeTeam(gameData, n)
      && team.worldSet == WorldSetOf(n, DecodeWorlds(gameData, n), seed)
    }

    /** The body of loadTeams' loop for one name. */
    method LoadTeam(n: string, seed: int) returns (team: Team)
      ensures fresh(team) && ReadBack(team, n, seed)
    {
      team := new Team(n);
      var items := GetStringList(gameData, TeamKey(n, MembersField));
      AddMembers(team, items);
      var worlds := DecodeWorlds(gameData, n);
      if worlds.Some? {
        team.SetWorldSet(WorldSetOf(n, worlds, seed));
      }
      team.SetState(DecodeState(gameData, n));
      team.SetCompletionTime(DecodeCompletionTime(gameData, n));
    }

    /** The member loop of loadTeams: each listed string that parses as a UUID is added. */
    method AddMembers(team: Team, items: seq<string>)
      requires team.members == {}
      modifies team`members
      ensures team.members == set x: Uuid | x in items
    {
      for i := 0 to |items|
        invariant team.members == set x: Uuid | x in items[..i]
      {
        if IsUuid(items[i]) {
          var _ := team.AddMember(items[i]);
        }
        assert items[..i + 1] == items[..i] + [items[i]];
      }
      assert items[..|items|] == items;
    }

    /** deleteTeam: the `teams.<name>` subtree is removed. */
    method DeleteTeam(name: string)
      modifies this`gameData
      ensures gameData == WithoutTeam(old(gameData), name)
      ensures name !in StoredTeamNames(gameData) && AgreeOutside(old(gameData), gameData, name)
    {
      gameData := WithoutTeam(gameData, name);
      DeleteTeamEffect(old(gameData), name);
    }

    /** clearAllGameData. */
    method ClearAllGameData()
      modifies this`gameData
      ensures gameData == Cleared(old(gameData))
      ensures !HasSeed(gameData) && StartTime(gameData) == 0 && GlobalState(gameData) == Waiting
      ensures StoredTeamNames(gameData) == {}
    {
      gameData := Cleared(gameData);
      ClearedEffect(old(gameData));
    }
  }
}
