/** manager/TeamManager.java: the teams by name and the player-to-team map, kept in step with
    each other and with the persisted game data. Every change is proved against the roster
    functions of module Rosters. */
module TeamManagers {
  import opened Wrappers
  import opened GameStates
  import opened Players
  import opened WorldSets
  import opened GameData
  import opened Collections
  import opened Teams
  import opened Config
  import opened Rosters
  import opened Scoreboards
  import opened WorldRegistry

  /** No player appears under two stored teams. */
  ghost predicate MembersDisjoint(m: Store)
  {
    forall n1, n2 | n1 in StoredTeamNames(m) && n2 in StoredTeamNames(m) && n1 != n2 ::
      DecodeMembers(m, n1) !! DecodeMembers(m, n2)
  }

  /** The record of a team after reset(). */
  function ResetRecord(rec: TeamRecord): TeamRecord
  {
    rec.(state := Waiting, completionTime := -1)
  }

  /** The records with every team outside `rest` reset. */
  function PartlyReset(recs: map<string, TeamRecord>, rest: set<string>): map<string, TeamRecord>
  {
    map n | n in recs :: if n in rest then recs[n] else ResetRecord(recs[n])
  }

  lemma PartlyResetNone(recs: map<string, TeamRecord>)
    ensures PartlyReset(recs, recs.Keys) == recs
  {
  }

  lemma PartlyResetStep(recs: map<string, TeamRecord>, rest: set<string>, n: string)
    requires n in rest && n in recs
    ensures PartlyReset(recs, rest)[n] == recs[n]
    ensures PartlyReset(recs, rest)[n := ResetRecord(recs[n])] == PartlyReset(recs, rest - {n})
  {
  }

  /** After resetAllTeams no team is completed, and each keeps its members and world names. */
  lemma ResetAllTeamsEffect(recs: map<string, TeamRecord>)
    ensures PartlyReset(recs, {}).Keys == recs.Keys
    ensures forall n | n in recs ::
      && PartlyReset(recs, {})[n].state == Waiting && PartlyReset(recs, {})[n].completionTime == -1
      && PartlyReset(recs, {})[n].members == recs[n].members && PartlyReset(recs, {})[n].worlds == recs[n].worlds
  {
  }

  /** Every record is persisted under its name, except perhaps the one for x. */
  predicate AllPersistedExcept(m: Store, recs: map<string, TeamRecord>, x: string)
  {
    forall n {:trigger Persisted(m, n, recs[n])} | n in recs && n != x :: Persisted(m, n, recs[n])
  }

  predicate AllPersisted(m: Store, recs: map<string, TeamRecord>)
  {
    forall n {:trigger Persisted(m, n, recs[n])} | n in recs :: Persisted(m, n, recs[n])
  }

  lemma AllPersistedDrop(m: Store, recs: map<string, TeamRecord>, x: string, rec: TeamRecord)
    requires AllPersisted(m, recs)
    ensures AllPersistedExcept(m, recs[x := rec], x)
  {
  }

  /** A write under teams.<x> keeps every other team's record persisted. */
  lemma AllPersistedAgree(m1: Store, m2: Store, recs: map<string, TeamRecord>, x: string)
    requires AgreeOutside(m1, m2, x) && AllPersistedExcept(m1, recs, x)
    ensures AllPersistedExcept(m2, recs, x)
  {
    forall n | n in recs && n != x ensures Persisted(m2, n, recs[n]) {
      AgreeOutsidePersisted(m1, m2, x, n, recs[n]);
    }
  }

  /** The world sets of the given teams that have one, by team name. */
  ghost function WorldSetsIn(ts: map<string, Team>): map<string, WorldSet>
    reads ts.Values`worldSet
  {
    map n | n in ts && ts[n].worldSet.Some? :: ts[n].worldSet.value
  }

  /** The world sets loadTeams rebuilds from the stored data with the given seed, by team. */
  function StoredWorldSets(m: Store, seed: int): (ws: map<string, WorldSet>)
    ensures ws.Keys <= StoredTeamNames(m)
    ensures forall n | n in ws :: ws[n].teamName == n && ws[n].seed == seed && Some(ws[n]) == WorldSetOf(n, DecodeWorlds(m, n), seed)
  {
    map n | n in StoredTeamNames(m) && DecodeWorlds(m, n).Some? :: WorldSetOf(n, DecodeWorlds(m, n), seed).value
  }

  /** The world sets of the teams loadTeams reads are those the store describes. */
  lemma LoadedRegistry(loaded: map<string, Team>, m: Store, seed: int)
    requires loaded.Keys == StoredTeamNames(m)
    requires forall n | n in loaded :: loaded[n].worldSet == WorldSetOf(n, DecodeWorlds(m, n), seed)
    ensures WorldSetsIn(loaded) == StoredWorldSets(m, seed)
  {
  }

  /** One more registration in loadTeams' loop. */
  lemma RegistryStep(base: map<string, WorldSet>, registry: map<string, WorldSet>, names: set<string>, n: string)
    requires n in names
    ensures (if n in registry then (base + (registry - names))[n := registry[n]] else base + (registry - names))
      == base + (registry - (names - {n}))
  {
    if n in registry {
      UnionUpdate(base, registry - names, n, registry[n]);
      MapMinusAdd(registry, names, n);
    } else {
      assert registry - names == registry - (names - {n});
    }
  }

  lemma WorldSetsInAt(ts: map<string, Team>, n: string)
    requires n in ts
    ensures n in WorldSetsIn(ts) <==> ts[n].worldSet.Some?
    ensures n in WorldSetsIn(ts) ==> WorldSetsIn(ts)[n] == ts[n].worldSet.value
  {
  }

  /** The team createTeam makes: no members, no world set, RUNNING or WAITING. */
  method NewTeam(name: string, running: bool) returns (team: Team)
    ensures fresh(team) && team.name == name && team.members == {} && team.worldSet == None
    ensures team.completionTime == -1 && team.state == (if running then Running else Waiting) && team.color == None
  {
    team := new Team(name);
    if running {
      team.SetState(Running);
    }
  }

  class TeamManager {
    const config: ConfigManager
    var teams: map<string, Team>
    var playerTeams: map<Uuid, string>

    constructor (config: ConfigManager)
      ensures this.config == config && teams == map[] && playerTeams == map[]
      ensures Valid()
    {
      this.config := config;
      teams := map[];
      playerTeams := map[];
    }

    /** What saveTeam would write for each team, by name. */
    ghost function Records(): map<string, TeamRecord>
      reads this`teams, teams.Values`members, teams.Values`worldSet, teams.Values`state, teams.Values`completionTime
    {
      map n | n in teams :: teams[n].Record()
    }

    /** Each team's member set, by name. */
    ghost function Membership(): map<string, set<Uuid>>
      reads this`teams, teams.Values`members
    {
      map n | n in teams :: teams[n].members
    }

    /** The manager's state as a roster value. */
    ghost function AbstractRoster(): Roster
      reads this, teams.Values
    {
      Roster(Membership(), playerTeams)
    }

    /** Every team is as saved under its name in the game data. */
    ghost predicate Synced()
      reads this`teams, teams.Values, config`gameData
    {
      AllPersisted(config.gameData, Records())
    }

    /** Teams are stored under their own names. */
    ghost predicate NamesMatch()
      reads this`teams, teams.Values
    {
      forall n | n in teams :: teams[n].name == n
    }

    /** The manager's invariant: teams are stored under their own names, the two maps agree,
        and every team is persisted. */
    ghost predicate Valid()
      reads this, teams.Values, config
    {
      && NamesMatch()
      && Consistent(AbstractRoster())
      && Synced()
    }

    /** A write outside the `teams` section (seed, state, start time) keeps every team
        persisted. */
    lemma SyncedAcross(m: Store)
      requires AllPersisted(m, Records()) && SameTeams(m, config.gameData)
      ensures Synced()
    {
      forall n | n in Records() ensures Persisted(config.gameData, n, Records()[n]) {
        SameTeamsPersisted(m, config.gameData, n, Records()[n]);
      }
    }

    /** Across a write outside the `teams` section (seed, state, start time) the invariant and
        every record are kept. */
    twostate lemma GlobalWriteKeeps()
      requires old(Valid()) && unchanged(this) && unchanged(teams.Values)
      requires SameTeams(old(config.gameData), config.gameData)
      ensures Valid() && Records() == old(Records()) && AbstractRoster() == old(AbstractRoster())
    {
      SyncedAcross(old(config.gameData));
    }

    /** Across changes that leave the manager, its teams and the game data alone, the invariant
        and every record are kept. */
    twostate lemma Untouched()
      requires unchanged(this) && unchanged(teams.Values) && unchanged(config)
      ensures old(Valid()) ==> Valid()
      ensures Records() == old(Records()) && AbstractRoster() == old(AbstractRoster())
    {
    }

    /** Every managed team is listed in the game data. */
    lemma StoredNamesCover(n: string)
      requires Synced() && n in teams
      ensures n in StoredTeamNames(config.gameData)
    {
      assert Persisted(config.gameData, n, Records()[n]);
    }

    lemma MembershipAt(n: string)
      requires n in teams
      ensures n in Membership() && Membership()[n] == teams[n].members
    {
    }

    /** saveTeam for a managed team whose record is the only one that may be stale. */
    method Save(n: string)
      requires n in teams && NamesMatch() && AllPersistedExcept(config.gameData, Records(), n)
      modifies config`gameData
      ensures Synced() && Records() == old(Records()) && Membership() == old(Membership())
      ensures StoredTeamNames(config.gameData) == StoredTeamNames(old(config.gameData)) + {n}
      ensures SameGlobals(old(config.gameData), config.gameData)
    {
      ghost var before := config.gameData;
      ghost var recs := Records();
      config.SaveTeam(teams[n]);
      assert recs == Records();
      AgreeOutsideGlobals(before, config.gameData, n);
      AllPersistedAgree(before, config.gameData, recs, n);
      assert Persisted(config.gameData, n, recs[n]);
    }

    /** The changes GameManager and this class make to one managed team: each changes that
        team's record and no other. */
    method AddMemberTo(team: Team, p: Uuid)
      requires team.name in teams && teams[team.name] == team && NamesMatch()
      modifies team`members
      ensures team.members == old(team.members) + {p}
      ensures Membership() == old(Membership())[team.name := team.members]
      ensures Records() == old(Records())[team.name := old(team.Record()).(members := team.members)]
    {
      ghost var ms, recs := Membership(), Records();
      var _ := team.AddMember(p);
      forall m | m in teams && m != team.name ensures teams[m] != team {
        assert teams[m].name == m;
      }
      assert Membership() == ms[team.name := team.members];
      assert Records() == recs[team.name := recs[team.name].(members := team.members)];
    }

    method RemoveMemberFrom(team: Team, p: Uuid)
      requires team.name in teams && teams[team.name] == team && NamesMatch()
      modifies team`members
      ensures team.members == old(team.members) - {p}
      ensures Membership() == old(Membership())[team.name := team.members]
      ensures Records() == old(Records())[team.name := old(team.Record()).(members := team.members)]
    {
      ghost var ms, recs := Membership(), Records();
      var _ := team.RemoveMember(p);
      forall m | m in teams && m != team.name ensures teams[m] != team {
        assert teams[m].name == m;
      }
      assert Membership() == ms[team.name := team.members];
      assert Records() == recs[team.name := recs[team.name].(members := team.members)];
    }

    method SetWorldSetOf(team: Team, ws: Option<WorldSet>)
      requires team.name in teams && teams[team.name] == team && NamesMatch()
      modifies team`worldSet
      ensures team.worldSet == ws && forall n | n in teams && n != team.name :: teams[n].worldSet == old(teams[n].worldSet)
      ensures Membership() == old(Membership())
      ensures Records() == old(Records())[team.name := old(team.Record()).(worlds := WorldNamesOf(ws))]
    {
      team.SetWorldSet(ws);
      assert team.Record() == old(team.Record()).(worlds := WorldNamesOf(ws));
      forall m | m in teams && m != team.name ensures teams[m] != team {
        assert teams[m].name == m;
      }
    }

    method SetProgressOf(team: Team, s: GameState, t: int)
      requires team.name in teams && teams[team.name] == team && NamesMatch()
      modifies team`state, team`completionTime
      ensures team.state == s && team.completionTime == t
      ensures Membership() == old(Membership())
      ensures Records() == old(Records())[team.name := old(team.Record()).(state := s, completionTime := t)]
    {
      team.SetState(s);
      team.SetCompletionTime(t);
      assert team.Record() == old(team.Record()).(state := s, completionTime := t);
      forall m | m in teams && m != team.name ensures teams[m] != team {
        assert teams[m].name == m;
      }
    }

    /** The player leaves one managed team, which is saved. */
    method LeaveTeam(team: Team, p: Uuid)
      requires team.name in teams && teams[team.name] == team && NamesMatch() && Synced()
      modifies team`members, config`gameData
      ensures NamesMatch() && Synced()
      ensures Membership() == old(Membership())[team.name := old(Membership()[team.name]) - {p}]
      ensures SameOutline(old(config.gameData), config.gameData)
    {
      StoredNamesCover(team.name);
      ghost var recs := Records();
      RemoveMemberFrom(team, p);
      AllPersistedDrop(config.gameData, recs, team.name, Records()[team.name]);
      Save(team.name);
    }

    /** Changes to playerTeams alone leave the teams and their saved data as they are. */
    method MapPlayer(p: Uuid, n: string)
      requires NamesMatch() && Synced()
      modifies this`playerTeams
      ensures playerTeams == old(playerTeams)[p := n]
      ensures NamesMatch() && Synced() && Membership() == old(Membership())
    {
      playerTeams := playerTeams[p := n];
    }

    method UnmapPlayer(p: Uuid)
      requires NamesMatch() && Synced()
      modifies this`playerTeams
      ensures playerTeams == old(playerTeams) - {p}
      ensures NamesMatch() && Synced() && Membership() == old(Membership())
    {
      playerTeams := playerTeams - {p};
    }

    /** removePlayer: false when the player has no team; otherwise the player leaves the team
        they are mapped to, which is saved, and is unmapped. */
    method RemovePlayer(p: Uuid) returns (ok: bool)
      requires Valid()
      modifies this`playerTeams, teams.Values`members, config`gameData
      ensures Valid()
      ensures (AbstractRoster(), ok) == Rosters.RemovePlayer(old(AbstractRoster()), p)
      ensures SameOutline(old(config.gameData), config.gameData)
    {
      ghost var r := AbstractRoster();
      if p !in playerTeams {
        return false;
      }
      var n := playerTeams[p];
      ghost var ms := if n in teams then r.teams[n := r.teams[n] - {p}] else r.teams;
      assert Rosters.RemovePlayer(r, p) == (Roster(ms, r.playerTeams - {p}), true);
      if n in teams {
        LeaveTeam(teams[n], p);
      }
      assert Membership() == ms;
      UnmapPlayer(p);
      RemovePlayerSound(r, p, config.settings.maxTeamMembers);
      ok := true;
    }

    /** isTeamFull: an unknown team counts as full; otherwise full when a positive limit is
        reached. */
    predicate IsTeamFull(name: string)
      reads this, teams.Values
    {
      name !in teams || Full(teams[name].MemberCount(), config.settings.maxTeamMembers)
    }

    /** addPlayer: false for an unknown team; true with no change when the player is already in
        it; otherwise the player leaves their current team, and joins this one (saved) unless it
        is full, in which case false is returned with the player left teamless. */
    method AddPlayer(p: Uuid, name: string) returns (ok: bool)
      requires Valid()
      modifies this`playerTeams, teams.Values`members, config`gameData
      ensures Valid() && unchanged(this`teams)
      ensures (AbstractRoster(), ok) == Rosters.AddPlayer(old(AbstractRoster()), p, name, config.settings.maxTeamMembers)
      ensures SameOutline(old(config.gameData), config.gameData)
    {
      ghost var r := AbstractRoster();
      var max := config.settings.maxTeamMembers;
      if name !in teams {
        return false;
      }
      var team := teams[name];
      if p in playerTeams {
        if playerTeams[p] == name {
          return true;
        }
        var _ := RemovePlayer(p);
      }
      ghost var r1 := Rosters.RemovePlayer(r, p).0;
      assert AbstractRoster() == r1;
      RemovePlayerSound(r, p, max);
      if max > 0 && team.MemberCount() >= max {
        assert Full(|r1.teams[name]|, max);
        return false;
      }
      JoinTeam(team, p);
      assert Rosters.AddPlayer(r, p, name, max) == (Roster(r1.teams[name := r1.teams[name] + {p}], r1.playerTeams[p := name]), true);
      InsertSound(r1, p, name, max);
      ok := true;
    }

    /** A teamless player joins one managed team, which is saved, and is mapped to it. */
    method JoinTeam(team: Team, p: Uuid)
      requires team.name in teams && teams[team.name] == team && NamesMatch() && Synced()
      modifies team`members, config`gameData, this`playerTeams
      ensures NamesMatch() && Synced()
      ensures Membership() == old(Membership())[team.name := old(Membership()[team.name]) + {p}]
      ensures playerTeams == old(playerTeams)[p := team.name]
      ensures SameOutline(old(config.gameData), config.gameData)
    {
      StoredNamesCover(team.name);
      ghost var ms := Membership();
      MapPlayer(p, team.name);
      ghost var recs := Records();
      AddMemberTo(team, p);
      ghost var ms' := Membership();
      assert ms' == ms[team.name := ms[team.name] + {p}];
      AllPersistedDrop(config.gameData, recs, team.name, Records()[team.name]);
      Save(team.name);
      assert Membership() == ms';
    }

    /** createTeam: null for an existing name; otherwise a new empty team (RUNNING when the game
        is running, WAITING otherwise) is registered, saved and, when there is a scoreboard
        manager, given the colour syncTeam picks for it. */
    method CreateTeam(name: string, gameState: GameState, scoreboard: ScoreboardTeamManager?) returns (team: Team?)
      requires Valid()
      requires scoreboard != null ==> scoreboard.config == config
      modifies this`teams, config`gameData, (if scoreboard == null then {} else {scoreboard})`colorIndex
      ensures Valid()
      ensures old(name in teams) ==>
        && team == null && teams == old(teams) && config.gameData == old(config.gameData)
        && (scoreboard != null ==> scoreboard.colorIndex == old(scoreboard.colorIndex))
      ensures old(name !in teams) ==>
        && team != null && fresh(team)
        && teams == old(teams)[name := team]
        && AbstractRoster() == Rosters.CreateTeam(old(AbstractRoster()), name)
        && team.name == name && team.members == {} && team.worldSet == None && team.completionTime == -1
        && team.state == (if gameState == Running then Running else Waiting)
        && team.color == (if scoreboard != null && scoreboard.teamColorsEnabled
                          then Some(NextColor(scoreboard.palette, old(UsedColors(teams.Values)), old(scoreboard.colorIndex)))
                          else None)
        && SameGlobals(old(config.gameData), config.gameData)
        && StoredTeamNames(config.gameData) == old(StoredTeamNames(config.gameData)) + {name}
    {
      if name in teams {
        return null;
      }
      ghost var r := AbstractRoster();
      team := AddNewTeam(name, gameState == Running, scoreboard);
      CreateTeamSound(r, name, config.settings.maxTeamMembers);
    }

    /** The new team registered, saved and given its colour, for a name not yet taken. */
    method AddNewTeam(name: string, running: bool, scoreboard: ScoreboardTeamManager?) returns (team: Team)
      requires name !in teams && NamesMatch() && Synced()
      requires scoreboard != null ==> scoreboard.config == config
      modifies this`teams, config`gameData, (if scoreboard == null then {} else {scoreboard})`colorIndex
      ensures NamesMatch() && Synced()
      ensures fresh(team) && teams == old(teams)[name := team] && Membership() == old(Membership())[name := {}]
      ensures team.name == name && team.members == {} && team.worldSet == None && team.completionTime == -1
      ensures team.state == (if running then Running else Waiting)
      ensures team.color == (if scoreboard != null && scoreboard.teamColorsEnabled
                             then Some(NextColor(scoreboard.palette, old(UsedColors(teams.Values)), old(scoreboard.colorIndex)))
                             else None)
      ensures SameGlobals(old(config.gameData), config.gameData)
      ensures StoredTeamNames(config.gameData) == old(StoredTeamNames(config.gameData)) + {name}
    {
      ghost var others := teams.Values;
      team := RegisterNew(name, running);
      UsedColorsAdd(others, team);
      if scoreboard != null {
        Colour(team, scoreboard);
      }
    }

    /** A new team (RUNNING or WAITING) registered under its name and saved. */
    method RegisterNew(name: string, running: bool) returns (team: Team)
      requires name !in teams && NamesMatch() && Synced()
      modifies this`teams, config`gameData
      ensures fresh(team) && teams == old(teams)[name := team] && teams.Values == old(teams.Values) + {team}
      ensures team.name == name && team.members == {} && team.worldSet == None && team.completionTime == -1
      ensures team.state == (if running then Running else Waiting) && team.color == None
      ensures NamesMatch() && Synced()
      ensures Membership() == old(Membership())[name := {}]
      ensures SameGlobals(old(config.gameData), config.gameData)
      ensures StoredTeamNames(config.gameData) == old(StoredTeamNames(config.gameData)) + {name}
    {
      team := NewTeam(name, running);
      Insert(team);
      Save(name);
    }

    /** Puts a team that is not yet managed under its name; only its own saved data is stale. */
    method Insert(team: Team)
      requires team.name !in teams && NamesMatch() && Synced()
      modifies this`teams
      ensures teams == old(teams)[team.name := team] && teams.Values == old(teams.Values) + {team}
      ensures NamesMatch() && AllPersistedExcept(config.gameData, Records(), team.name)
      ensures Membership() == old(Membership())[team.name := team.members]
    {
      ghost var recs := Records();
      ghost var ms := Membership();
      ValuesAdd(teams, team.name, team);
      teams := teams[team.name := team];
      assert Records() == recs[team.name := team.Record()];
      assert Membership() == ms[team.name := team.members];
      AllPersistedDrop(config.gameData, recs, team.name, team.Record());
    }

    /** syncTeam for a managed team: the colour and the save it makes leave the other teams'
        saved data as it was. */
    method Colour(team: Team, scoreboard: ScoreboardTeamManager)
      requires team.name in teams && teams[team.name] == team && NamesMatch() && Synced()
      requires scoreboard.config == config
      modifies team`color, config`gameData, scoreboard`colorIndex
      ensures NamesMatch() && Synced() && Membership() == old(Membership())
      ensures team.color == if scoreboard.teamColorsEnabled && old(team.color).None?
        then Some(NextColor(scoreboard.palette, old(UsedColors(teams.Values)), old(scoreboard.colorIndex)))
        else old(team.color)
      ensures SameOutline(old(config.gameData), config.gameData)
    {
      StoredNamesCover(team.name);
      ghost var before := config.gameData;
      ghost var recs := Records();
      scoreboard.SyncTeam(team, teams.Values);
      assert Records() == recs;
      if before != config.gameData {
        AllPersistedAgree(before, config.gameData, recs, team.name);
        AgreeOutsideGlobals(before, config.gameData, team.name);
      }
    }

    /** deleteTeam, with the world-set collaborator's answers as inputs: false and no change for
        an unknown team, or when its world set may not or could not be deleted; otherwise the
        members are unmapped, the team removed and its saved data deleted. */
    method DeleteTeam(name: string, worldSetDeletable: bool, worldSetDeleted: bool) returns (ok: bool)
      requires Valid()
      modifies this`teams, this`playerTeams, config`gameData
      ensures Valid()
      ensures ok <==> old(name in teams && (teams[name].worldSet.None? || (worldSetDeletable && worldSetDeleted)))
      ensures !ok ==> teams == old(teams) && playerTeams == old(playerTeams) && config.gameData == old(config.gameData)
      ensures ok ==>
        && teams == old(teams) - {name}
        && AbstractRoster() == Rosters.DeleteTeam(old(AbstractRoster()), name)
        && SameGlobals(old(config.gameData), config.gameData)
        && StoredTeamNames(config.gameData) == old(StoredTeamNames(config.gameData)) - {name}
    {
      if name !in teams {
        return false;
      }
      var team := teams[name];
      if team.worldSet.Some? {
        if !worldSetDeletable {
          return false;
        }
        if !worldSetDeleted {
          return false;
        }
      }
      ghost var r := AbstractRoster();
      UnmapMembers(team);
      Unregister(name);
      DeleteTeamSound(r, name, config.settings.maxTeamMembers);
      ok := true;
    }

    /** The loop of deleteTeam over the team's members. */
    method UnmapMembers(team: Team)
      requires NamesMatch() && Synced()
      modifies this`playerTeams
      ensures playerTeams == old(playerTeams) - team.members
      ensures NamesMatch() && Synced() && Membership() == old(Membership())
    {
      var rest := team.members;
      while rest != {}
        invariant rest <= team.members
        invariant playerTeams == old(playerTeams) - (team.members - rest)
        decreases |rest|
      {
        var m :| m in rest;
        playerTeams := playerTeams - {m};
        rest := rest - {m};
      }
    }

    /** The team is dropped from the map and its saved data deleted. */
    method Unregister(name: string)
      requires name in teams && NamesMatch() && Synced()
      modifies this`teams, config`gameData
      ensures teams == old(teams) - {name}
      ensures NamesMatch() && Synced() && name !in StoredTeamNames(config.gameData)
      ensures Membership() == old(Membership()) - {name}
      ensures SameGlobals(old(config.gameData), config.gameData)
      ensures StoredTeamNames(config.gameData) == old(StoredTeamNames(config.gameData)) - {name}
    {
      Drop(name);
      DeleteSaved(name);
    }

    /** deleteTeam of the config manager for a team no longer managed. */
    method DeleteSaved(name: string)
      requires name !in Records() && AllPersistedExcept(config.gameData, Records(), name)
      modifies config`gameData
      ensures Synced() && name !in StoredTeamNames(config.gameData)
      ensures Records() == old(Records()) && Membership() == old(Membership())
      ensures SameGlobals(old(config.gameData), config.gameData)
      ensures StoredTeamNames(config.gameData) == old(StoredTeamNames(config.gameData)) - {name}
    {
      ghost var before := config.gameData;
      ghost var recs := Records();
      ghost var ms := Membership();
      config.DeleteTeam(name);
      assert Records() == recs && Membership() == ms;
      AllPersistedAgree(before, config.gameData, recs, name);
      AgreeOutsideGlobals(before, config.gameData, name);
      AgreeOutsideNames(before, config.gameData, name);
    }

    /** The team is dropped from the map; no remaining record is stale. */
    method Drop(name: string)
      requires name in teams && NamesMatch() && Synced()
      modifies this`teams
      ensures teams == old(teams) - {name} && name !in Records()
      ensures NamesMatch() && AllPersistedExcept(config.gameData, Records(), name)
      ensures Membership() == old(Membership()) - {name}
    {
      ghost var recs := Records();
      ghost var ms := Membership();
      teams := teams - {name};
      assert Records() == recs - {name};
      assert Membership() == ms - {name};
    }

    /** getTeamWithFewestMembers, given the iteration order of the teams. */
    method GetTeamWithFewestMembers(order: seq<string>) returns (team: Team?)
      requires Enumerates(order, teams.Keys)
      ensures var k := Fewest(Counts(Membership(), order), config.settings.maxTeamMembers);
        && (team == null <==> k.None?)
        && (k.Some? ==> team == teams[order[k.value]])
    {
      var counts := Counts(Membership(), order);
      if |teams| == 0 {
        EnumerationLength(order, teams.Keys);
        return null;
      }
      var max := config.settings.maxTeamMembers;
      team := null;
      var fewestCount := 0;
      ghost var best: Option<nat> := None;
      for i := 0 to |order|
        invariant best == Fewest(counts[..i], max)
        invariant team == null <==> best.None?
        invariant best.Some? ==> best.value < i && team == teams[order[best.value]] && fewestCount == counts[best.value]
      {
        FewestStep(counts, i, max);
        var count := teams[order[i]].MemberCount();
        assert count == counts[i];
        if !(max > 0 && count >= max) && (team == null || count < fewestCount) {
          fewestCount := count;
          team := teams[order[i]];
          best := Some(i);
        }
      }
      assert counts[..|order|] == counts;
    }

    /** hasTeam. */
    predicate HasTeam(p: Uuid)
      reads this
    {
      p in playerTeams
    }

    /** getPlayerTeam: under the invariant, a team exactly when the player has one, and then a
        team the player belongs to. */
    function GetPlayerTeam(p: Uuid): (t: Team?)
      reads this, teams.Values, config
      ensures Valid() ==> (t != null <==> HasTeam(p))
      ensures Valid() && t != null ==> t.name == playerTeams[p] && p in t.members
    {
      if p in playerTeams && playerTeams[p] in teams then teams[playerTeams[p]] else null
    }

    /** The step autoAssignPlayer and randomAssignAllPlayers share: the team with the fewest
        members is looked up and, if there is one, the player is added to it; the team is
        returned exactly when the addition succeeded. `placed` is the record of placements
        so far, as in AssignOne. */
    method PlaceInFewest(p: Uuid, order: seq<string>, ghost placed: map<Uuid, string>) returns (team: Team?)
      requires Valid() && Enumerates(order, teams.Keys)
      modifies this`playerTeams, teams.Values`members, config`gameData
      ensures Valid() && unchanged(this`teams)
      ensures team != null ==> team.name in teams && teams[team.name] == team
      ensures (AbstractRoster(), if team == null then placed else placed[p := team.name])
        == AssignOne(old(AbstractRoster()), placed, p, order, config.settings.maxTeamMembers)
      ensures SameOutline(old(config.gameData), config.gameData)
    {
      ghost var r := AbstractRoster();
      ghost var k := Fewest(Counts(r.teams, order), config.settings.maxTeamMembers);
      var candidate := GetTeamWithFewestMembers(order);
      assert AbstractRoster() == r;
      if candidate == null {
        AssignOneNone(r, placed, p, order, config.settings.maxTeamMembers);
        return null;
      }
      assert candidate.name == order[k.value];
      var ok := AddPlayer(p, candidate.name);
      AssignOneChosen(r, placed, p, order, config.settings.maxTeamMembers, candidate.name, AbstractRoster(), ok);
      team := if ok then candidate else null;
    }

    /** autoAssignPlayer: the current team if the player has one; null when assignment is
        restricted to WAITING and the persisted state is another; otherwise one AssignOne step,
        returning the team joined, if any. */
    method AutoAssignPlayer(p: Uuid, order: seq<string>) returns (team: Team?)
      requires Valid() && Enumerates(order, teams.Keys)
      modifies this`playerTeams, teams.Values`members, config`gameData
      ensures Valid()
      ensures old(p in playerTeams) ==>
        team != null && team == old(GetPlayerTeam(p)) && AbstractRoster() == old(AbstractRoster())
      ensures old(p !in playerTeams) && config.settings.autoAssignOnlyWhenWaiting && old(GlobalState(config.gameData)) != Waiting ==>
        team == null && AbstractRoster() == old(AbstractRoster()) && config.gameData == old(config.gameData)
      ensures old(p !in playerTeams) && !(config.settings.autoAssignOnlyWhenWaiting && old(GlobalState(config.gameData)) != Waiting) ==>
        (AbstractRoster(), if team == null then map[] else map[p := team.name])
          == AssignOne(old(AbstractRoster()), map[], p, order, config.settings.maxTeamMembers)
      ensures SameOutline(old(config.gameData), config.gameData)
    {
      var current := GetPlayerTeam(p);
      if current != null {
        return current;
      }
      if config.settings.autoAssignOnlyWhenWaiting {
        var globalState := GlobalState(config.gameData);
        if globalState != Waiting {
          return null;
        }
      }
      team := PlaceInFewest(p, order, map[]);
    }

    /** The players randomAssignAllPlayers considers: online, without the bypass permission and
        in no team. */
    function Eligible(online: set<Uuid>, bypass: set<Uuid>): set<Uuid>
      reads this
    {
      set p | p in online && p !in bypass && p !in playerTeams
    }

    /** randomAssignAllPlayers, given the shuffled eligible players and the iteration order of the
        teams: each player in turn joins the team then fewest in members (AssignAll); the players
        placed are returned with their teams, and nobody else moves. */
    method RandomAssignAllPlayers(online: set<Uuid>, bypass: set<Uuid>, shuffled: seq<Uuid>, order: seq<string>)
      returns (placed: map<Uuid, string>)
      requires Valid() && Enumerates(order, teams.Keys)
      requires Enumerates(shuffled, Eligible(online, bypass))
      modifies this`playerTeams, teams.Values`members, config`gameData
      ensures Valid()
      ensures (AbstractRoster(), placed) == AssignAll(old(AbstractRoster()), shuffled, order, config.settings.maxTeamMembers)
      ensures placed.Keys <= old(Eligible(online, bypass)) && playerTeams == old(playerTeams) + placed
      ensures SameOutline(old(config.gameData), config.gameData)
    {
      ghost var r := AbstractRoster();
      var max := config.settings.maxTeamMembers;
      placed := map[];
      if |shuffled| == 0 || |teams| == 0 {
        if |teams| == 0 {
          EnumerationLength(order, teams.Keys);
          AssignAllWithoutTeams(r, shuffled, order, max);
        }
        return;
      }
      placed := AssignEach(shuffled, order);
      assert forall j | 0 <= j < |shuffled| :: shuffled[j] !in r.playerTeams;
      AssignAllSound(r, shuffled, order, max);
    }

    /** The loop of randomAssignAllPlayers: PlaceInFewest for each player in turn. */
    method AssignEach(players: seq<Uuid>, order: seq<string>) returns (placed: map<Uuid, string>)
      requires Valid() && Enumerates(order, teams.Keys)
      modifies this`playerTeams, teams.Values`members, config`gameData
      ensures Valid()
      ensures (AbstractRoster(), placed) == AssignAll(old(AbstractRoster()), players, order, config.settings.maxTeamMembers)
      ensures SameOutline(old(config.gameData), config.gameData)
    {
      ghost var r := AbstractRoster();
      var max := config.settings.maxTeamMembers;
      placed := map[];
      for i := 0 to |players|
        invariant Valid() && unchanged(this`teams)
        invariant SameOutline(old(config.gameData), config.gameData)
        invariant (AbstractRoster(), placed) == AssignAll(r, players[..i], order, max)
      {
        AssignAllStep(r, players, i, order, max);
        var team := PlaceInFewest(players[i], order, placed);
        if team != null {
          placed := placed[players[i] := team.name];
        }
      }
      assert players[..|players|] == players;
    }

    /** setTeamWorldSet: false for an unknown team; otherwise the world set is set and saved. */
    method SetTeamWorldSet(name: string, ws: Option<WorldSet>) returns (ok: bool)
      requires Valid()
      modifies teams.Values`worldSet, config`gameData
      ensures Valid() && AbstractRoster() == old(AbstractRoster())
      ensures ok <==> name in teams
      ensures !ok ==> config.gameData == old(config.gameData)
      ensures SameOutline(old(config.gameData), config.gameData)
      ensures ok ==>
        && teams[name].worldSet == ws
        && (forall n | n in teams && n != name :: teams[n].worldSet == old(teams[n].worldSet))
        && Records() == old(Records())[name := old(Records()[name]).(worlds := WorldNamesOf(ws))]
    {
      if name !in teams {
        return false;
      }
      SaveWorldSet(teams[name], ws);
      ok := true;
    }

    /** A managed team's world set changed and saved. */
    method SaveWorldSet(team: Team, ws: Option<WorldSet>)
      requires team.name in teams && teams[team.name] == team && NamesMatch() && Synced()
      modifies team`worldSet, config`gameData
      ensures NamesMatch() && Synced() && Membership() == old(Membership())
      ensures team.worldSet == ws && forall n | n in teams && n != team.name :: teams[n].worldSet == old(teams[n].worldSet)
      ensures Records() == old(Records())[team.name := old(team.Record()).(worlds := WorldNamesOf(ws))]
      ensures SameOutline(old(config.gameData), config.gameData)
    {
      StoredNamesCover(team.name);
      ghost var recs := Records();
      SetWorldSetOf(team, ws);
      AllPersistedDrop(config.gameData, recs, team.name, Records()[team.name]);
      Save(team.name);
    }

    /** A managed team's state and completion time set and saved, as GameManager does when a
        race starts and when a team finishes. */
    method SetTeamProgress(team: Team, s: GameState, t: int)
      requires Valid() && team.name in teams && teams[team.name] == team
      modifies team`state, team`completionTime, config`gameData
      ensures Valid() && AbstractRoster() == old(AbstractRoster())
      ensures team.state == s && team.completionTime == t
      ensures Records() == old(Records())[team.name := old(team.Record()).(state := s, completionTime := t)]
      ensures SameOutline(old(config.gameData), config.gameData)
    {
      SaveProgress(team, s, t);
    }

    method SaveProgress(team: Team, s: GameState, t: int)
      requires team.name in teams && teams[team.name] == team && NamesMatch() && Synced()
      modifies team`state, team`completionTime, config`gameData
      ensures NamesMatch() && Synced() && Membership() == old(Membership())
      ensures team.state == s && team.completionTime == t
      ensures Records() == old(Records())[team.name := old(team.Record()).(state := s, completionTime := t)]
      ensures SameOutline(old(config.gameData), config.gameData)
    {
      StoredNamesCover(team.name);
      ghost var recs := Records();
      SetProgressOf(team, s, t);
      AllPersistedDrop(config.gameData, recs, team.name, Records()[team.name]);
      Save(team.name);
    }

    /** resetAllTeams: every team is WAITING with completion time -1, everything else kept, and
        saved. */
    method ResetAllTeams()
      requires Valid()
      modifies teams.Values`state, teams.Values`completionTime, config`gameData
      ensures Valid() && AbstractRoster() == old(AbstractRoster())
      ensures Records() == PartlyReset(old(Records()), {})
      ensures SameOutline(old(config.gameData), config.gameData)
    {
      ghost var recs := Records();
      var rest := teams.Keys;
      PartlyResetNone(recs);
      while rest != {}
        invariant rest <= teams.Keys
        invariant Valid() && AbstractRoster() == old(AbstractRoster())
        invariant Records() == PartlyReset(recs, rest)
        invariant SameOutline(old(config.gameData), config.gameData)
        decreases |rest|
      {
        var n :| n in rest;
        PartlyResetStep(recs, rest, n);
        SetTeamProgress(teams[n], Waiting, -1);
        rest := rest - {n};
      }
    }


    /** clearAll. */
    method ClearAll()
      modifies this`teams, this`playerTeams
      ensures teams == map[] && playerTeams == map[] && Valid()
    {
      teams := map[];
      playerTeams := map[];
    }

    /** loadTeams: the teams become those stored (read with the stored seed), each member is
        mapped to a team that holds them, and every world set is registered. With stored member
        sets that do not overlap, the invariant holds afterwards. */
    method LoadTeams(worlds: WorldSetManager)
      modifies this`teams, this`playerTeams, worlds`worldSets
      ensures teams.Keys == StoredTeamNames(config.gameData)
      ensures forall n | n in teams ::
        && fresh(teams[n]) && teams[n].name == n && teams[n].color == None
        && teams[n].Record() == DecodeTeam(config.gameData, n)
        && teams[n].worldSet == WorldSetOf(n, DecodeWorlds(config.gameData, n), CurrentSeed(config.gameData))
      ensures Covered(AbstractRoster())
      ensures worlds.worldSets == old(worlds.worldSets) + StoredWorldSets(config.gameData, CurrentSeed(config.gameData))
      ensures MembersDisjoint(config.gameData) ==> Valid()
    {
      var seed := CurrentSeed(config.gameData);
      var loaded := config.LoadTeams(seed);
      Install(loaded, worlds, seed);
    }

    /** The part of loadTeams after the teams are read: both maps are cleared and rebuilt. */
    method Install(loaded: map<string, Team>, worlds: WorldSetManager, ghost seed: int)
      requires loaded.Keys == StoredTeamNames(config.gameData)
      requires forall n | n in loaded :: config.ReadBack(loaded[n], n, seed)
      modifies this`teams, this`playerTeams, worlds`worldSets
      ensures teams == loaded && Covered(AbstractRoster())
      ensures worlds.worldSets == old(worlds.worldSets) + StoredWorldSets(config.gameData, seed)
      ensures MembersDisjoint(config.gameData) ==> Valid()
    {
      teams := map[];
      playerTeams := map[];
      LoadedRegistry(loaded, config.gameData, seed);
      Rebuild(loaded, worlds);
      if MembersDisjoint(config.gameData) {
        LoadedIsValid();
      }
    }

    /** The loop of loadTeams: each loaded team is put under its name, its members are mapped to
        it and its world set, if any, is registered. */
    method Rebuild(loaded: map<string, Team>, worlds: WorldSetManager)
      requires teams == map[] && playerTeams == map[]
      requires forall n | n in loaded :: loaded[n].name == n
      requires forall n | n in loaded && loaded[n].worldSet.Some? :: loaded[n].worldSet.value.teamName == n
      modifies this`teams, this`playerTeams, worlds`worldSets
      ensures teams == loaded && Covered(AbstractRoster())
      ensures worlds.worldSets == old(worlds.worldSets) + old(WorldSetsIn(loaded))
    {
      var names := loaded.Keys;
      ghost var registry := WorldSetsIn(loaded);
      ghost var base := worlds.worldSets;
      RebuildStart(loaded, worlds);
      while names != {}
        invariant names <= loaded.Keys
        invariant registry == WorldSetsIn(loaded)
        invariant RebuildInv(loaded, worlds, names, registry, base)
        decreases |names|
      {
        var n :| n in names;
        LoadStep(loaded, worlds, names, n, registry, base);
        names := names - {n};
      }
      RebuildDone(loaded, worlds, registry, base);
    }

    lemma RebuildStart(loaded: map<string, Team>, worlds: WorldSetManager)
      requires teams == map[] && playerTeams == map[]
      ensures RebuildInv(loaded, worlds, loaded.Keys, WorldSetsIn(loaded), worlds.worldSets)
    {
      assert loaded - loaded.Keys == map[];
      assert WorldSetsIn(loaded) - loaded.Keys == map[];
      assert worlds.worldSets + map[] == worlds.worldSets;
    }

    lemma RebuildDone(loaded: map<string, Team>, worlds: WorldSetManager, registry: map<string, WorldSet>, base: map<string, WorldSet>)
      requires RebuildInv(loaded, worlds, {}, registry, base)
      ensures teams == loaded && Covered(AbstractRoster()) && worlds.worldSets == base + registry
    {
      assert loaded - {} == loaded && registry - {} == registry;
    }

    /** What loadTeams' loop keeps: the teams read so far are in place and covered, and their
        world sets registered. */
    ghost predicate RebuildInv(loaded: map<string, Team>, worlds: WorldSetManager, names: set<string>,
                               registry: map<string, WorldSet>, base: map<string, WorldSet>)
      reads this, teams.Values, worlds
    {
      && teams == loaded - names
      && Covered(AbstractRoster())
      && worlds.worldSets == base + (registry - names)
    }

    /** A turn of loadTeams' loop. */
    method LoadStep(loaded: map<string, Team>, worlds: WorldSetManager, names: set<string>, n: string,
                    ghost registry: map<string, WorldSet>, ghost base: map<string, WorldSet>)
      requires n in names && names <= loaded.Keys && loaded[n].name == n
      requires loaded[n].worldSet.Some? ==> loaded[n].worldSet.value.teamName == n
      requires RebuildInv(loaded, worlds, names, registry, base)
      requires registry == WorldSetsIn(loaded)
      modifies this`teams, this`playerTeams, worlds`worldSets
      ensures RebuildInv(loaded, worlds, names - {n}, registry, base)
    {
      ghost var r := AbstractRoster();
      WorldSetsInAt(loaded, n);
      LoadOne(loaded[n], worlds);
      CoveredAdd(r, n, loaded[n].members);
      RegistryStep(base, registry, names, n);
      MapMinusAdd(loaded, names, n);
    }

    /** One turn of loadTeams' loop. */
    method LoadOne(team: Team, worlds: WorldSetManager)
      requires team.name !in teams
      requires team.worldSet.Some? ==> team.worldSet.value.teamName == team.name
      modifies this`teams, this`playerTeams, worlds`worldSets
      ensures teams == old(teams)[team.name := team]
      ensures AbstractRoster() == Roster(old(Membership())[team.name := team.members], old(playerTeams) + MapAll(team.members, team.name))
      ensures worlds.worldSets == if team.worldSet.Some? then old(worlds.worldSets)[team.name := team.worldSet.value] else old(worlds.worldSets)
    {
      ghost var ms := Membership();
      teams := teams[team.name := team];
      assert Membership() == ms[team.name := team.members];
      ghost var ms1 := Membership();
      MapMembers(team);
      if team.worldSet.Some? {
        worlds.RegisterWorldSet(team.worldSet.value);
      }
      assert Membership() == ms1;
    }

    /** The inner loop of loadTeams: every member of the team is mapped to it. */
    method MapMembers(team: Team)
      modifies this`playerTeams
      ensures playerTeams == old(playerTeams) + MapAll(team.members, team.name)
    {
      var rest := team.members;
      while rest != {}
        invariant rest <= team.members
        invariant playerTeams == old(playerTeams) + MapAll(team.members - rest, team.name)
        decreases |rest|
      {
        var q :| q in rest;
        ghost var done := team.members - rest;
        playerTeams := playerTeams[q := team.name];
        rest := rest - {q};
        assert team.members - rest == done + {q};
        MapAllAdd(done, q, team.name);
        UnionUpdate(old(playerTeams), MapAll(done, team.name), q, team.name);
      }
      assert team.members - rest == team.members;
    }

    /** Maps rebuilt from stored teams that do not overlap form a valid manager. */
    lemma LoadedIsValid()
      requires MembersDisjoint(config.gameData)
      requires teams.Keys == StoredTeamNames(config.gameData)
      requires forall n | n in teams :: teams[n].name == n && teams[n].Record() == DecodeTeam(config.gameData, n)
      requires Covered(AbstractRoster())
      ensures Valid()
    {
      var r := AbstractRoster();
      forall n1, n2 | n1 in r.teams && n2 in r.teams && n1 != n2
        ensures r.teams[n1] !! r.teams[n2]
      {
        assert r.teams[n1] == DecodeMembers(config.gameData, n1) && r.teams[n2] == DecodeMembers(config.gameData, n2);
      }
      CoveredDisjointConsistent(r);
      var recs := Records();
      forall n | n in recs ensures Persisted(config.gameData, n, recs[n]) {
        assert recs[n] == DecodeTeam(config.gameData, n);
      }
    }

    /** What a valid manager saved for exactly its own teams loads back without overlaps, so
        loadTeams restores a valid manager. */
    lemma SavedTeamsDisjoint()
      requires Valid() && StoredTeamNames(config.gameData) == teams.Keys
      ensures MembersDisjoint(config.gameData)
    {
      var r := AbstractRoster();
      var recs := Records();
      forall n1, n2 | n1 in StoredTeamNames(config.gameData) && n2 in StoredTeamNames(config.gameData) && n1 != n2
        ensures DecodeMembers(config.gameData, n1) !! DecodeMembers(config.gameData, n2)
      {
        assert Persisted(config.gameData, n1, recs[n1]) && Persisted(config.gameData, n2, recs[n2]);
        TeamsDisjoint(r, n1, n2);
      }
    }
  }
}
