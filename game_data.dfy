/** The persisted game data (the game-data.yml document behind config/ConfigManager.java) as a
    key-value map, and the readers and writers ConfigManager applies to it. */
module GameData {
  import opened Wrappers
  import opened GameStates
  import opened Players

  /** The leaves under `teams.<name>`. */
  datatype TeamField = MembersField | OverworldField | NetherField | EndField | StateField | CompletionTimeField

  /** Every path the plugin reads or writes: `current-seed`, `game-state`, `game-start-time`,
      and `teams.<name>.members`, `.world-set.overworld`, `.world-set.nether`,
      `.world-set.end`, `.state`, `.completion-time`. */
  datatype Key = CurrentSeedKey | GameStateKey | GameStartTimeKey | TeamKey(team: string, field: TeamField)

  /** The three kinds of value stored: a number, a string and a list of strings. */
  datatype Value = Long(n: int) | Str(s: string) | StrList(items: seq<string>)

  type Store = map<Key, Value>

  /** getLong(path, def): the stored number, or `def` when nothing (or no number) is stored. */
  function GetLong(m: Store, k: Key, def: int): int
  {
    if k in m && m[k].Long? then m[k].n else def
  }

  /** getString(path, def). */
  function GetString(m: Store, k: Key, def: string): string
  {
    if k in m && m[k].Str? then m[k].s else def
  }

  /** getStringList(path): the stored list, or the empty list. */
  function GetStringList(m: Store, k: Key): seq<string>
  {
    if k in m && m[k].StrList? then m[k].items else []
  }

  // ---------- seed ----------

  /** getCurrentSeed: 0 when unset. */
  function CurrentSeed(m: Store): int
  {
    GetLong(m, CurrentSeedKey, 0)
  }

  /** hasSeed: the key is present and the seed is not 0. */
  predicate HasSeed(m: Store)
  {
    CurrentSeedKey in m && CurrentSeed(m) != 0
  }

  /** setCurrentSeed. */
  function WithSeed(m: Store, seed: int): Store
  {
    m[CurrentSeedKey := Long(seed)]
  }

  /** A stored seed reads back; seed 0 counts as no seed; no other key is touched. */
  lemma SeedRoundTrip(m: Store, seed: int)
    ensures CurrentSeed(WithSeed(m, seed)) == seed
    ensures HasSeed(WithSeed(m, seed)) <==> seed != 0
    ensures forall k | k != CurrentSeedKey :: (k in WithSeed(m, seed) <==> k in m) && (k in m ==> WithSeed(m, seed)[k] == m[k])
  {
  }

  /** Without the key there is no seed, and the seed reads as 0. */
  lemma NoSeedKey(m: Store)
    requires CurrentSeedKey !in m
    ensures !HasSeed(m) && CurrentSeed(m) == 0
  {
  }

  // ---------- global game state ----------

  /** getGlobalGameState: the stored name parsed, WAITING when missing or not a state name. */
  function GlobalState(m: Store): GameState
  {
    ParseOrWaiting(GetString(m, GameStateKey, "WAITING"))
  }

  /** setGlobalGameState: the state's name is stored. */
  function WithGlobalState(m: Store, g: GameState): Store
  {
    m[GameStateKey := Str(Name(g))]
  }

  /** A state that was set reads back. */
  lemma GlobalStateRoundTrip(m: Store, g: GameState)
    ensures GlobalState(WithGlobalState(m, g)) == g
  {
    ValueOfName(g);
  }

  /** A missing or unparsable stored state reads as WAITING; a parsable one reads as itself. */
  lemma GlobalStateFallback(m: Store)
    ensures GameStateKey !in m ==> GlobalState(m) == Waiting
    ensures GameStateKey in m && m[GameStateKey].Str? && ValueOf(m[GameStateKey].s).None? ==> GlobalState(m) == Waiting
    ensures GameStateKey in m && m[GameStateKey].Str? && ValueOf(m[GameStateKey].s).Some? ==> GlobalState(m) == ValueOf(m[GameStateKey].s).value
  {
  }

  // ---------- game start time ----------

  /** getGameStartTime: 0 when unset. */
  function StartTime(m: Store): int
  {
    GetLong(m, GameStartTimeKey, 0)
  }

  /** setGameStartTime: a value <= 0 removes the key, any other value is stored. */
  function WithStartTime(m: Store, t: int): Store
  {
    if t <= 0 then m - {GameStartTimeKey} else m[GameStartTimeKey := Long(t)]
  }

  /** A positive start time reads back; a non-positive one is cleared and reads as 0; the key is
      present exactly for a positive time; nothing else is touched. */
  lemma StartTimeRoundTrip(m: Store, t: int)
    ensures StartTime(WithStartTime(m, t)) == if t <= 0 then 0 else t
    ensures GameStartTimeKey in WithStartTime(m, t) <==> t > 0
    ensures forall k | k != GameStartTimeKey :: (k in WithStartTime(m, t) <==> k in m) && (k in m ==> WithStartTime(m, t)[k] == m[k])
  {
  }

  // ---------- teams ----------

  /** The three world names saved under `teams.<name>.world-set`. */
  datatype WorldNames = WorldNames(overworld: string, nether: string, end: string)

  /** What loadTeams rebuilds of one team: members, world names, state and completion time
      (the colour is never written). */
  datatype TeamRecord = TeamRecord(members: set<Uuid>, worlds: Option<WorldNames>, state: GameState, completionTime: int)

  /** saveTeam: the member strings, the world names when the team has a world set (earlier ones
      stay otherwise), the state's name and the completion time. */
  function WithTeam(m: Store, name: string, memberStrings: seq<string>, worlds: Option<WorldNames>, state: GameState, completionTime: int): Store
  {
    var m1 := m[TeamKey(name, MembersField) := StrList(memberStrings)];
    var m2 := if worlds.Some? then
                m1[TeamKey(name, OverworldField) := Str(worlds.value.overworld)]
                  [TeamKey(name, NetherField) := Str(worlds.value.nether)]
                  [TeamKey(name, EndField) := Str(worlds.value.end)]
              else m1;
    m2[TeamKey(name, StateField) := Str(Name(state))][TeamKey(name, CompletionTimeField) := Long(completionTime)]
  }

  /** deleteTeam: the whole `teams.<name>` subtree goes. */
  function WithoutTeam(m: Store, name: string): Store
  {
    map k | k in m && !(k.TeamKey? && k.team == name) :: m[k]
  }

  /** clearAllGameData: no seed, no start time, no teams, and the state set to "WAITING". */
  function Cleared(m: Store): Store
  {
    (map k | k in m && !k.TeamKey? && k != CurrentSeedKey && k != GameStartTimeKey :: m[k])[GameStateKey := Str("WAITING")]
  }

  /** The keys of the `teams` section. */
  function StoredTeamNames(m: Store): set<string>
  {
    set k | k in m && k.TeamKey? :: k.team
  }

  /** The members loadTeams keeps: the stored strings that parse as UUIDs. */
  function DecodeMembers(m: Store, name: string): set<Uuid>
  {
    var items := GetStringList(m, TeamKey(name, MembersField));
    set x: Uuid | x in items
  }

  /** The world names loadTeams reads: present exactly when the overworld key is; a missing
      nether or end name reads as the empty string, where Bukkit gives null. */
  function DecodeWorlds(m: Store, name: string): Option<WorldNames>
  {
    if TeamKey(name, OverworldField) in m then
      Some(WorldNames(GetString(m, TeamKey(name, OverworldField), ""), GetString(m, TeamKey(name, NetherField), ""),
                      GetString(m, TeamKey(name, EndField), "")))
    else None
  }

  /** The state loadTeams reads: WAITING when missing or unparsable. */
  function DecodeState(m: Store, name: string): GameState
  {
    ParseOrWaiting(GetString(m, TeamKey(name, StateField), "WAITING"))
  }

  /** The completion time loadTeams reads: -1 when missing. */
  function DecodeCompletionTime(m: Store, name: string): int
  {
    GetLong(m, TeamKey(name, CompletionTimeField), -1)
  }

  function DecodeTeam(m: Store, name: string): TeamRecord
  {
    TeamRecord(DecodeMembers(m, name), DecodeWorlds(m, name), DecodeState(m, name), DecodeCompletionTime(m, name))
  }

  /** The stored data holds team `name` as `r`: loading it back gives r's members, state and
      completion time, and r's world names when r has any. */
  predicate Persisted(m: Store, name: string, r: TeamRecord)
  {
    && name in StoredTeamNames(m)
    && DecodeMembers(m, name) == r.members
    && DecodeState(m, name) == r.state
    && DecodeCompletionTime(m, name) == r.completionTime
    && (r.worlds.Some? ==> DecodeWorlds(m, name) == r.worlds)
  }

  /** Two stores that differ at most under `teams.<name>`. */
  ghost predicate AgreeOutside(m1: Store, m2: Store, name: string)
  {
    forall k: Key | !(k.TeamKey? && k.team == name) :: (k in m1 <==> k in m2) && (k in m1 ==> m1[k] == m2[k])
  }

  /** Only team `name` reads differently from stores that agree outside `name`, and the seed,
      state and start time read the same. */
  lemma AgreeOutsideDecode(m1: Store, m2: Store, name: string, other: string)
    requires AgreeOutside(m1, m2, name) && other != name
    ensures DecodeTeam(m1, other) == DecodeTeam(m2, other)
    ensures (other in StoredTeamNames(m1)) <==> (other in StoredTeamNames(m2))
    ensures CurrentSeed(m1) == CurrentSeed(m2) && HasSeed(m1) == HasSeed(m2)
    ensures GlobalState(m1) == GlobalState(m2) && StartTime(m1) == StartTime(m2)
  {
    assert forall f: TeamField :: (TeamKey(other, f) in m1 <==> TeamKey(other, f) in m2);
    if other in StoredTeamNames(m1) {
      var k :| k in m1 && k.TeamKey? && k.team == other;
      assert k in m2;
    }
    if other in StoredTeamNames(m2) {
      var k :| k in m2 && k.TeamKey? && k.team == other;
      assert k in m1;
    }
  }

  /** Agreement outside a team persists a record of another team unchanged. */
  lemma AgreeOutsidePersisted(m1: Store, m2: Store, name: string, other: string, r: TeamRecord)
    requires AgreeOutside(m1, m2, name) && other != name && Persisted(m1, other, r)
    ensures Persisted(m2, other, r)
  {
    AgreeOutsideDecode(m1, m2, name, other);
  }

  /** The seed, the game state and the start time read the same from both stores. */
  predicate SameGlobals(m1: Store, m2: Store)
  {
    SameSeed(m1, m2) && GlobalState(m1) == GlobalState(m2) && StartTime(m1) == StartTime(m2)
  }

  /** The same seed, and a seed set in both or in neither. */
  predicate SameSeed(m1: Store, m2: Store)
  {
    CurrentSeed(m1) == CurrentSeed(m2) && HasSeed(m1) == HasSeed(m2)
  }

  /** The same seed, game state and start time, and the same teams listed: what a rewrite of
      existing team records leaves. */
  predicate SameOutline(m1: Store, m2: Store)
  {
    SameGlobals(m1, m2) && StoredTeamNames(m1) == StoredTeamNames(m2)
  }

  /** Stores that agree outside `teams.<name>` list the same other teams. */
  lemma AgreeOutsideNames(m1: Store, m2: Store, name: string)
    requires AgreeOutside(m1, m2, name)
    ensures StoredTeamNames(m1) - {name} == StoredTeamNames(m2) - {name}
  {
    forall other | other != name ensures (other in StoredTeamNames(m1)) <==> (other in StoredTeamNames(m2)) {
      AgreeOutsideDecode(m1, m2, name, other);
    }
  }

  /** A write under one team's subtree leaves the seed, state and start time alone. */
  lemma AgreeOutsideGlobals(m1: Store, m2: Store, name: string)
    requires AgreeOutside(m1, m2, name)
    ensures SameGlobals(m1, m2)
  {
    assert !CurrentSeedKey.TeamKey? && !GameStateKey.TeamKey? && !GameStartTimeKey.TeamKey?;
  }

  /** Two stores whose `teams` sections are the same. */
  ghost predicate SameTeams(m1: Store, m2: Store)
  {
    forall k: Key | k.TeamKey? :: (k in m1 <==> k in m2) && (k in m1 ==> m1[k] == m2[k])
  }

  /** Stores with the same `teams` section list the same teams. */
  lemma SameTeamsNames(m1: Store, m2: Store)
    requires SameTeams(m1, m2)
    ensures StoredTeamNames(m1) == StoredTeamNames(m2)
  {
  }

  /** setCurrentSeed, setGlobalGameState and setGameStartTime leave the `teams` section alone. */
  lemma GlobalWritesKeepTeams(m: Store, seed: int, g: GameState, t: int)
    ensures SameTeams(m, WithSeed(m, seed)) && SameTeams(m, WithGlobalState(m, g)) && SameTeams(m, WithStartTime(m, t))
  {
  }

  /** Each of the three global writers changes only its own reading. */
  lemma GlobalWritesIndependent(m: Store, seed: int, g: GameState, t: int)
    ensures GlobalState(WithSeed(m, seed)) == GlobalState(m) && StartTime(WithSeed(m, seed)) == StartTime(m)
    ensures CurrentSeed(WithGlobalState(m, g)) == CurrentSeed(m) && HasSeed(WithGlobalState(m, g)) == HasSeed(m)
    ensures StartTime(WithGlobalState(m, g)) == StartTime(m)
    ensures CurrentSeed(WithStartTime(m, t)) == CurrentSeed(m) && HasSeed(WithStartTime(m, t)) == HasSeed(m)
    ensures GlobalState(WithStartTime(m, t)) == GlobalState(m)
  {
  }

  /** A team persisted in one store is persisted in any store with the same `teams` section. */
  lemma SameTeamsPersisted(m1: Store, m2: Store, name: string, r: TeamRecord)
    requires SameTeams(m1, m2) && Persisted(m1, name, r)
    ensures Persisted(m2, name, r)
  {
    assert forall f: TeamField :: (TeamKey(name, f) in m1 <==> TeamKey(name, f) in m2);
    var k :| k in m1 && k.TeamKey? && k.team == name;
    assert k in m2;
  }

  /** saveTeam followed by loadTeams: the members that parse as UUIDs, the state, the completion
      time and the saved world names come back (earlier world names stay when none are saved);
      the team is listed; every other key is untouched. */
  lemma SaveTeamRoundTrip(m: Store, name: string, memberStrings: seq<string>, worlds: Option<WorldNames>, state: GameState, completionTime: int)
    ensures var m' := WithTeam(m, name, memberStrings, worlds, state, completionTime);
      && DecodeMembers(m', name) == (set x: Uuid | x in memberStrings)
      && DecodeState(m', name) == state
      && DecodeCompletionTime(m', name) == completionTime
      && (worlds.Some? ==> DecodeWorlds(m', name) == worlds)
      && (worlds.None? ==> DecodeWorlds(m', name) == DecodeWorlds(m, name))
      && StoredTeamNames(m') == StoredTeamNames(m) + {name}
      && AgreeOutside(m, m', name)
  {
    SaveTeamFields(m, name, memberStrings, worlds, state, completionTime);
    SaveTeamListing(m, name, memberStrings, worlds, state, completionTime);
  }

  lemma SaveTeamFields(m: Store, name: string, memberStrings: seq<string>, worlds: Option<WorldNames>, state: GameState, completionTime: int)
    ensures var m' := WithTeam(m, name, memberStrings, worlds, state, completionTime);
      && DecodeMembers(m', name) == (set x: Uuid | x in memberStrings)
      && DecodeState(m', name) == state
      && DecodeCompletionTime(m', name) == completionTime
      && (worlds.Some? ==> DecodeWorlds(m', name) == worlds)
      && (worlds.None? ==> DecodeWorlds(m', name) == DecodeWorlds(m, name))
  {
    ValueOfName(state);
  }

  lemma SaveTeamListing(m: Store, name: string, memberStrings: seq<string>, worlds: Option<WorldNames>, state: GameState, completionTime: int)
    ensures var m' := WithTeam(m, name, memberStrings, worlds, state, completionTime);
      && StoredTeamNames(m') == StoredTeamNames(m) + {name}
      && AgreeOutside(m, m', name)
  {
    var m' := WithTeam(m, name, memberStrings, worlds, state, completionTime);
    assert TeamKey(name, MembersField) in m';
    forall n ensures n in StoredTeamNames(m') <==> n in StoredTeamNames(m) + {name} {
      if n in StoredTeamNames(m) {
        var k :| k in m && k.TeamKey? && k.team == n;
        assert k in m';
      }
      if n in StoredTeamNames(m') && n != name {
        var k :| k in m' && k.TeamKey? && k.team == n;
        assert k in m;
      }
    }
  }

  /** Saving a team whose member strings are exactly its members persists that team. */
  lemma SaveTeamPersists(m: Store, name: string, memberStrings: seq<string>, r: TeamRecord)
    requires forall x: Uuid :: x in memberStrings <==> x in r.members
    ensures Persisted(WithTeam(m, name, memberStrings, r.worlds, r.state, r.completionTime), name, r)
  {
    SaveTeamRoundTrip(m, name, memberStrings, r.worlds, r.state, r.completionTime);
  }

  /** deleteTeam removes the team from the listing and touches nothing outside its subtree. */
  lemma DeleteTeamEffect(m: Store, name: string)
    ensures name !in StoredTeamNames(WithoutTeam(m, name))
    ensures StoredTeamNames(WithoutTeam(m, name)) == StoredTeamNames(m) - {name}
    ensures AgreeOutside(m, WithoutTeam(m, name), name)
  {
    var m' := WithoutTeam(m, name);
    forall n ensures n in StoredTeamNames(m') <==> n in StoredTeamNames(m) - {name} {
      if n in StoredTeamNames(m) && n != name {
        var k :| k in m && k.TeamKey? && k.team == n;
        assert k in m';
      }
    }
  }

  /** clearAllGameData: no seed, no start time, state WAITING, no teams; nothing else is kept
      but the state key. */
  lemma ClearedEffect(m: Store)
    ensures !HasSeed(Cleared(m)) && CurrentSeed(Cleared(m)) == 0
    ensures StartTime(Cleared(m)) == 0
    ensures GlobalState(Cleared(m)) == Waiting
    ensures StoredTeamNames(Cleared(m)) == {}
    ensures Cleared(m).Keys == {GameStateKey}
  {
    forall k | k in Cleared(m) ensures k == GameStateKey {
    }
  }

  /** loadTeams' defaults: strings that are not UUIDs are dropped, a missing state reads as
      WAITING, a missing completion time as -1, and a team without an overworld key has no
      world set. */
  lemma DecodeDefaults(m: Store, name: string)
    ensures forall x: Uuid :: x in DecodeMembers(m, name) ==> x in GetStringList(m, TeamKey(name, MembersField))
    ensures forall s | s in GetStringList(m, TeamKey(name, MembersField)) && !IsUuid(s) :: s !in DecodeMembers(m, name)
    ensures TeamKey(name, StateField) !in m ==> DecodeState(m, name) == Waiting
    ensures TeamKey(name, CompletionTimeField) !in m ==> DecodeCompletionTime(m, name) == -1
    ensures TeamKey(name, OverworldField) !in m ==> DecodeWorlds(m, name).None?
  {
  }
}
